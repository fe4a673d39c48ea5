/** The filters as the program keeps them: one static table updated in place. */
module PidBloom {
  import opened Base
  import opened Bloom

  class BloomTable {
    /** filters[selector, age]; a filter is copied as a block, its rows are set bit by bit. */
    const filters: array2<Filter>
    const load: array<nat>
    ghost var epoch: nat

    ghost predicate Valid()
      reads this, load
    {
      && filters.Length0 == SELECTORS
      && filters.Length1 == NUM_FILTERS
      && load.Length == SELECTORS
    }

    ghost function RingOf(s: Selector): (r: Ring)
      requires Valid()
      reads this, filters, load
    {
      seq(NUM_FILTERS, n requires 0 <= n < NUM_FILTERS && Valid() reads this, filters, load => filters[s, n])
    }

    /** The objects that hold the table. */
    ghost function Repr(): (r: set<object>) {
      {this, filters, load}
    }

    /** The abstract value of the whole table. */
    ghost function View(): (b: Bloom)
      requires Valid()
      reads this, filters, load
    {
      Filters([RingOf(0), RingOf(1), RingOf(2), RingOf(3)], load[..], epoch)
    }

    constructor ()
      ensures Valid() && fresh(filters) && fresh(load)
      ensures View() == EMPTY
    {
      filters := new Filter[SELECTORS, NUM_FILTERS]((_, _) => EMPTY_FILTER);
      load := new nat[SELECTORS](_ => 0);
      epoch := 0;
      new;
      assert forall s: Selector :: RingOf(s) == EMPTY_RING;
    }

    /** pid_is_in_bloom: search the filters from the newest; promote an ID found in an older one. */
    method IsInBloom(id: Id, sel: Selector) returns (found: bool)
      requires Valid()
      modifies this, filters, load
      ensures Valid()
      ensures found <==> old(Contains(View(), sel, id))
      ensures View() == AfterLookup(old(View()), sel, id)
    {
      ghost var b := View();
      LookupAnswers(b, sel, id);
      for num := 0 to NUM_FILTERS
        invariant FirstIn(b.rings[sel], id, 0) == FirstIn(b.rings[sel], id, num)
        invariant View() == b
      {
        assert filters[sel, num] == RingOf(sel)[num] == b.rings[sel][num];
        var inAll := TestFilter(filters[sel, num], id);
        if inAll {
          if num > 0 {
            AddToBloom(id, sel);
          }
          return true;
        }
      }
      return false;
    }

    /** The callers' idiom for recording an ID: add it unless it is there already. */
    method NoteId(id: Id, sel: Selector)
      requires Valid()
      modifies this, filters, load
      ensures Valid()
      ensures View() == Note(old(View()), sel, id)
    {
      hide Note, Contains, AfterLookup, Add;
      NoteSteps(View(), sel, id);
      var known := IsInBloom(id, sel);
      if !known {
        AddToBloom(id, sel);
      }
    }

    /** The inner loop of the search: test one bit per depth, up to the first that is not set. */
    static method TestFilter(f: Filter, id: Id) returns (inAll: bool)
      ensures inAll <==> InFilter(f, id)
    {
      inAll := true;
      var depth := 0;
      while depth < FILTER_DEPTH && inAll
        invariant 0 <= depth <= FILTER_DEPTH
        invariant inAll ==> forall d | 0 <= d < depth :: Pos(id, d) in f[d]
        invariant !inAll ==> exists d | 0 <= d < depth :: Pos(id, d) !in f[d]
      {
        if Pos(id, depth) !in f[depth] {
          inAll := false;
        }
        depth := depth + 1;
      }
    }

    /** pid_add_to_bloom: set one bit per depth in the newest filter; advance when it gets too full. */
    method AddToBloom(id: Id, sel: Selector)
      requires Valid()
      modifies this, filters, load
      ensures Valid()
      ensures View() == Add(old(View()), sel, id)
    {
      var increment := false;
      ghost var b := View();
      ghost var f := filters[sel, 0];
      for depth := 0 to FILTER_DEPTH
        invariant filters[sel, 0] == InsertRows(f, id, depth)
        invariant increment <==> InsertRows(f, id, depth) != f
        invariant forall s: Selector, n | 0 <= n < NUM_FILTERS && (s != sel || n != 0) ::
                    filters[s, n] == b.rings[s][n]
        invariant load[..] == b.load && epoch == b.epoch
      {
        var oldRow := filters[sel, 0][depth];
        var newRow := oldRow + {Pos(id, depth)};
        filters[sel, 0] := filters[sel, 0][depth := newRow];
        assert filters[sel, 0] == InsertRows(f, id, depth + 1);
        if oldRow != newRow {
          increment := true;
          assert InsertRows(f, id, depth + 1)[depth] != f[depth];
        } else {
          assert InsertRows(f, id, depth + 1) == InsertRows(f, id, depth);
        }
      }
      ghost var b1 := Put(b, sel, Insert(f, id));
      ViewIs(b1);
      if increment {
        load[sel] := load[sel] + 1;
        ViewIs(b1.(load := b1.load[sel := b1.load[sel] + 1]));
        if load[sel] > MAX_FILTER_LOAD {
          AdvanceBloom();
        }
      }
    }

    /** pid_advance_bloom: every selector drops its oldest filter and starts an empty one. */
    method AdvanceBloom()
      requires Valid()
      modifies this, filters, load
      ensures Valid()
      ensures View() == Advance(old(View()))
    {
      ghost var b := View();
      for sel := 0 to SELECTORS
        invariant forall s: Selector :: RingOf(s) == if s < sel then AdvanceRing(b.rings[s]) else b.rings[s]
        invariant forall s: Selector :: load[s] == if s < sel then 0 else b.load[s]
        invariant epoch == b.epoch
      {
        AdvanceSelector(sel);
      }
      epoch := epoch + 1;
      assert load[..] == [0, 0, 0, 0];
      forall s: Selector ensures View().rings[s] == Advance(b).rings[s] {
        assert View().rings[s] == RingOf(s) && Advance(b).rings[s] == AdvanceRing(b.rings[s]);
      }
      assert View().rings == Advance(b).rings;
    }

    /** One selector's share of the advance: copy each filter one place older, oldest pair first. */
    method AdvanceSelector(sel: Selector)
      requires Valid()
      modifies filters, load
      ensures RingOf(sel) == AdvanceRing(old(RingOf(sel)))
      ensures load[sel] == 0
      ensures forall s: Selector | s != sel :: RingOf(s) == old(RingOf(s)) && load[s] == old(load[s])
    {
      ghost var r := RingOf(sel);
      var index := NUM_FILTERS - 2;
      while index >= 0
        invariant -1 <= index <= NUM_FILTERS - 2
        invariant forall n | 0 <= n <= index + 1 :: filters[sel, n] == r[n]
        invariant forall n | index + 1 < n < NUM_FILTERS :: filters[sel, n] == r[n - 1]
        invariant forall s: Selector, n | 0 <= n < NUM_FILTERS && s != sel :: filters[s, n] == old(filters[s, n])
        invariant load[..] == old(load[..])
      {
        filters[sel, index + 1] := filters[sel, index];
        index := index - 1;
      }
      filters[sel, 0] := EMPTY_FILTER;
      load[sel] := 0;
      assert RingOf(sel) == AdvanceRing(r);
    }

    /** The value is determined by its cells. */
    lemma {:induction false} ViewIs(b: Bloom)
      requires Valid()
      requires forall s: Selector, n | 0 <= n < NUM_FILTERS :: filters[s, n] == b.rings[s][n]
      requires load[..] == b.load && epoch == b.epoch
      ensures View() == b
    {
      forall s: Selector ensures RingOf(s) == b.rings[s] {
      }
      assert View().rings == b.rings;
    }
  }
}
