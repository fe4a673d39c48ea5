/**
 What the filters mean: filter `n` of a selector holds exactly the bits of the IDs that were
 put in it `n` advances ago, so every answer is explained by the IDs of one single epoch.
 And how full they get: bounds on the one bits, and on the number of IDs a selector accepts.
 */
module BloomHistory {
  import opened Base
  import opened Bloom

  /** For each selector, the IDs inserted during the current epoch, the one before, ... */
  type Epochs = h: seq<seq<set<Id>>> | |h| == SELECTORS && forall s | 0 <= s < SELECTORS :: |h[s]| == NUM_FILTERS
    witness [seq(NUM_FILTERS, _ => {}), seq(NUM_FILTERS, _ => {}), seq(NUM_FILTERS, _ => {}), seq(NUM_FILTERS, _ => {})]

  ghost function NoEpochs(): (h: Epochs) {
    seq(SELECTORS, _ => seq(NUM_FILTERS, _ => {}))
  }

  ghost function Row(ids: set<Id>, d: nat): set<int>
    requires d < FILTER_DEPTH
  {
    set x | x in ids :: Pos(x, d)
  }

  ghost predicate Explains(h: Epochs, b: Bloom) {
    forall s: Selector, n, d | 0 <= n < NUM_FILTERS && 0 <= d < FILTER_DEPTH ::
      b.rings[s][n][d] == Row(h[s][n], d)
  }

  ghost function ShiftEpochs(h: Epochs): (h': Epochs) {
    seq(SELECTORS, s requires 0 <= s < SELECTORS => [{}] + h[s][..NUM_FILTERS - 1])
  }

  ghost function PutEpoch(h: Epochs, sel: Selector, id: Id): (h': Epochs) {
    h[sel := h[sel][0 := h[sel][0] + {id}]]
  }

  /** The record of one operation: whether it inserts the ID, then whether it starts a new epoch. */
  ghost function Record(h: Epochs, b: Bloom, op: Op): (h': Epochs) {
    var inserts := op.AddOp? || (op.LookupOp? && 0 < FirstIn(b.rings[op.sel], op.id, 0) < NUM_FILTERS);
    var h1 := if inserts then PutEpoch(h, op.sel, op.id) else h;
    if Apply(b, op).epoch > b.epoch then ShiftEpochs(h1) else h1
  }

  ghost function RecordAll(h: Epochs, b: Bloom, ops: seq<Op>): (h': Epochs)
    decreases |ops|
  {
    if ops == [] then h else RecordAll(Record(h, b, ops[0]), Apply(b, ops[0]), ops[1..])
  }

  lemma {:induction false} PutExplained(h: Epochs, b: Bloom, sel: Selector, id: Id)
    requires Explains(h, b)
    ensures Explains(PutEpoch(h, sel, id), Put(b, sel, Insert(b.rings[sel][0], id)))
  {
    var b' := Put(b, sel, Insert(b.rings[sel][0], id));
    var h' := PutEpoch(h, sel, id);
    forall s: Selector, n, d | 0 <= n < NUM_FILTERS && 0 <= d < FILTER_DEPTH
      ensures b'.rings[s][n][d] == Row(h'[s][n], d)
    {
      if s == sel && n == 0 {
        assert Row(h[s][0] + {id}, d) == Row(h[s][0], d) + {Pos(id, d)};
      }
    }
  }

  lemma {:induction false} AdvanceExplained(h: Epochs, b: Bloom)
    requires Explains(h, b)
    ensures Explains(ShiftEpochs(h), Advance(b))
  {
    AdvanceShifts(b);
    forall s: Selector, n, d | 0 <= n < NUM_FILTERS && 0 <= d < FILTER_DEPTH
      ensures Advance(b).rings[s][n][d] == Row(ShiftEpochs(h)[s][n], d)
    {
      assert ShiftEpochs(h)[s][n] == if n == 0 then {} else h[s][n - 1];
    }
  }

  lemma {:induction false} ApplyExplained(h: Epochs, b: Bloom, op: Op)
    requires Explains(h, b)
    ensures Explains(Record(h, b, op), Apply(b, op))
  {
    match op
    case AdvanceOp => AdvanceExplained(h, b);
    case _ =>
      var b1 := Put(b, op.sel, Insert(b.rings[op.sel][0], op.id));
      var h1 := PutEpoch(h, op.sel, op.id);
      PutExplained(h, b, op.sel, op.id);
      AddCases(b, op.sel, op.id);
      AdvanceExplained(h1, b1);
  }

  lemma {:induction false} RunExplained(h: Epochs, b: Bloom, ops: seq<Op>)
    requires Explains(h, b)
    ensures Explains(RecordAll(h, b, ops), Run(b, ops))
    decreases |ops|
  {
    if ops != [] {
      ApplyExplained(h, b, ops[0]);
      RunExplained(Record(h, b, ops[0]), Apply(b, ops[0]), ops[1..]);
    }
  }

  ghost predicate SetByOne(ids: set<Id>, p: int, d: nat)
    requires d < FILTER_DEPTH
  {
    exists x | x in ids :: Pos(x, d) == p
  }

  ghost predicate Covered(ids: set<Id>, id: Id) {
    forall d | 0 <= d < FILTER_DEPTH :: SetByOne(ids, Pos(id, d), d)
  }

  lemma {:induction false} FilterCovered(ids: set<Id>, f: Filter, id: Id)
    requires forall d | 0 <= d < FILTER_DEPTH :: f[d] == Row(ids, d)
    ensures InFilter(f, id) <==> Covered(ids, id)
  {
    forall d | 0 <= d < FILTER_DEPTH
      ensures Pos(id, d) in f[d] <==> SetByOne(ids, Pos(id, d), d)
    {
    }
  }

  ghost predicate CoveredInOneEpoch(epochs: seq<set<Id>>, id: Id) {
    exists n | 0 <= n < |epochs| :: Covered(epochs[n], id)
  }

  lemma {:induction false} AnswerExplained(h: Epochs, b: Bloom, sel: Selector, id: Id)
    requires Explains(h, b)
    ensures Contains(b, sel, id) <==> CoveredInOneEpoch(h[sel], id)
  {
    forall n | 0 <= n < NUM_FILTERS
      ensures InFilter(b.rings[sel][n], id) <==> Covered(h[sel][n], id)
    {
      FilterCovered(h[sel][n], b.rings[sel][n], id);
    }
    if Contains(b, sel, id) {
      var n :| 0 <= n < NUM_FILTERS && InFilter(b.rings[sel][n], id);
      assert Covered(h[sel][n], id);
    }
  }

  lemma {:induction false} EmptyExplained()
    ensures Explains(NoEpochs(), EMPTY)
  {
  }

  /** After any run from filters whose contents are known, an ID is
      reported present if and only if, within one of the last sixteen epochs, every one of its
      eight positions was set by some inserted ID. */
  lemma {:induction false} PresentIffCovered(h: Epochs, b: Bloom, ops: seq<Op>, sel: Selector, id: Id)
    requires Explains(h, b)
    ensures Contains(Run(b, ops), sel, id) <==>
            CoveredInOneEpoch(RecordAll(h, b, ops)[sel], id)
  {
    RunExplained(h, b, ops);
    AnswerExplained(RecordAll(h, b, ops), Run(b, ops), sel, id);
  }

  /** ... and so it is after any run from empty filters. */
  lemma {:induction false} PresentFromEmpty(ops: seq<Op>, sel: Selector, id: Id)
    ensures Contains(Run(EMPTY, ops), sel, id) <==>
            CoveredInOneEpoch(RecordAll(NoEpochs(), EMPTY, ops)[sel], id)
  {
    hide Explains;
    EmptyExplained();
    PresentIffCovered(NoEpochs(), EMPTY, ops, sel, id);
  }

  // ---------------------------------------------------------------------------
  // Load
  // ---------------------------------------------------------------------------

  ghost predicate RowsAtMost(f: Filter, k: nat) {
    forall d | 0 <= d < FILTER_DEPTH :: |f[d]| <= k
  }

  /** The load counter bounds the one bits of filter 0 and rests at MAX_FILTER_LOAD or below. */
  ghost predicate Bounded(b: Bloom) {
    forall s: Selector ::
      && b.load[s] <= MAX_FILTER_LOAD
      && RowsAtMost(b.rings[s][0], b.load[s])
      && forall n | 0 <= n < NUM_FILTERS :: RowsAtMost(b.rings[s][n], MAX_FILTER_LOAD + 1)
  }

  lemma {:induction false} InsertGrowsByOne(f: Filter, id: Id, k: nat)
    requires RowsAtMost(f, k)
    ensures RowsAtMost(Insert(f, id), if Insert(f, id) == f then k else k + 1)
  {
    forall d | 0 <= d < FILTER_DEPTH
      ensures |Insert(f, id)[d]| <= |f[d]| + 1
    {
      CardinalityOfInsert(f[d], Pos(id, d));
    }
  }

  lemma {:induction false} AdvanceBounded(b: Bloom)
    requires forall s: Selector, n | 0 <= n < NUM_FILTERS :: RowsAtMost(b.rings[s][n], MAX_FILTER_LOAD + 1)
    ensures Bounded(Advance(b))
  {
    AdvanceShifts(b);
    assert RowsAtMost(EMPTY_FILTER, 0);
  }

  lemma {:induction false} AddBounded(b: Bloom, sel: Selector, id: Id)
    requires Bounded(b)
    ensures Bounded(Add(b, sel, id))
  {
    var f := Insert(b.rings[sel][0], id);
    InsertGrowsByOne(b.rings[sel][0], id, b.load[sel]);
    var b1 := Put(b, sel, f);
    if f != b.rings[sel][0] {
      var b2 := b1.(load := b1.load[sel := b1.load[sel] + 1]);
      assert b2.rings == b1.rings && RowsAtMost(b2.rings[sel][0], b2.load[sel]);
      forall s: Selector, n | 0 <= n < NUM_FILTERS
        ensures RowsAtMost(b2.rings[s][n], MAX_FILTER_LOAD + 1)
      {
        if s != sel || n != 0 {
          assert b2.rings[s][n] == b.rings[s][n];
        }
      }
      if b2.load[sel] > MAX_FILTER_LOAD {
        AdvanceBounded(b2);
      }
    } else {
      assert b.rings[sel][0 := f] == b.rings[sel];
      assert b1.rings == b.rings;
    }
  }

  /** In every reachable state the load counters bound the filters. */
  lemma {:induction false} RunBounded(b: Bloom, ops: seq<Op>)
    requires Bounded(b)
    ensures Bounded(Run(b, ops))
    decreases |ops|
  {
    if ops != [] {
      match ops[0] {
        case AdvanceOp => AdvanceBounded(b);
        case _ => AddBounded(b, ops[0].sel, ops[0].id);
      }
      RunBounded(Apply(b, ops[0]), ops[1..]);
    }
  }

  ghost function Power(base: nat, exp: nat): nat {
    if exp == 0 then 1 else base * Power(base, exp - 1)
  }

  ghost function Positions(id: Id): (p: seq<int>) {
    [Pos(id, 0), Pos(id, 1), Pos(id, 2), Pos(id, 3), Pos(id, 4), Pos(id, 5), Pos(id, 6), Pos(id, 7)]
  }

  /** At most k^|f| sequences pick their d-th element from a set f[d] of at most k elements. */
  lemma {:induction false} CountTuples(S: set<seq<int>>, f: seq<set<int>>, k: nat)
    requires forall d | 0 <= d < |f| :: |f[d]| <= k
    requires forall x | x in S :: PicksFrom(x, f)
    ensures |S| <= Power(k, |f|)
    decreases |f|, 1
  {
    if f == [] {
      assert forall x | x in S :: x == [];
      assert S <= {[]};
      CardinalityOfSubset(S, {[]});
    } else {
      CountByHead(S, f, k, f[0]);
      assert |f[0]| * Power(k, |f| - 1) <= k * Power(k, |f| - 1) by { MulMonotone(|f[0]|, k, Power(k, |f| - 1)); }
    }
  }

  lemma {:induction false} MulMonotone(a: nat, b: nat, c: nat)
    requires a <= b
    ensures a * c <= b * c
  {
  }

  ghost predicate PicksFrom(x: seq<int>, f: seq<set<int>>) {
    |x| == |f| && forall d | 0 <= d < |f| :: x[d] in f[d]
  }

  lemma {:induction false} TailPicks(x: seq<int>, f: seq<set<int>>)
    requires f != [] && PicksFrom(x, f)
    ensures PicksFrom(x[1..], f[1..])
  {
  }

  lemma {:induction false} CountByHead(S: set<seq<int>>, f: seq<set<int>>, k: nat, heads: set<int>)
    requires f != []
    requires forall d | 0 <= d < |f| :: |f[d]| <= k
    requires forall x | x in S :: PicksFrom(x, f) && x[0] in heads
    ensures |S| <= |heads| * Power(k, |f| - 1)
    decreases |f|, 0, |heads|
  {
    if v :| v in heads {
      var with := set x | x in S && x[0] == v;
      var rest := S - with;
      CountByHead(rest, f, k, heads - {v});
      CountOneHead(with, f, k, v);
      assert |S| == |with| + |rest| by { assert S == with + rest; }
      assert |heads| == |heads - {v}| + 1;
      MulSucc(|heads - {v}|, Power(k, |f| - 1));
    } else {
      assert S == {};
    }
  }

  lemma {:induction false} CountOneHead(S: set<seq<int>>, f: seq<set<int>>, k: nat, v: int)
    requires f != []
    requires forall d | 0 <= d < |f| :: |f[d]| <= k
    requires forall x | x in S :: PicksFrom(x, f) && x[0] == v
    ensures |S| <= Power(k, |f| - 1)
    decreases |f|, 0, 0
  {
    var tails := set x | x in S :: x[1..];
    forall y | y in tails ensures PicksFrom(y, f[1..]) {
      var x :| x in S && y == x[1..];
      TailPicks(x, f);
    }
    CountTuples(tails, f[1..], k);
    TailsAreAsMany(S, v);
  }

  lemma {:induction false} TailsAreAsMany(S: set<seq<int>>, v: int)
    requires forall x | x in S :: x != [] && x[0] == v
    ensures |set x | x in S :: x[1..]| == |S|
    decreases |S|
  {
    var tails := set x | x in S :: x[1..];
    if S == {} {
      assert tails == {};
    } else {
      var x :| x in S;
      var rest := set y | y in S - {x} :: y[1..];
      TailsAreAsMany(S - {x}, v);
      forall y | y in S - {x} ensures y[1..] != x[1..] {
        assert x == [v] + x[1..] && y == [v] + y[1..];
      }
      assert tails == rest + {x[1..]};
    }
  }

  lemma {:induction false} PositionsInjective(x: Id, y: Id)
    requires Positions(x) == Positions(y)
    ensures x == y
  {
    forall d | 0 <= d < FILTER_DEPTH
      ensures x[2 * d] == y[2 * d] && x[2 * d + 1] == y[2 * d + 1]
    {
      assert Positions(x)[d] == Pos(x, d) && Positions(y)[d] == Pos(y, d);
    }
    forall i | 0 <= i < MESSAGE_ID_SIZE ensures x[i] == y[i] {
      assert i == 2 * (i / 2) || i == 2 * (i / 2) + 1;
      assert x[2 * (i / 2)] == y[2 * (i / 2)];
    }
  }

  lemma {:induction false} SameCount(ids: set<Id>)
    ensures |set x | x in ids :: Positions(x)| == |ids|
    decreases |ids|
  {
    var tuples := set x | x in ids :: Positions(x);
    if ids == {} {
      assert tuples == {};
    } else {
      var x :| x in ids;
      var rest := set y | y in ids - {x} :: Positions(y);
      SameCount(ids - {x});
      forall y | y in ids - {x} ensures Positions(y) != Positions(x) {
        if Positions(y) == Positions(x) {
          PositionsInjective(x, y);
        }
      }
      assert tuples == rest + {Positions(x)};
    }
  }

  lemma {:induction false} CountInFilter(ids: set<Id>, f: Filter, k: nat)
    requires RowsAtMost(f, k)
    requires forall x | x in ids :: InFilter(f, x)
    ensures |ids| <= Power(k, |f|)
  {
    SameCount(ids);
    forall x | x in ids ensures PicksFrom(Positions(x), f) {
      assert InFilter(f, x);
    }
    CountTuples(set x | x in ids :: Positions(x), f, k);
  }

  ghost predicate InSomeFilter(r: Ring, upto: nat, id: Id)
    requires upto <= NUM_FILTERS
  {
    exists n | 0 <= n < upto :: InFilter(r[n], id)
  }

  lemma {:induction false} CountInRing(ids: set<Id>, r: Ring, k: nat, capacity: nat, upto: nat)
    requires upto <= NUM_FILTERS
    requires capacity == Power(k, |r[0]|)
    requires forall n | 0 <= n < upto :: RowsAtMost(r[n], k)
    requires forall x | x in ids :: InSomeFilter(r, upto, x)
    ensures |ids| <= upto * capacity
    decreases upto
  {
    if upto == 0 {
      assert ids == {};
    } else {
      var last := set x | x in ids && InFilter(r[upto - 1], x);
      CountInFilter(last, r[upto - 1], k);
      OthersAreOlder(ids, last, r, upto);
      CountInRing(ids - last, r, k, capacity, upto - 1);
      CountParts(ids, last);
      MulSucc(upto - 1, capacity);
    }
  }

  lemma {:induction false} OthersAreOlder(ids: set<Id>, last: set<Id>, r: Ring, upto: nat)
    requires 0 < upto <= NUM_FILTERS
    requires forall x | x in ids :: InSomeFilter(r, upto, x)
    requires forall x | x in ids && InFilter(r[upto - 1], x) :: x in last
    ensures forall x | x in ids - last :: InSomeFilter(r, upto - 1, x)
  {
    forall x | x in ids - last ensures InSomeFilter(r, upto - 1, x) {
      var n :| 0 <= n < upto && InFilter(r[n], x);
      assert n < upto - 1;
    }
  }

  lemma {:induction false} CountParts<T>(s: set<T>, part: set<T>)
    requires part <= s
    ensures |s| == |part| + |s - part|
  {
    assert s == part + (s - part);
  }

  lemma {:induction false} MulSucc(a: nat, c: nat)
    ensures (a + 1) * c == a * c + c
  {
  }

  /** Whatever was inserted since the filters were empty, a selector accepts at most
      16 * (MAX_FILTER_LOAD + 1)^8 of the 2^128 IDs. */
  lemma {:induction false} AcceptedIdsBounded(ops: seq<Op>, sel: Selector, ids: set<Id>)
    requires forall x | x in ids :: Contains(Run(EMPTY, ops), sel, x)
    ensures |ids| <= NUM_FILTERS * Power(MAX_FILTER_LOAD + 1, FILTER_DEPTH)
  {
    assert Bounded(EMPTY);
    RunBounded(EMPTY, ops);
    forall x | x in ids ensures InSomeFilter(Run(EMPTY, ops).rings[sel], NUM_FILTERS, x) {
      assert Contains(Run(EMPTY, ops), sel, x);
    }
    CountInRing(ids, Run(EMPTY, ops).rings[sel], MAX_FILTER_LOAD + 1,
                Power(MAX_FILTER_LOAD + 1, FILTER_DEPTH), NUM_FILTERS);
  }

  // ---------------------------------------------------------------------------
  // One insertion
  // ---------------------------------------------------------------------------

  /** The rows of the newest filter of a selector with the bits of the ID set, two bytes of the ID to a row. */
  ghost predicate BitsSet(f: Filter, id: Id, f': Filter) {
    forall d | 0 <= d < 8 :: f'[d] == f[d] + {256 * id[2 * d] as int + id[2 * d + 1] as int}
  }

  /** Inserting an ID that the newest filter holds changes nothing; otherwise its bits are set and it is counted, once;
      the 16385th ID counted makes all filters of all selectors one place older, and the counts start again. */
  lemma {:induction false} AddIs(b: Bloom, sel: Selector, id: Id)
    ensures var b' := Add(b, sel, id);
            && (InFilter(b.rings[sel][0], id) ==> b' == b)
            && (!InFilter(b.rings[sel][0], id) && b.load[sel] < 16384 ==>
                  && b' == b.(rings := b'.rings, load := b.load[sel := b.load[sel] + 1])
                  && b'.rings == b.rings[sel := b.rings[sel][0 := b'.rings[sel][0]]]
                  && BitsSet(b.rings[sel][0], id, b'.rings[sel][0]))
            && (!InFilter(b.rings[sel][0], id) && b.load[sel] >= 16384 ==>
                  && b'.load == [0, 0, 0, 0] && b'.epoch == b.epoch + 1
                  && (forall s: Selector :: b'.rings[s][0] == EMPTY_FILTER)
                  && (forall s: Selector, n | 0 < n < 16 && !(s == sel && n == 1) :: b'.rings[s][n] == b.rings[s][n - 1])
                  && BitsSet(b.rings[sel][0], id, b'.rings[sel][1]))
  {
    hide InFilter;
    InsertSets(b.rings[sel][0], id);
    assert b.rings[sel][0 := b.rings[sel][0]] == b.rings[sel] && b.rings[sel := b.rings[sel]] == b.rings;
    AdvanceShifts(Put(b, sel, Insert(b.rings[sel][0], id)));
  }

  lemma {:induction false} InsertSets(f: Filter, id: Id)
    ensures BitsSet(f, id, Insert(f, id)) && (Insert(f, id) == f <==> InFilter(f, id))
  {
    assert forall d | 0 <= d < FILTER_DEPTH :: Pos(id, d) == 256 * id[2 * d] as int + id[2 * d + 1] as int;
    assert forall d | 0 <= d < FILTER_DEPTH :: Insert(f, id)[d] == f[d] + {Pos(id, d)};
    if Insert(f, id) == f {
      forall d | 0 <= d < FILTER_DEPTH ensures Pos(id, d) in f[d] {
        assert Pos(id, d) in Insert(f, id)[d];
      }
    }
    if InFilter(f, id) {
      forall d | 0 <= d < FILTER_DEPTH ensures Insert(f, id)[d] == f[d] {
        CardinalityOfInsert(f[d], Pos(id, d));
      }
    }
  }
}
