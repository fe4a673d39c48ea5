/**
 The history of discarded IDs: for each of four selectors a ring of sixteen Bloom filters,
 newest first.  This module is the value model; the class in PidBloom.dfy refines it.

 A filter row of 65536 bits is the set of the positions of its one bits.
 */
module Bloom {
  import opened Base

  const SELECTORS := 4
  const NUM_FILTERS := 16
  const FILTER_DEPTH := 8
  const FILTER_WIDTH := 65536
  const MAX_FILTER_LOAD := FILTER_WIDTH / 4

  const MESSAGE_FILTER := 0
  const ACK_FILTER := 1

  type Selector = s: int | 0 <= s < SELECTORS

  type Filter = f: seq<set<int>> | |f| == FILTER_DEPTH witness [{}, {}, {}, {}, {}, {}, {}, {}]

  type Ring = r: seq<Filter> | |r| == NUM_FILTERS
    witness seq(NUM_FILTERS, _ => EMPTY_FILTER)

  /** `epoch` counts the advances made so far; the program has no such counter, and nothing reads it. */
  datatype Filters = Filters(rings: seq<Ring>, load: seq<nat>, epoch: nat)

  type Bloom = b: Filters | |b.rings| == SELECTORS && |b.load| == SELECTORS witness EMPTY

  const EMPTY_FILTER: Filter := [{}, {}, {}, {}, {}, {}, {}, {}]
  const EMPTY_RING: Ring := seq(NUM_FILTERS, _ => EMPTY_FILTER)
  const EMPTY: Filters := Filters([EMPTY_RING, EMPTY_RING, EMPTY_RING, EMPTY_RING], [0, 0, 0, 0], 0)

  /** The bit position an ID selects at one depth: two bytes of the ID. */
  function Pos(id: Id, depth: nat): (p: int)
    requires depth < FILTER_DEPTH
  {
    256 * id[2 * depth] as int + id[2 * depth + 1] as int
  }

  predicate InFilter(f: Filter, id: Id) {
    forall d | 0 <= d < FILTER_DEPTH :: Pos(id, d) in f[d]
  }

  function InsertRows(f: Filter, id: Id, upto: nat): (r: Filter)
    requires upto <= FILTER_DEPTH
  {
    seq(FILTER_DEPTH, d requires 0 <= d < FILTER_DEPTH => if d < upto then f[d] + {Pos(id, d)} else f[d])
  }

  function Insert(f: Filter, id: Id): (r: Filter) {
    InsertRows(f, id, FILTER_DEPTH)
  }

  function AdvanceRing(r: Ring): (r': Ring) {
    [EMPTY_FILTER] + r[..NUM_FILTERS - 1]
  }

  function Advance(b: Bloom): (b': Bloom) {
    var rings: seq<Ring> :=
      [AdvanceRing(b.rings[0]), AdvanceRing(b.rings[1]), AdvanceRing(b.rings[2]), AdvanceRing(b.rings[3])];
    Filters(rings, [0, 0, 0, 0], b.epoch + 1)
  }

  function Put(b: Bloom, sel: Selector, f: Filter): (b': Bloom) {
    b.(rings := b.rings[sel := b.rings[sel][0 := f]])
  }

  function Add(b: Bloom, sel: Selector, id: Id): (b': Bloom) {
    var f := Insert(b.rings[sel][0], id);
    var b1 := Put(b, sel, f);
    if f == b.rings[sel][0] then b1
    else
      var b2 := b1.(load := b1.load[sel := b1.load[sel] + 1]);
      if b2.load[sel] > MAX_FILTER_LOAD then Advance(b2) else b2
  }

  /** The newest filter at or after `n` that holds the ID, or NUM_FILTERS. */
  function FirstIn(r: Ring, id: Id, n: nat): (k: nat)
    requires n <= NUM_FILTERS
    ensures n <= k <= NUM_FILTERS
    ensures k < NUM_FILTERS ==> InFilter(r[k], id)
    ensures forall j | n <= j < k :: !InFilter(r[j], id)
    decreases NUM_FILTERS - n
  {
    if n == NUM_FILTERS || InFilter(r[n], id) then n else FirstIn(r, id, n + 1)
  }

  ghost predicate Contains(b: Bloom, sel: Selector, id: Id) {
    exists n | 0 <= n < NUM_FILTERS :: InFilter(b.rings[sel][n], id)
  }

  /** A lookup that succeeds in an older filter also promotes the ID to the newest one. */
  function AfterLookup(b: Bloom, sel: Selector, id: Id): (b': Bloom) {
    var n := FirstIn(b.rings[sel], id, 0);
    if 0 < n < NUM_FILTERS then Add(b, sel, id) else b
  }

  /** The idiom used by every caller that records an ID: look it up, and add it when it is missing. */
  function Note(b: Bloom, sel: Selector, id: Id): (b': Bloom) {
    if FirstIn(b.rings[sel], id, 0) < NUM_FILTERS then AfterLookup(b, sel, id) else Add(b, sel, id)
  }

  // ---------------------------------------------------------------------------
  // No false negatives
  // ---------------------------------------------------------------------------

  /** The ID sits in a filter no older than the advances made since epoch `since`. */
  ghost predicate Fresh(b: Bloom, sel: Selector, id: Id, since: nat) {
    exists n :: 0 <= n < NUM_FILTERS && since + n <= b.epoch && InFilter(b.rings[sel][n], id)
  }

  datatype Op = AddOp(sel: Selector, id: Id) | LookupOp(sel: Selector, id: Id) | AdvanceOp

  function Apply(b: Bloom, op: Op): (b': Bloom) {
    match op
    case AddOp(sel, id) => Add(b, sel, id)
    case LookupOp(sel, id) => AfterLookup(b, sel, id)
    case AdvanceOp => Advance(b)
  }

  function Run(b: Bloom, ops: seq<Op>): (b': Bloom)
    decreases |ops|
  {
    if ops == [] then b else Run(Apply(b, ops[0]), ops[1..])
  }

  lemma {:induction false} InsertIsIn(f: Filter, id: Id)
    ensures InFilter(Insert(f, id), id)
    ensures forall x: Id :: InFilter(f, x) ==> InFilter(Insert(f, id), x)
  {
  }

  lemma {:induction false} AdvanceShifts(b: Bloom)
    ensures forall s: Selector, n | 0 <= n < NUM_FILTERS ::
              Advance(b).rings[s][n] == if n == 0 then EMPTY_FILTER else b.rings[s][n - 1]
  {
    forall s: Selector, n | 0 <= n < NUM_FILTERS
      ensures Advance(b).rings[s][n] == if n == 0 then EMPTY_FILTER else b.rings[s][n - 1]
    {
      assert Advance(b).rings[s] == AdvanceRing(b.rings[s]);
    }
  }

  lemma {:induction false} PutKeeps(b: Bloom, s: Selector, x: Id, sel: Selector, id: Id, n: nat)
    requires n < NUM_FILTERS && InFilter(b.rings[sel][n], id)
    ensures InFilter(Put(b, s, Insert(b.rings[s][0], x)).rings[sel][n], id)
  {
    InsertIsIn(b.rings[s][0], x);
  }

  /** An add leaves the ring in place or advances it, after inserting the ID. */
  lemma {:induction false} AddCases(b: Bloom, sel: Selector, id: Id)
    ensures var b1 := Put(b, sel, Insert(b.rings[sel][0], id));
            var b' := Add(b, sel, id);
            || (b'.epoch == b.epoch && b'.rings == b1.rings)
            || (b'.epoch == b.epoch + 1 && b'.rings == Advance(b1).rings)
  {
  }

  /** An operation moves what filter `n` holds to filter `n` + (advances it made). */
  lemma {:induction false} AddKeeps(b: Bloom, s: Selector, x: Id, sel: Selector, id: Id, n: nat)
    requires n < NUM_FILTERS && InFilter(b.rings[sel][n], id)
    ensures var b' := Add(b, s, x);
            && b.epoch <= b'.epoch <= b.epoch + 1
            && (n + b'.epoch - b.epoch < NUM_FILTERS ==> InFilter(b'.rings[sel][n + b'.epoch - b.epoch], id))
  {
    PutKeeps(b, s, x, sel, id, n);
    AddCases(b, s, x);
    AdvanceShifts(Put(b, s, Insert(b.rings[s][0], x)));
  }

  lemma {:induction false} ApplyKeeps(b: Bloom, op: Op, sel: Selector, id: Id, n: nat)
    requires n < NUM_FILTERS && InFilter(b.rings[sel][n], id)
    ensures var b' := Apply(b, op);
            && b.epoch <= b'.epoch <= b.epoch + 1
            && (n + b'.epoch - b.epoch < NUM_FILTERS ==> InFilter(b'.rings[sel][n + b'.epoch - b.epoch], id))
  {
    hide Add, InFilter, FirstIn;
    match op
    case AddOp(s, x) => AddKeeps(b, s, x, sel, id, n);
    case LookupOp(s, x) => AddKeeps(b, s, x, sel, id, n);
    case AdvanceOp => AdvanceShifts(b);
  }

  /** After an add the ID is in the newest filter, or in the next one if the add advanced the ring. */
  lemma {:induction false} AddIsFresh(b: Bloom, sel: Selector, id: Id)
    ensures Fresh(Add(b, sel, id), sel, id, b.epoch)
  {
    InsertIsIn(b.rings[sel][0], id);
    var b' := Add(b, sel, id);
    assert InFilter(b'.rings[sel][b'.epoch - b.epoch], id);
  }

  /** A lookup answers exactly the membership question. */
  lemma {:induction false} LookupAnswers(b: Bloom, sel: Selector, id: Id)
    ensures FirstIn(b.rings[sel], id, 0) < NUM_FILTERS <==> Contains(b, sel, id)
  {
    var n := FirstIn(b.rings[sel], id, 0);
    if n < NUM_FILTERS {
      assert InFilter(b.rings[sel][n], id);
    }
  }

  /** A successful lookup restarts the ID's age. */
  lemma {:induction false} LookupRestarts(b: Bloom, sel: Selector, id: Id)
    requires Contains(b, sel, id)
    ensures Fresh(AfterLookup(b, sel, id), sel, id, b.epoch)
  {
    LookupAnswers(b, sel, id);
    if FirstIn(b.rings[sel], id, 0) == 0 {
      assert InFilter(b.rings[sel][0], id);
    } else {
      AddIsFresh(b, sel, id);
    }
  }

  lemma {:induction false} NoteSteps(b: Bloom, sel: Selector, id: Id)
    ensures Contains(b, sel, id) ==> Note(b, sel, id) == AfterLookup(b, sel, id)
    ensures !Contains(b, sel, id) ==> AfterLookup(b, sel, id) == b && Note(b, sel, id) == Add(b, sel, id)
  {
    LookupAnswers(b, sel, id);
  }

  lemma {:induction false} NoteIsFresh(b: Bloom, sel: Selector, id: Id)
    ensures Fresh(Note(b, sel, id), sel, id, b.epoch)
  {
    LookupAnswers(b, sel, id);
    if Contains(b, sel, id) {
      LookupRestarts(b, sel, id);
    } else {
      AddIsFresh(b, sel, id);
    }
  }

  lemma {:induction false} FreshPersists(b: Bloom, ops: seq<Op>, sel: Selector, id: Id, since: nat)
    requires Fresh(b, sel, id, since)
    ensures b.epoch <= Run(b, ops).epoch
    ensures Run(b, ops).epoch < since + NUM_FILTERS ==> Fresh(Run(b, ops), sel, id, since)
    decreases |ops|
  {
    if ops != [] {
      var b' := Apply(b, ops[0]);
      var n :| 0 <= n < NUM_FILTERS && since + n <= b.epoch && InFilter(b.rings[sel][n], id);
      ApplyKeeps(b, ops[0], sel, id, n);
      EpochGrows(b', ops[1..]);
      if n + b'.epoch - b.epoch < NUM_FILTERS {
        assert InFilter(b'.rings[sel][n + b'.epoch - b.epoch], id);
        FreshPersists(b', ops[1..], sel, id, since);
      }
    }
  }

  lemma {:induction false} EpochGrows(b: Bloom, ops: seq<Op>)
    ensures b.epoch <= Run(b, ops).epoch
    decreases |ops|
  {
    if ops != [] {
      EpochGrows(Apply(b, ops[0]), ops[1..]);
    }
  }

  /** An added ID is reported present through every run with at most fifteen advances since,
      whichever selector causes them and counting one that the add itself triggers. */
  lemma {:induction false} NoFalseNegatives(b: Bloom, ops: seq<Op>, sel: Selector, id: Id)
    requires Run(Add(b, sel, id), ops).epoch < b.epoch + NUM_FILTERS
    ensures Contains(Run(Add(b, sel, id), ops), sel, id)
  {
    AddIsFresh(b, sel, id);
    FreshPersists(Add(b, sel, id), ops, sel, id, b.epoch);
  }

  /** ... and a successful lookup grants another fifteen. */
  lemma {:induction false} LookupExtends(b: Bloom, ops: seq<Op>, sel: Selector, id: Id)
    requires Contains(b, sel, id)
    requires Run(AfterLookup(b, sel, id), ops).epoch < b.epoch + NUM_FILTERS
    ensures Contains(Run(AfterLookup(b, sel, id), ops), sel, id)
  {
    LookupRestarts(b, sel, id);
    FreshPersists(AfterLookup(b, sel, id), ops, sel, id, b.epoch);
  }
}
