/**
 Which messages a gc of one hash table entry keeps, as a function on the entry's records, and a
 characterisation of that choice that does not mention how it is computed.
 */
module MessageGc {
  import opened Base
  import opened Bloom
  import opened Packets
  import opened Records
  import opened TokenBits

  const HALF_STORAGE := STORAGE_SIZE / 2

  /** The free space a gc on behalf of a message of `msize` bytes aims for. */
  function Wanted(msize: nat): (n: nat) {
    HALF_STORAGE + msize + HEADER_SIZE
  }

  /** The guard of the shortcut that drops a whole entry. */
  predicate ClearsEntry(msize: nat) {
    Wanted(msize) >= STORAGE_SIZE
  }

  /** The bytes taken by the records kept among the first `n`. */
  function KeptSize(rs: seq<Rec>, keep: seq<bool>, n: nat): (size: nat)
    requires |keep| == |rs| && n <= |rs|
  {
    if n == 0 then 0 else KeptSize(rs, keep, n - 1) + if keep[n - 1] then rs[n - 1].Size() else 0
  }

  function KeptCount(keep: seq<bool>, n: nat): (count: nat)
    requires n <= |keep|
    ensures count <= n
  {
    if n == 0 then 0 else KeptCount(keep, n - 1) + if keep[n - 1] then 1 else 0
  }

  function Unexpired(rs: seq<Rec>, now: nat): (keep: seq<bool>)
    ensures |keep| == |rs|
  {
    seq(|rs|, i requires 0 <= i < |rs| => !Expired(rs[i].body, now))
  }

  /** The first record of lowest priority among those kept so far, within the first `n`. */
  function Lowest(rs: seq<Rec>, keep: seq<bool>, n: nat): (i: Option<nat>)
    requires |keep| == |rs| && n <= |rs|
    ensures i.Some? ==> i.value < n && keep[i.value]
  {
    if n == 0 then None
    else
      var best := Lowest(rs, keep, n - 1);
      if keep[n - 1] && (best.None? || rs[n - 1].priority < rs[best.value].priority) then Some(n - 1) else best
  }

  function Evict(rs: seq<Rec>, keep: seq<bool>, limit: nat): (keep': seq<bool>)
    requires |keep| == |rs|
    ensures |keep'| == |rs|
    decreases KeptCount(keep, |keep|)
  {
    var i := Lowest(rs, keep, |rs|);
    if KeptSize(rs, keep, |rs|) <= limit || i.None? then keep
    else
      KeptCountDrop(keep, i.value, |keep|);
      Evict(rs, keep[i.value := false], limit)
  }

  function Kept(rs: seq<Rec>, msize: nat, now: nat): (keep: seq<bool>)
    requires !ClearsEntry(msize)
    ensures |keep| == |rs|
  {
    Evict(rs, Unexpired(rs, now), STORAGE_SIZE - Wanted(msize))
  }

  function Shifted(order: ByteOrder, r: Rec, shift: nat): (r': Rec) {
    r.(sent := ShiftToken(order, r.sent, shift))
  }

  /** The records kept among the first `n`, in order, with their token bitmaps shifted. */
  function Survivors(order: ByteOrder, rs: seq<Rec>, keep: seq<bool>, shift: nat, n: nat): (s: seq<Rec>)
    requires |keep| == |rs| && n <= |rs|
  {
    if n == 0 then []
    else
      Survivors(order, rs, keep, shift, n - 1) + if keep[n - 1] then [Shifted(order, rs[n - 1], shift)] else []
  }

  lemma {:induction false} SurvivorsNext(order: ByteOrder, rs: seq<Rec>, keep: seq<bool>, shift: nat, n: nat)
    requires |keep| == |rs| && n < |rs|
    ensures Survivors(order, rs, keep, shift, n + 1) ==
            if keep[n] then Survivors(order, rs, keep, shift, n) + [Shifted(order, rs[n], shift)]
            else Survivors(order, rs, keep, shift, n)
  {
  }

  /** The Bloom filter once the records dropped among the first `n` are noted in it. */
  function NoteDropped(b: Bloom, rs: seq<Rec>, keep: seq<bool>, n: nat): (b': Bloom)
    requires |keep| == |rs| && n <= |rs|
  {
    if n == 0 then b
    else
      var b1 := NoteDropped(b, rs, keep, n - 1);
      if keep[n - 1] then b1 else Note(b1, MESSAGE_FILTER, rs[n - 1].id)
  }

  function GcRecords(order: ByteOrder, rs: seq<Rec>, msize: nat, shift: nat, now: nat): (rs': seq<Rec>) {
    if ClearsEntry(msize) then [] else Survivors(order, rs, Kept(rs, msize, now), shift, |rs|)
  }

  function GcBloom(b: Bloom, rs: seq<Rec>, msize: nat, now: nat): (b': Bloom) {
    if ClearsEntry(msize) then b else NoteDropped(b, rs, Kept(rs, msize, now), |rs|)
  }

  lemma {:induction false} GcOfEmpty(order: ByteOrder, b: Bloom, msize: nat, shift: nat, now: nat)
    ensures GcRecords(order, [], msize, shift, now) == [] && GcBloom(b, [], msize, now) == b
  {
  }

  // ---------------------------------------------------------------------------
  // Counting what is kept
  // ---------------------------------------------------------------------------

  lemma {:induction false} KeptCountDrop(keep: seq<bool>, i: nat, n: nat)
    requires i < |keep| && keep[i] && n <= |keep|
    ensures KeptCount(keep[i := false], n) == KeptCount(keep, n) - if i < n then 1 else 0
    decreases n
  {
    if n > 0 {
      KeptCountDrop(keep, i, n - 1);
    }
  }

  lemma {:induction false} KeptSizeDrop(rs: seq<Rec>, keep: seq<bool>, i: nat, n: nat)
    requires |keep| == |rs| && i < |keep| && keep[i] && n <= |rs|
    ensures KeptSize(rs, keep[i := false], n) == KeptSize(rs, keep, n) - if i < n then rs[i].Size() else 0
    decreases n
  {
    if n > 0 {
      KeptSizeDrop(rs, keep, i, n - 1);
    }
  }

  lemma {:induction false} KeptSizeNone(rs: seq<Rec>, keep: seq<bool>, n: nat)
    requires |keep| == |rs| && n <= |rs| && forall i | 0 <= i < n :: !keep[i]
    ensures KeptSize(rs, keep, n) == 0
    decreases n
  {
    if n > 0 {
      KeptSizeNone(rs, keep, n - 1);
    }
  }

  lemma {:induction false} KeptSizeAll(rs: seq<Rec>, keep: seq<bool>, n: nat)
    requires |keep| == |rs| && n <= |rs| && forall i | 0 <= i < n :: keep[i]
    ensures KeptSize(rs, keep, n) == Offset(rs, n) && KeptCount(keep, n) == n
    decreases n
  {
    if n > 0 {
      KeptSizeAll(rs, keep, n - 1);
      TotalSizeNext(rs, n - 1);
    }
  }

  lemma {:induction false} SurvivorsFit(order: ByteOrder, rs: seq<Rec>, keep: seq<bool>, shift: nat, n: nat)
    requires |keep| == |rs| && n <= |rs|
    ensures TotalSize(Survivors(order, rs, keep, shift, n)) == KeptSize(rs, keep, n) <= Offset(rs, n)
    ensures |Survivors(order, rs, keep, shift, n)| == KeptCount(keep, n)
    decreases n
  {
    hide ShiftToken;
    if n > 0 {
      SurvivorsFit(order, rs, keep, shift, n - 1);
      TotalSizeNext(rs, n - 1);
      var s := Survivors(order, rs, keep, shift, n - 1);
      if keep[n - 1] {
        TotalSizeConcat(s, [Shifted(order, rs[n - 1], shift)]);
        assert [Shifted(order, rs[n - 1], shift)][..0] == [];
      } else {
        assert s + [] == s;
      }
    }
  }

  lemma {:induction false} SurvivorsStorable(order: ByteOrder, rs: seq<Rec>, keep: seq<bool>, shift: nat, n: nat)
    requires |keep| == |rs| && n <= |rs| && AllStorable(rs)
    ensures AllStorable(Survivors(order, rs, keep, shift, n))
    decreases n
  {
    hide ShiftToken;
    if n > 0 {
      SurvivorsStorable(order, rs, keep, shift, n - 1);
    }
  }

  // ---------------------------------------------------------------------------
  // The order of eviction
  // ---------------------------------------------------------------------------

  /** Lower priority goes first, and among equal priorities the older (earlier) record. */
  predicate Before(rs: seq<Rec>, i: nat, j: nat)
    requires i < |rs| && j < |rs|
  {
    rs[i].priority < rs[j].priority || (rs[i].priority == rs[j].priority && i < j)
  }

  lemma {:induction false} LowestIsFirst(rs: seq<Rec>, keep: seq<bool>, n: nat)
    requires |keep| == |rs| && n <= |rs|
    ensures Lowest(rs, keep, n).None? ==> forall j | 0 <= j < n :: !keep[j]
    ensures Lowest(rs, keep, n).Some? ==>
              forall j | 0 <= j < n && keep[j] && j != Lowest(rs, keep, n).value ::
                Before(rs, Lowest(rs, keep, n).value, j)
  {
    if n > 0 {
      LowestIsFirst(rs, keep, n - 1);
    }
  }

  ghost predicate Subset(k: seq<bool>, k0: seq<bool>)
    requires |k| == |k0|
  {
    forall i | 0 <= i < |k| :: k[i] ==> k0[i]
  }

  ghost predicate Dropped(k: seq<bool>, k0: seq<bool>, i: int)
    requires |k| == |k0|
  {
    0 <= i < |k| && k0[i] && !k[i]
  }

  /** Every record dropped from `k0` precedes, in eviction order, every record kept. */
  ghost predicate InEvictionOrder(rs: seq<Rec>, k0: seq<bool>, k: seq<bool>)
    requires |k| == |k0| == |rs|
  {
    forall i, j | Dropped(k, k0, i) && 0 <= j < |k| && k[j] :: Before(rs, i, j)
  }

  /** Dropping any fewer, in that order, would not have made the space. */
  ghost predicate NoMoreThanNeeded(rs: seq<Rec>, k0: seq<bool>, k: seq<bool>, limit: nat)
    requires |k| == |k0| == |rs|
  {
    forall k1: seq<bool> | |k1| == |rs| && Subset(k, k1) && Subset(k1, k0) && InEvictionOrder(rs, k0, k1) && k1 != k ::
      KeptSize(rs, k1, |rs|) > limit
  }

  ghost predicate EvictsExactly(rs: seq<Rec>, k0: seq<bool>, k: seq<bool>, limit: nat)
    requires |k| == |k0| == |rs|
  {
    Subset(k, k0) && KeptSize(rs, k, |rs|) <= limit && InEvictionOrder(rs, k0, k) && NoMoreThanNeeded(rs, k0, k, limit)
  }

  /** Nested or not, two selections that respect the order are comparable. */
  lemma {:induction false} OrderedSelectionsAreNested(rs: seq<Rec>, k0: seq<bool>, a: seq<bool>, b: seq<bool>)
    requires |a| == |b| == |k0| == |rs|
    requires Subset(a, k0) && Subset(b, k0) && InEvictionOrder(rs, k0, a) && InEvictionOrder(rs, k0, b)
    ensures Subset(a, b) || Subset(b, a)
  {
    if i :| 0 <= i < |a| && a[i] && !b[i] {
      forall j | 0 <= j < |a| && b[j] ensures a[j] {
        assert Dropped(b, k0, i) && Before(rs, i, j);
        assert Dropped(a, k0, j) ==> Before(rs, j, i);
      }
    }
  }

  /** The loop of gc_messages_entry drops exactly the records that must go. */
  lemma {:induction false} EvictIsExact(rs: seq<Rec>, k0: seq<bool>, k: seq<bool>, limit: nat)
    requires |k| == |k0| == |rs|
    requires Subset(k, k0) && InEvictionOrder(rs, k0, k)
    requires forall k1: seq<bool> | |k1| == |rs| && Subset(k, k1) && Subset(k1, k0) && InEvictionOrder(rs, k0, k1) && k1 != k ::
               KeptSize(rs, k1, |rs|) > limit
    ensures EvictsExactly(rs, k0, Evict(rs, k, limit), limit)
    decreases KeptCount(k, |k|)
  {
    LowestIsFirst(rs, k, |rs|);
    var low := Lowest(rs, k, |rs|);
    if KeptSize(rs, k, |rs|) <= limit {
    } else if low.None? {
      KeptSizeNone(rs, k, |rs|);
    } else {
      var i := low.value;
      var k' := k[i := false];
      KeptCountDrop(k, i, |k|);
      assert InEvictionOrder(rs, k0, k') by {
        forall d, j | Dropped(k', k0, d) && 0 <= j < |k'| && k'[j] ensures Before(rs, d, j) {
          if d != i {
            assert Dropped(k, k0, d);
          }
        }
      }
      forall k1: seq<bool> | |k1| == |rs| && Subset(k', k1) && Subset(k1, k0) && InEvictionOrder(rs, k0, k1) && k1 != k'
        ensures KeptSize(rs, k1, |rs|) > limit
      {
        OrderedSelectionsAreNested(rs, k0, k, k1);
        LargerSelectionContains(k, k', k1, i);
        if k1 != k {
          assert Subset(k, k1);
        }
      }
      EvictIsExact(rs, k0, k', limit);
    }
  }

  /** A selection that extends `k` without `i` and is nested with `k` contains `k`, or adds nothing. */
  lemma {:induction false} LargerSelectionContains(k: seq<bool>, k': seq<bool>, k1: seq<bool>, i: nat)
    requires i < |k| == |k1| && k[i] && k' == k[i := false]
    requires Subset(k', k1) && (Subset(k, k1) || Subset(k1, k))
    ensures k1 == k' || Subset(k, k1)
  {
    if !k1[i] {
      assert forall j | 0 <= j < |k| :: k1[j] == k'[j];
    }
  }

  /** What a gc keeps of an entry: the unexpired records, less those that leave in (priority, then
      age) order, and only as many of those as the space requires. */
  lemma {:induction false} KeptIsExact(rs: seq<Rec>, msize: nat, now: nat)
    requires !ClearsEntry(msize)
    ensures EvictsExactly(rs, Unexpired(rs, now), Kept(rs, msize, now), STORAGE_SIZE - Wanted(msize))
  {
    EvictIsExact(rs, Unexpired(rs, now), Unexpired(rs, now), STORAGE_SIZE - Wanted(msize));
  }

  /** ... and no other selection fits that description. */
  lemma {:induction false} ExactSelectionIsUnique(rs: seq<Rec>, k0: seq<bool>, a: seq<bool>, b: seq<bool>, limit: nat)
    requires |a| == |b| == |k0| == |rs|
    requires EvictsExactly(rs, k0, a, limit) && EvictsExactly(rs, k0, b, limit)
    ensures a == b
  {
    OrderedSelectionsAreNested(rs, k0, a, b);
  }
}
