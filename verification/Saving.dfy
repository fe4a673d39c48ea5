/** What saving a packet does to every entry of the message table, and what a collection leaves there. */
module Saving {
  import opened Base
  import opened Bloom
  import opened MessageGc
  import opened Packets
  import opened PcacheInvariants
  import opened PcacheModel
  import opened Records
  import opened TokenBits

  // ---------------------------------------------------------------------------
  // One entry
  // ---------------------------------------------------------------------------

  /** The record as it is kept. */
  ghost predicate KeptFrom(order: ByteOrder, r: Rec, rs: seq<Rec>, shift: nat, now: nat) {
    exists i :: 0 <= i < |rs| && !Expired(rs[i].body, now) && r == Shifted(order, rs[i], shift)
  }

  lemma {:induction false} EvictKeepsLess(rs: seq<Rec>, keep: seq<bool>, limit: nat)
    requires |keep| == |rs|
    ensures Subset(Evict(rs, keep, limit), keep)
    decreases KeptCount(keep, |keep|)
  {
    var i := Lowest(rs, keep, |rs|);
    if KeptSize(rs, keep, |rs|) > limit && i.Some? {
      KeptCountDrop(keep, i.value, |keep|);
      EvictKeepsLess(rs, keep[i.value := false], limit);
    }
  }

  lemma {:induction false} SurvivorsKept(order: ByteOrder, rs: seq<Rec>, keep: seq<bool>, shift: nat, now: nat, n: nat)
    requires |keep| == |rs| && n <= |rs| && forall i | 0 <= i < |rs| && keep[i] :: !Expired(rs[i].body, now)
    ensures forall j | 0 <= j < |Survivors(order, rs, keep, shift, n)| ::
              KeptFrom(order, Survivors(order, rs, keep, shift, n)[j], rs, shift, now)
    decreases n
  {
    hide ShiftToken, Expired;
    if n > 0 {
      SurvivorsKept(order, rs, keep, shift, now, n - 1);
      SurvivorsNext(order, rs, keep, shift, n - 1);
    }
  }

  /** A collection leaves no record that has expired, whatever it was run for, and changes the bitmaps only. */
  lemma {:induction false} NoneExpired(order: ByteOrder, rs: seq<Rec>, msize: nat, shift: nat, now: nat, k: nat)
    requires k < |GcRecords(order, rs, msize, shift, now)|
    ensures KeptFrom(order, GcRecords(order, rs, msize, shift, now)[k], rs, shift, now)
    ensures !Expired(GcRecords(order, rs, msize, shift, now)[k].body, now)
  {
    hide ShiftToken, Expired, Evict;
    var keep := Kept(rs, msize, now);
    EvictKeepsLess(rs, Unexpired(rs, now), STORAGE_SIZE - Wanted(msize));
    SurvivorsKept(order, rs, keep, shift, now, |rs|);
  }

  /** The records that have not expired, in order, with their bitmaps shifted. */
  function Current(order: ByteOrder, rs: seq<Rec>, shift: nat, now: nat): (current: seq<Rec>) {
    if rs == [] then []
    else
      var last := rs[|rs| - 1];
      Current(order, rs[..|rs| - 1], shift, now) + if Expired(last.body, now) then [] else [Shifted(order, last, shift)]
  }

  lemma {:induction false} SurvivorsCurrent(order: ByteOrder, rs: seq<Rec>, shift: nat, now: nat, n: nat)
    requires n <= |rs|
    ensures Survivors(order, rs, Unexpired(rs, now), shift, n) == Current(order, rs[..n], shift, now)
    ensures KeptSize(rs, Unexpired(rs, now), n) == TotalSize(Current(order, rs[..n], shift, now))
    decreases n
  {
    hide ShiftToken, Expired, TotalSize;
    if n == 0 {
      TotalSizeEmpty();
    } else {
      SurvivorsCurrent(order, rs, shift, now, n - 1);
      assert rs[..n][..n - 1] == rs[..n - 1];
      var before := Current(order, rs[..n - 1], shift, now);
      LayoutSnocSize(before, Shifted(order, rs[n - 1], shift));
      assert before + [] == before;
    }
  }

  /** Nothing else leaves if half of the storage is then free, besides room for the message that is waiting. */
  lemma {:induction false} OnlyExpiredLeave(order: ByteOrder, rs: seq<Rec>, msize: nat, shift: nat, now: nat)
    requires var current := Current(order, rs, shift, now);
             TotalSize(current) + STORAGE_SIZE / 2 + HEADER_SIZE + msize <= STORAGE_SIZE
    requires HEADER_SIZE + msize < STORAGE_SIZE / 2
    ensures GcRecords(order, rs, msize, shift, now) == Current(order, rs, shift, now)
  {
    hide ShiftToken, Expired, TotalSize, Current, Survivors, Lowest;
    SurvivorsCurrent(order, rs, shift, now, |rs|);
    assert rs[..|rs|] == rs;
  }

  /** Of two records that have not expired and of which one leaves, it is the one of lower priority, or the earlier one of
      equal priority. */
  lemma {:induction false} LowestLeaveFirst(rs: seq<Rec>, msize: nat, now: nat, i: nat, j: nat)
    requires !ClearsEntry(msize) && i < |rs| && j < |rs| && !Expired(rs[i].body, now) && !Expired(rs[j].body, now)
    requires !Kept(rs, msize, now)[i] && Kept(rs, msize, now)[j]
    ensures rs[i].priority < rs[j].priority || (rs[i].priority == rs[j].priority && i < j)
  {
    hide Expired, Evict, NoMoreThanNeeded;
    KeptIsExact(rs, msize, now);
    assert Dropped(Kept(rs, msize, now), Unexpired(rs, now), i);
  }

  /** The record leaves last of those that leave before they have expired. */
  ghost predicate LeavesLast(rs: seq<Rec>, msize: nat, now: nat, i: nat)
    requires !ClearsEntry(msize)
  {
    && i < |rs| && !Expired(rs[i].body, now) && !Kept(rs, msize, now)[i]
    && forall d | 0 <= d < |rs| && d != i && !Expired(rs[d].body, now) && !Kept(rs, msize, now)[d] ::
         rs[d].priority < rs[i].priority || (rs[d].priority == rs[i].priority && d < i)
  }

  /** None leaves that could have stayed: with it the records kept would take more than half of the storage leaves, less the
      message that waits. */
  lemma {:induction false} LeavesForSpace(rs: seq<Rec>, msize: nat, now: nat, i: nat)
    requires HEADER_SIZE + msize < STORAGE_SIZE / 2 && LeavesLast(rs, msize, now, i)
    ensures KeptSize(rs, Kept(rs, msize, now), |rs|) + HEADER_SIZE + msize <= STORAGE_SIZE - STORAGE_SIZE / 2
    ensures KeptSize(rs, Kept(rs, msize, now), |rs|) + rs[i].Size() + HEADER_SIZE + msize > STORAGE_SIZE - STORAGE_SIZE / 2
  {
    hide Expired, Evict, KeptSize;
    KeptIsExact(rs, msize, now);
    var k0, k := Unexpired(rs, now), Kept(rs, msize, now);
    var k1 := k[i := true];
    KeptSizeDrop(rs, k1, i, |rs|);
    assert k1[i := false] == k;
    assert InEvictionOrder(rs, k0, k1) by {
      forall d, j | Dropped(k1, k0, d) && 0 <= j < |k1| && k1[j] ensures Before(rs, d, j) {
        assert Dropped(k, k0, d);
      }
    }
    assert k1 != k by {
      assert k1[i] != k[i];
    }
  }

  // ---------------------------------------------------------------------------
  // The whole table
  // ---------------------------------------------------------------------------

  /** The message is new to the cache, and this is its bucket. */
  ghost predicate NewMessage(cfg: Config, s: Cache, m: seq<Byte>, id: Id, b: nat)
    requires Sized(s)
  {
    MessageId(cfg.sha, m) == Some(id) && !FoundMessage(s, id) && b == ReadB64(id) % |s.entries|
  }

  lemma {:induction false} StepIsSave(cfg: Config, s: Cache, m: seq<Byte>, priority: U32, picks: seq<seq<nat>>, s': Cache)
    requires IsStep(cfg, s, SaveEvent(m, priority, picks), s')
    ensures Sized(s) && |picks| == |s.acks| / ACKS_PER_SLOT && Save(cfg, s, m, priority, picks) == Some(s')
  {
    hide Save, GcChoices;
  }

  /** A new message that fits is put behind the others of its entry, sent to nobody; nothing else changes, but for the
      memo of fruitless requests. */
  lemma {:induction false} FittingIsAppended(cfg: Config, s: Cache, m: seq<Byte>, priority: U32, picks: seq<seq<nat>>, s': Cache, id: Id, b: nat)
    requires IsStep(cfg, s, SaveEvent(m, priority, picks), s') && NewMessage(cfg, s, m, id, b)
    requires TotalSize(s.entries[b]) + HEADER_SIZE + |m| <= STORAGE_SIZE
    ensures s' == s.(entries := s.entries[b := s.entries[b] + [Rec(id, priority, {}, m)]], zero := {}, asked := map[])
  {
    hide IsStep, MessageId, Gc, TotalSize, ReadB64, FindRec, Contains, AfterLookup;
    StepIsSave(cfg, s, m, priority, picks, s');
    NotLooked(s, id);
  }

  lemma {:induction false} NotLooked(s: Cache, id: Id)
    requires Sized(s) && !FoundMessage(s, id)
    ensures Looked(s, MESSAGE_FILTER, id) == s
  {
    LookupAnswers(s.bloom, MESSAGE_FILTER, id);
  }

  /** A new message that does not fit is put behind what a collection leaves of its entry, which makes room for it alone;
      all other entries are collected for no message. */
  lemma {:induction false} OthersAreCollected(cfg: Config, s: Cache, m: seq<Byte>, priority: U32, picks: seq<seq<nat>>, s': Cache, id: Id, b: nat)
    requires IsStep(cfg, s, SaveEvent(m, priority, picks), s') && NewMessage(cfg, s, m, id, b)
    requires TotalSize(s.entries[b]) + HEADER_SIZE + |m| > STORAGE_SIZE
    ensures |s'.entries| == |s.entries|
    ensures s'.entries[b] == GcRecords(cfg.order, s.entries[b], |m|, TokenShift(|s.tokens|), s.now) + [Rec(id, priority, {}, m)]
    ensures forall e | 0 <= e < |s.entries| && e != b ::
              s'.entries[e] == GcRecords(cfg.order, s.entries[e], 0, TokenShift(|s.tokens|), s.now)
  {
    hide IsStep, MessageId, TotalSize, ReadB64, FindRec, Contains, AfterLookup, GcRecords, GcSlots, GcEntriesBloom;
    StepIsSave(cfg, s, m, priority, picks, s');
    NotLooked(s, id);
  }

  /** Packets that are known already, or have no ID, change none of the tables. */
  lemma {:induction false} KnownIsNotSaved(cfg: Config, s: Cache, m: seq<Byte>, priority: U32, picks: seq<seq<nat>>, s': Cache)
    requires IsStep(cfg, s, SaveEvent(m, priority, picks), s')
    requires MessageId(cfg.sha, m).None? || FoundMessage(s, MessageId(cfg.sha, m).value)
    ensures s' == s.(bloom := s'.bloom)
  {
    hide IsStep, MessageId, TotalSize, ReadB64, FindRec, Contains, AfterLookup, Gc;
    StepIsSave(cfg, s, m, priority, picks, s');
  }
}
