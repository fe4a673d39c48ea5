/**
 The shortcut of the gc: when a message of at least 6128 bytes is waiting for space, the whole entry is
 dropped and none of its IDs is noted.  What exactly it forgets, and which saves are safe from it.
 */
module Forgetting {
  import opened Base
  import opened Bloom
  import opened MessageGc
  import opened Packets
  import opened PcacheInvariants
  import opened PcacheModel
  import opened Records
  import opened Remembering
  import opened Samples
  import opened TokenBits

  /** Sixteen filter advances lie between the two. */
  predicate Outlasts(b: Bloom, b': Bloom) {
    b.epoch + NUM_FILTERS <= b'.epoch
  }

  ghost predicate KeepsId(order: ByteOrder, b: Bloom, rs: seq<Rec>, msize: nat, shift: nat, now: nat, id: Id) {
    var b' := GcBloom(b, rs, msize, now);
    HasRecord(GcRecords(order, rs, msize, shift, now), id) || Contains(b', MESSAGE_FILTER, id) || Outlasts(b, b')
  }

  /** The gc of one entry keeps each of its IDs, in the entry or in the filter, if and only if the shortcut
      is not taken or the filter had them all before. */
  lemma {:induction false} EntryGcForgets(order: ByteOrder, b: Bloom, rs: seq<Rec>, msize: nat, shift: nat, now: nat)
    ensures (forall id | HasRecord(rs, id) :: KeepsId(order, b, rs, msize, shift, now, id)) <==>
            !ClearsEntry(msize) || forall id | HasRecord(rs, id) :: Contains(b, MESSAGE_FILTER, id)
  {
    hide Held, Contains, NoteDropped, Survivors, Kept, ClearsEntry, Ages;
    EntryGcKeeps(order, b, rs, msize, shift, now);
    forall id | HasRecord(rs, id)
      ensures !ClearsEntry(msize) ==> KeepsId(order, b, rs, msize, shift, now, id)
      ensures ClearsEntry(msize) ==> (KeepsId(order, b, rs, msize, shift, now, id) <==> Contains(b, MESSAGE_FILTER, id))
    {
      var b' := GcBloom(b, rs, msize, now);
      if ClearsEntry(msize) {
        ClearedHasNone(order, rs, msize, shift, now, id);
      } else if !HasRecord(GcRecords(order, rs, msize, shift, now), id) && !Outlasts(b, b') {
        HeldIsFound(b', MESSAGE_FILTER, id, b.epoch);
      }
    }
  }

  lemma {:induction false} ClearedHasNone(order: ByteOrder, rs: seq<Rec>, msize: nat, shift: nat, now: nat, id: Id)
    requires ClearsEntry(msize)
    ensures !HasRecord(GcRecords(order, rs, msize, shift, now), id)
  {
  }

  // ---------------------------------------------------------------------------
  // What a filter holds for an ID when other IDs are added
  // ---------------------------------------------------------------------------

  /** The two IDs select the same bit at some depth. */
  ghost predicate Shares(x: Id, id: Id) {
    exists d | 0 <= d < FILTER_DEPTH :: Pos(x, d) == Pos(id, d)
  }

  /** The message filter that was the newest in epoch `k` is still there, and holds the ID. */
  predicate FromEpoch(b: Bloom, id: Id, k: int) {
    0 <= b.epoch - k < NUM_FILTERS && InFilter(b.rings[MESSAGE_FILTER][b.epoch - k], id)
  }

  /** For this ID nothing has happened to the message filter but advances. */
  ghost predicate OnlyAdvanced(b: Bloom, b': Bloom, id: Id) {
    && b.epoch <= b'.epoch
    && forall k: int :: FromEpoch(b', id, k) <==> FromEpoch(b, id, k) && b'.epoch < k + NUM_FILTERS
  }

  lemma {:induction false} ContainsFromEpoch(b: Bloom, id: Id)
    ensures Contains(b, MESSAGE_FILTER, id) <==> exists k: int :: FromEpoch(b, id, k)
  {
    hide InFilter;
    if Contains(b, MESSAGE_FILTER, id) {
      var n :| 0 <= n < NUM_FILTERS && InFilter(b.rings[MESSAGE_FILTER][n], id);
      assert FromEpoch(b, id, b.epoch - n);
    }
  }

  lemma {:induction false} AdvanceOnly(b: Bloom, id: Id)
    ensures OnlyAdvanced(b, Advance(b), id)
  {
    AdvanceShifts(b);
    assert Pos(id, 0) !in EMPTY_FILTER[0] && !InFilter(EMPTY_FILTER, id);
    hide InFilter;
    forall k: int
      ensures FromEpoch(Advance(b), id, k) <==> FromEpoch(b, id, k) && b.epoch + 1 < k + NUM_FILTERS
    {
    }
  }

  lemma {:induction false} PutOnly(b: Bloom, sel: Selector, x: Id, id: Id, n: nat)
    requires n < NUM_FILTERS && (sel == MESSAGE_FILTER ==> !Shares(x, id))
    ensures InFilter(Put(b, sel, Insert(b.rings[sel][0], x)).rings[MESSAGE_FILTER][n], id) <==>
            InFilter(b.rings[MESSAGE_FILTER][n], id)
  {
  }

  lemma {:induction false} AddOnly(b: Bloom, sel: Selector, x: Id, id: Id)
    requires sel == MESSAGE_FILTER ==> !Shares(x, id)
    ensures OnlyAdvanced(b, Add(b, sel, x), id)
  {
    var b1 := Put(b, sel, Insert(b.rings[sel][0], x));
    AddCases(b, sel, x);
    hide InFilter, Add, Put, Insert, Advance, Shares;
    forall n | 0 <= n < NUM_FILTERS
      ensures InFilter(b1.rings[MESSAGE_FILTER][n], id) <==> InFilter(b.rings[MESSAGE_FILTER][n], id)
    {
      PutOnly(b, sel, x, id, n);
    }
    PutKeepsEpoch(b, sel, Insert(b.rings[sel][0], x));
    AdvanceOnly(b1, id);
    AdvanceEpoch(b1);
    SameRings(Add(b, sel, x), if Add(b, sel, x).epoch == b.epoch then b1 else Advance(b1), id);
  }

  lemma {:induction false} PutKeepsEpoch(b: Bloom, sel: Selector, f: Filter)
    ensures Put(b, sel, f).epoch == b.epoch
  {
  }

  lemma {:induction false} AdvanceEpoch(b: Bloom)
    ensures Advance(b).epoch == b.epoch + 1
  {
  }

  lemma {:induction false} SameRings(b: Bloom, b': Bloom, id: Id)
    requires b.epoch == b'.epoch && b.rings == b'.rings
    ensures forall k: int :: FromEpoch(b, id, k) <==> FromEpoch(b', id, k)
  {
  }

  lemma {:induction false} NoteOnly(b: Bloom, sel: Selector, x: Id, id: Id)
    requires sel == MESSAGE_FILTER ==> !Shares(x, id)
    ensures OnlyAdvanced(b, Note(b, sel, x), id)
  {
    hide Add, Shares, InFilter;
    AddOnly(b, sel, x, id);
    NothingOnly(b, id);
  }

  lemma {:induction false} NothingOnly(b: Bloom, id: Id)
    ensures OnlyAdvanced(b, b, id)
  {
    hide InFilter;
  }

  lemma {:induction false} OnlyTrans(b: Bloom, b': Bloom, b'': Bloom, id: Id)
    requires OnlyAdvanced(b, b', id) && OnlyAdvanced(b', b'', id)
    ensures OnlyAdvanced(b, b'', id)
  {
    hide FromEpoch;
  }

  /** No other ID of the tables selects a bit of this one. */
  ghost predicate NoneShares(s: Cache, id: Id) {
    AcksShareNot(s.acks, id) && forall e | 0 <= e < |s.entries| :: RecsShareNot(s.entries[e], id)
  }

  ghost predicate AcksShareNot(acks: seq<Ack>, id: Id) {
    forall i | 0 <= i < |acks| && acks[i].used && acks[i].id != id :: !Shares(acks[i].id, id)
  }

  ghost predicate RecsShareNot(rs: seq<Rec>, id: Id) {
    forall i | 0 <= i < |rs| && rs[i].id != id :: !Shares(rs[i].id, id)
  }

  lemma {:induction false} DropAcksOnly(acks: seq<Ack>, b: Bloom, base: nat, picks: seq<nat>, id: Id)
    requires base + ACKS_PER_SLOT <= |acks| && ValidPicks(acks, base, picks)
    requires AcksShareNot(acks, id) && !HasEntry(acks, id)
    ensures OnlyAdvanced(b, DropAcks(acks, b, picks).1, id)
    decreases |picks|
  {
    hide Shares, Note, OnlyAdvanced, UsedCount;
    if picks == [] {
      NothingOnly(b, id);
    } else {
      var a := acks[picks[0]];
      assert a.used && !UsedFor(acks, picks[0], id);
      var acks1, b1 := DropAck(acks, picks[0]), NoteAck(b, a);
      NoteOnly(b, ACK_FILTER, a.ack, id);
      NoteOnly(Note(b, ACK_FILTER, a.ack), MESSAGE_FILTER, a.id, id);
      OnlyTrans(b, Note(b, ACK_FILTER, a.ack), b1, id);
      FewerEntries(acks, acks1, id);
      DropAcksOnly(acks1, b1, base, picks[1..], id);
      OnlyTrans(b, b1, DropAcks(acks, b, picks).1, id);
    }
  }

  lemma {:induction false} GcSlotsOnly(order: ByteOrder, acks: seq<Ack>, b: Bloom, picks: seq<seq<nat>>, shift: nat, n: nat, id: Id)
    requires n <= |picks| && ACKS_PER_SLOT * n <= |acks| && ValidChoices(order, acks, b, picks, shift, n)
    requires AcksShareNot(acks, id) && !HasEntry(acks, id)
    ensures OnlyAdvanced(b, GcSlots(order, acks, b, picks, shift, n).1, id)
    decreases n
  {
    hide Shares, OnlyAdvanced, ShiftToken, DropAcks, ValidPicks;
    if n == 0 {
      NothingOnly(b, id);
    } else {
      GcSlotsOnly(order, acks, b, picks, shift, n - 1, id);
      GcSlotsFewer(order, acks, b, picks, shift, n - 1);
      var r := GcSlots(order, acks, b, picks, shift, n - 1);
      FewerEntries(acks, r.0, id);
      DropAcksOnly(r.0, r.1, ACKS_PER_SLOT * (n - 1), picks[n - 1], id);
      OnlyTrans(b, r.1, GcSlots(order, acks, b, picks, shift, n).1, id);
    }
  }

  lemma {:induction false} NoteDroppedOnly(b: Bloom, rs: seq<Rec>, keep: seq<bool>, n: nat, id: Id)
    requires |keep| == |rs| && n <= |rs| && RecsShareNot(rs, id) && !HasRecord(rs, id)
    ensures OnlyAdvanced(b, NoteDropped(b, rs, keep, n), id)
    decreases n
  {
    hide Shares, Note, OnlyAdvanced;
    if n == 0 {
      NothingOnly(b, id);
    } else {
      NoteDroppedOnly(b, rs, keep, n - 1, id);
      var b1 := NoteDropped(b, rs, keep, n - 1);
      if !keep[n - 1] {
        assert rs[n - 1].id != id;
        NoteOnly(b1, MESSAGE_FILTER, rs[n - 1].id, id);
        OnlyTrans(b, b1, NoteDropped(b, rs, keep, n), id);
      }
    }
  }

  lemma {:induction false} GcEntriesOnly(b: Bloom, entries: seq<seq<Rec>>, eindex: int, msize: nat, now: nat, n: nat, id: Id)
    requires n <= |entries|
    requires forall e | 0 <= e < n :: RecsShareNot(entries[e], id)
    requires forall e | 0 <= e < n && HasRecord(entries[e], id) :: ClearsEntry(RoomFor(eindex, msize, e))
    ensures OnlyAdvanced(b, GcEntriesBloom(b, entries, eindex, msize, now, n), id)
    decreases n
  {
    hide RecsShareNot, HasRecord, NoteDropped, OnlyAdvanced, Kept, ClearsEntry;
    if n == 0 {
      NothingOnly(b, id);
    } else {
      GcEntriesOnly(b, entries, eindex, msize, now, n - 1, id);
      var b1 := GcEntriesBloom(b, entries, eindex, msize, now, n - 1);
      var rs, room := entries[n - 1], RoomFor(eindex, msize, n - 1);
      if !ClearsEntry(room) {
        NoteDroppedOnly(b1, rs, Kept(rs, room, now), |rs|, id);
        OnlyTrans(b, b1, GcEntriesBloom(b, entries, eindex, msize, now, n), id);
      }
    }
  }

  // ---------------------------------------------------------------------------
  // A whole gc
  // ---------------------------------------------------------------------------

  /** The ID was added to a message filter that is still there after the gc. */
  ghost predicate Survives(b: Bloom, b': Bloom, id: Id) {
    exists k: int :: FromEpoch(b, id, k) && b'.epoch < k + NUM_FILTERS
  }

  /** An ID that was in a table is found after a gc if and only if its entry is not dropped whole, or it is
      acked, or the message filter already had it in a filter young enough to be there still.  (Time is
      bounded by sixteen advances, and the filter gives no false answer for the ID.) */
  lemma {:induction false} GcForgetsExactly(cfg: Config, s: Cache, eindex: int, msize: nat, picks: seq<seq<nat>>, id: Id)
    requires TablesOk(cfg, s) && GcChoices(cfg, s, picks) && InTables(s, id) && NoneShares(s, id)
    ensures var s' := Gc(cfg, s, eindex, msize, picks);
            Remembered(s', id) || Outlasts(s.bloom, s'.bloom) <==>
            || !ClearsBucket(s, eindex, msize, id) || InAcks(s, id) || Survives(s.bloom, s'.bloom, id)
            || Outlasts(s.bloom, s'.bloom)
  {
    hide GcSlots, GcEntriesBloom, EntriesOk, AcksOk, ValidChoices, ClearsEntry, HasRecord, HasEntry, InMessages, InAcks,
      NoneShares, Contains, FromEpoch, Survives, GcEntries;
    var s' := Gc(cfg, s, eindex, msize, picks);
    GcOk(cfg, s, eindex, msize, picks);
    if !ClearsBucket(s, eindex, msize, id) || InAcks(s, id) {
      GcRecalls(cfg, s, eindex, msize, picks, id);
    } else {
      ClearedIsGone(cfg, s, eindex, msize, picks, id);
      GcOnly(cfg, s, eindex, msize, picks, id);
      ContainsFromEpoch(s'.bloom, id);
      SurvivesIff(s.bloom, s'.bloom, id);
    }
  }

  lemma {:induction false} SurvivesIff(b: Bloom, b': Bloom, id: Id)
    requires OnlyAdvanced(b, b', id)
    ensures Survives(b, b', id) <==> exists k: int :: FromEpoch(b', id, k)
  {
    hide FromEpoch;
    if k: int :| FromEpoch(b, id, k) && b'.epoch < k + NUM_FILTERS {
      assert FromEpoch(b', id, k);
    }
  }

  /** What is not dropped whole is found, even where the filter gives false answers. */
  lemma {:induction false} GcRecalls(cfg: Config, s: Cache, eindex: int, msize: nat, picks: seq<seq<nat>>, id: Id)
    requires TablesOk(cfg, s) && |picks| == |s.acks| / ACKS_PER_SLOT && InTables(s, id)
    requires !ClearsBucket(s, eindex, msize, id) || InAcks(s, id)
    ensures var s' := Gc(cfg, s, eindex, msize, picks);
            Remembered(s', id) || Outlasts(s.bloom, s'.bloom)
  {
    hide Gc, EntriesOk, AcksOk, ClearsBucket, HasRecord, HasEntry, InMessages, InAcks, Contains, Held, StateAcksKept;
    var s' := Gc(cfg, s, eindex, msize, picks);
    GcOk(cfg, s, eindex, msize, picks);
    GcKeeps(cfg, s, eindex, msize, picks, id);
    InAcksIff(cfg, s, id);
    InMessagesIff(s, id);
    if InAcks(s, id) {
      EntryKept(s, s', id);
    }
    RecallsIff(cfg, s', id, s.bloom.epoch);
    if !Outlasts(s.bloom, s'.bloom) {
      RecalledIsFound(s', id, s.bloom.epoch);
    }
  }

  lemma {:induction false} ClearedIsGone(cfg: Config, s: Cache, eindex: int, msize: nat, picks: seq<seq<nat>>, id: Id)
    requires TablesOk(cfg, s) && |picks| == |s.acks| / ACKS_PER_SLOT
    requires ClearsBucket(s, eindex, msize, id) && !InAcks(s, id)
    ensures Sized(Gc(cfg, s, eindex, msize, picks)) && !InTables(Gc(cfg, s, eindex, msize, picks), id)
  {
    hide GcSlots, GcEntriesBloom, GcRecords, EntriesOk, AcksOk, ClearsEntry, HasRecord, HasEntry, InMessages, InAcks;
    var s' := Gc(cfg, s, eindex, msize, picks);
    var e := Bucket(s, id);
    GcOk(cfg, s, eindex, msize, picks);
    GcSlotsFewer(cfg.order, s.acks, s.bloom, picks, TokenShift(|s.tokens|), |picks|);
    FewerEntries(s.acks, s'.acks, id);
    InAcksIff(cfg, s, id);
    InAcksIff(cfg, s', id);
    InMessagesIff(s', id);
    ClearedHasNone(cfg.order, s.entries[e], RoomFor(eindex, msize, e), TokenShift(|s.tokens|), s.now, id);
    assert s'.entries[e] == GcRecords(cfg.order, s.entries[e], RoomFor(eindex, msize, e), TokenShift(|s.tokens|), s.now);
  }

  lemma {:induction false} GcOnly(cfg: Config, s: Cache, eindex: int, msize: nat, picks: seq<seq<nat>>, id: Id)
    requires TablesOk(cfg, s) && GcChoices(cfg, s, picks) && NoneShares(s, id)
    requires ClearsBucket(s, eindex, msize, id) && !InAcks(s, id)
    ensures OnlyAdvanced(s.bloom, Gc(cfg, s, eindex, msize, picks).bloom, id)
  {
    hide GcSlots, GcEntriesBloom, GcEntries, AcksOk, ValidChoices, ClearsEntry, HasEntry, InAcks, EntryOk,
      RecsShareNot, AcksShareNot, OnlyAdvanced, Advance;
    var shift := TokenShift(|s.tokens|);
    var r := GcSlots(cfg.order, s.acks, s.bloom, picks, shift, |picks|);
    var b := GcEntriesBloom(r.1, s.entries, eindex, msize, s.now, |s.entries|);
    InAcksIff(cfg, s, id);
    GcSlotsOnly(cfg.order, s.acks, s.bloom, picks, shift, |picks|, id);
    forall e | 0 <= e < |s.entries| && HasRecord(s.entries[e], id) ensures e == Bucket(s, id) {
      RecordInBucket(s, e, id);
    }
    hide HasRecord;
    GcEntriesOnly(r.1, s.entries, eindex, msize, s.now, |s.entries|, id);
    AdvanceOnly(b, id);
    OnlyTrans(s.bloom, r.1, b, id);
    OnlyTrans(s.bloom, b, Advance(b), id);
  }

  // ---------------------------------------------------------------------------
  // Which saves are safe
  // ---------------------------------------------------------------------------

  /** Saving this message in this state forgets none of the IDs in the tables. */
  ghost predicate ForgetsNone(s: Cache, s': Cache) {
    Sized(s) && Sized(s') && forall id | InTables(s, id) :: Remembered(s', id) || Outlasts(s.bloom, s'.bloom)
  }

  ghost predicate IsSave(cfg: Config, s: Cache, size: nat, ev: Event, s': Cache) {
    ev.SaveEvent? && |ev.message| == size && IsStep(cfg, s, ev, s')
  }

  /** Saves of messages of this size forget nothing, in any reachable state. */
  ghost predicate SafeSize(cfg: Config, size: nat) {
    forall s, ev, s' | Reachable(cfg, s) && IsSave(cfg, s, size, ev, s') :: ForgetsNone(s, s')
  }

  /** Exactly the messages of fewer than 6128 bytes are saved without forgetting any ID. */
  lemma {:induction false} SafeSizeIff(cfg: Config, size: nat)
    requires size <= ALLNET_MTU
    ensures SafeSize(cfg, size) <==> size < HALF_STORAGE - HEADER_SIZE
  {
    hide Reachable, IsStep, ForgetsNone, IsSave;
    if size < HALF_STORAGE - HEADER_SIZE {
      forall s, ev, s' | Reachable(cfg, s) && IsSave(cfg, s, size, ev, s') ensures ForgetsNone(s, s') {
        SmallSaveKeeps(cfg, s, size, ev, s');
      }
    } else {
      var s, ev, s' := LargeSaveForgets(cfg, size);
    }
  }

  lemma {:induction false} SmallSaveKeeps(cfg: Config, s: Cache, size: nat, ev: Event, s': Cache)
    requires Reachable(cfg, s) && IsSave(cfg, s, size, ev, s') && size < HALF_STORAGE - HEADER_SIZE
    ensures ForgetsNone(s, s')
  {
    hide Reachable, Step, ValidEvent, WellSized, EntriesOk, AcksOk, InTables, Remembered, Recalls;
    ReachableOk(cfg, s);
    StepRemembers(cfg, s, ev, s', FIRST_ID, s.bloom.epoch);
    forall id | InTables(s, id) ensures Remembered(s', id) || Outlasts(s.bloom, s'.bloom) {
      SmallSpares(cfg, s, ev, id);
      InTablesRecalls(s, id);
      StepRemembers(cfg, s, ev, s', id, s.bloom.epoch);
      if !Outlasts(s.bloom, s'.bloom) {
        RecalledIsFound(s', id, s.bloom.epoch);
      }
    }
  }

  lemma {:induction false} InTablesRecalls(s: Cache, id: Id)
    requires Sized(s) && InTables(s, id)
    ensures Recalls(s, id, s.bloom.epoch)
  {
  }

  lemma {:induction false} SmallSpares(cfg: Config, s: Cache, ev: Event, id: Id)
    requires Sized(s) && ev.SaveEvent? && |ev.message| < HALF_STORAGE - HEADER_SIZE
    ensures !Clears(cfg, s, ev, id)
  {
    hide MessageId, FoundMessage, NeedsGc;
  }

  /** A cache of one entry: a largest message is stored, and a message of this size is saved. */
  lemma {:induction false} LargeSaveForgets(cfg: Config, size: nat) returns (s: Cache, ev: Event, s': Cache)
    requires HALF_STORAGE - HEADER_SIZE <= size <= ALLNET_MTU
    ensures Reachable(cfg, s) && IsSave(cfg, s, size, ev, s') && !ForgetsNone(s, s')
  {
    hide Reachable, IsStep, AckRequest, Contains, FindRec, InTables, ReadB64, Advance, TotalSize;
    s := OneMessage(FIRST_ID, ALLNET_MTU, 0);
    OneMessageReached(cfg, FIRST_ID, ALLNET_MTU, 0);
    ev := SaveSample(SECOND_ID, size, 0);
    s' := s.(entries := [[Sample(SECOND_ID, size, 0)]], zero := {}, asked := map[], bloom := Advance(EMPTY));
    SampleSize(FIRST_ID, ALLNET_MTU, 0);
    OnlyFirst(s, FIRST_ID, SECOND_ID);
    SaveClears(cfg, s, SECOND_ID, size, 0);
    OnlyFirst(s', SECOND_ID, FIRST_ID);
    NoneAfterAdvance(FIRST_ID);
    AdvanceEpoch(EMPTY);
    assert !Remembered(s', FIRST_ID);
  }

  lemma {:induction false} NoneAfterAdvance(id: Id)
    ensures !Contains(Advance(EMPTY), MESSAGE_FILTER, id)
  {
    hide InFilter;
    EmptyHasNone(MESSAGE_FILTER, id);
    AdvanceOnly(EMPTY, id);
    ContainsFromEpoch(EMPTY, id);
    ContainsFromEpoch(Advance(EMPTY), id);
  }

  lemma {:induction false} OnlyFirst(s: Cache, first: Id, second: Id)
    requires Sized(s) && |s.entries| == 1 && |s.entries[0]| == 1 && s.entries[0][0].id == first != second
    requires forall i | 0 <= i < |s.acks| :: !s.acks[i].used
    ensures InTables(s, first) && !InTables(s, second)
    ensures FindRec(s.entries[0], second, 1).None?
  {
    hide ReadB64;
    assert FindRec(s.entries[0], first, 1) == Some(0);
  }
}
