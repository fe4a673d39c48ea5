/**
 The purpose of the cache: an ID that was saved, recorded or acked is not forgotten.  It stays in the
 message table or the ack table until a gc moves it to the message filter, and it is reported from there
 until sixteen filter advances later; the one exception is the shortcut that drops a whole entry
 (Forgetting.dfy).  An ack itself is kept the same way, without exception.
 */
module Remembering {
  import opened Base
  import opened Bloom
  import opened MessageGc
  import opened Packets
  import opened PcacheInvariants
  import opened PcacheModel
  import opened Records
  import opened TokenBits

  // ---------------------------------------------------------------------------
  // The filters
  // ---------------------------------------------------------------------------

  /** The ID has been in the filter since an epoch no earlier than `since`, or sixteen advances have been
      made from then on. */
  ghost predicate Held(b: Bloom, sel: Selector, id: Id, since: nat) {
    Fresh(b, sel, id, since) || since + NUM_FILTERS <= b.epoch
  }

  /** Time has passed for the filters, and nothing else was lost. */
  ghost predicate Ages(b: Bloom, b': Bloom) {
    b.epoch <= b'.epoch &&
    forall sel: Selector, id: Id, since: nat | Held(b, sel, id, since) :: Held(b', sel, id, since)
  }

  lemma {:induction false} HeldIsFound(b: Bloom, sel: Selector, id: Id, since: nat)
    requires Held(b, sel, id, since) && b.epoch < since + NUM_FILTERS
    ensures Contains(b, sel, id)
  {
  }

  lemma {:induction false} HeldEarlier(b: Bloom, sel: Selector, id: Id, since: nat, earlier: nat)
    requires Held(b, sel, id, since) && earlier <= since
    ensures Held(b, sel, id, earlier)
  {
    hide InFilter;
    if Fresh(b, sel, id, since) {
      var n :| 0 <= n < NUM_FILTERS && since + n <= b.epoch && InFilter(b.rings[sel][n], id);
      assert earlier + n <= b.epoch;
    }
  }

  lemma {:induction false} ApplyAges(b: Bloom, op: Op)
    ensures Ages(b, Apply(b, op))
  {
    hide Apply, Fresh;
    assert Run(Apply(b, op), []) == Apply(b, op);
    assert Run(b, [op]) == Run(Apply(b, op), [op][1..]);
    EpochGrows(b, [op]);
    forall sel: Selector, id: Id, since: nat | Held(b, sel, id, since) ensures Held(Apply(b, op), sel, id, since) {
      if Fresh(b, sel, id, since) {
        FreshPersists(b, [op], sel, id, since);
      }
    }
  }

  lemma {:induction false} NoteAges(b: Bloom, sel: Selector, id: Id)
    ensures Ages(b, Note(b, sel, id)) && Held(Note(b, sel, id), sel, id, b.epoch)
  {
    hide Ages, AfterLookup, Add, Fresh;
    NoteIsFresh(b, sel, id);
    if FirstIn(b.rings[sel], id, 0) < NUM_FILTERS {
      ApplyAges(b, LookupOp(sel, id));
    } else {
      ApplyAges(b, AddOp(sel, id));
    }
  }

  lemma {:induction false} NoteAckAges(b: Bloom, a: Ack)
    ensures var b' := NoteAck(b, a);
            Ages(b, b') && Held(b', MESSAGE_FILTER, a.id, b.epoch) && Held(b', ACK_FILTER, a.ack, b.epoch)
  {
    hide Note, Held;
    var b1 := Note(b, ACK_FILTER, a.ack);
    NoteAges(b, ACK_FILTER, a.ack);
    NoteAges(b1, MESSAGE_FILTER, a.id);
    HeldEarlier(NoteAck(b, a), MESSAGE_FILTER, a.id, b1.epoch, b.epoch);
  }

  // ---------------------------------------------------------------------------
  // The ack table
  // ---------------------------------------------------------------------------

  ghost predicate UsedFor(acks: seq<Ack>, i: nat, id: Id) {
    i < |acks| && acks[i].used && acks[i].id == id
  }

  ghost predicate HasEntry(acks: seq<Ack>, id: Id) {
    exists i: nat :: UsedFor(acks, i, id)
  }

  predicate SameEntry(acks: seq<Ack>, acks': seq<Ack>, i: nat) {
    i < |acks| && i < |acks'| && acks'[i].used && acks'[i].id == acks[i].id && acks'[i].ack == acks[i].ack
  }

  ghost predicate Noted(b: Bloom, id: Id, ack: Id, since: nat) {
    Held(b, MESSAGE_FILTER, id, since) && Held(b, ACK_FILTER, ack, since)
  }

  /** An entry stays in use, or its ack and its ID are in the filters from now on. */
  ghost predicate AcksKept(acks: seq<Ack>, b: Bloom, acks': seq<Ack>, b': Bloom) {
    && |acks'| == |acks| && Ages(b, b')
    && forall i: nat | i < |acks| && acks[i].used :: SameEntry(acks, acks', i) || Noted(b', acks[i].id, acks[i].ack, b.epoch)
  }

  lemma {:induction false} NotedEarlier(b: Bloom, b': Bloom, b'': Bloom, id: Id, ack: Id)
    requires Ages(b, b') && Ages(b', b'')
    ensures Ages(b, b'')
    ensures Noted(b', id, ack, b.epoch) || Noted(b'', id, ack, b'.epoch) ==> Noted(b'', id, ack, b.epoch)
  {
    hide Held;
    if Noted(b'', id, ack, b'.epoch) {
      HeldEarlier(b'', MESSAGE_FILTER, id, b'.epoch, b.epoch);
      HeldEarlier(b'', ACK_FILTER, ack, b'.epoch, b.epoch);
    }
  }

  lemma {:induction false} AcksKeptTrans(acks: seq<Ack>, b: Bloom, acks': seq<Ack>, b': Bloom, acks'': seq<Ack>, b'': Bloom)
    requires AcksKept(acks, b, acks', b') && AcksKept(acks', b', acks'', b'')
    ensures AcksKept(acks, b, acks'', b'')
  {
    hide Ages, Noted;
    NotedEarlier(b, b', b'', NO_TOKEN, NO_TOKEN);
    forall i: nat | i < |acks| && acks[i].used ensures SameEntry(acks, acks'', i) || Noted(b'', acks[i].id, acks[i].ack, b.epoch) {
      NotedEarlier(b, b', b'', acks[i].id, acks[i].ack);
    }
  }

  lemma {:induction false} DropAcksKept(acks: seq<Ack>, b: Bloom, picks: seq<nat>)
    ensures AcksKept(acks, b, DropAcks(acks, b, picks).0, DropAcks(acks, b, picks).1)
    decreases |picks|
  {
    hide NoteAck, Held;
    if picks != [] && picks[0] < |acks| {
      var acks1, b1 := DropAck(acks, picks[0]), NoteAck(b, acks[picks[0]]);
      NoteAckAges(b, acks[picks[0]]);
      DropAcksKept(acks1, b1, picks[1..]);
      assert AcksKept(acks, b, acks1, b1);
      var r := DropAcks(acks1, b1, picks[1..]);
      AcksKeptTrans(acks, b, acks1, b1, r.0, r.1);
    }
  }

  lemma {:induction false} GcSlotsKept(order: ByteOrder, acks: seq<Ack>, b: Bloom, picks: seq<seq<nat>>, shift: nat, n: nat)
    requires n <= |picks|
    ensures AcksKept(acks, b, GcSlots(order, acks, b, picks, shift, n).0, GcSlots(order, acks, b, picks, shift, n).1)
    decreases n
  {
    hide ShiftToken, DropAcks, Ages, Noted;
    if n == 0 {
      NothingAges(b);
    } else {
      GcSlotsKept(order, acks, b, picks, shift, n - 1);
      var r := GcSlots(order, acks, b, picks, shift, n - 1);
      var r' := GcSlots(order, acks, b, picks, shift, n);
      DropAcksKept(r.0, r.1, picks[n - 1]);
      assert AcksKept(r.0, r.1, r'.0, r'.1);
      AcksKeptTrans(acks, b, r.0, r.1, r'.0, r'.1);
    }
  }

  lemma {:induction false} NothingAges(b: Bloom)
    ensures Ages(b, b)
  {
  }

  lemma {:induction false} FewerEntries(acks: seq<Ack>, acks': seq<Ack>, id: Id)
    requires AcksFewer(acks, acks')
    ensures HasEntry(acks', id) ==> HasEntry(acks, id)
  {
    if i: nat :| UsedFor(acks', i, id) {
      assert UsedFor(acks, i, id);
    }
  }

  // ---------------------------------------------------------------------------
  // The message table
  // ---------------------------------------------------------------------------

  ghost predicate HasRecord(rs: seq<Rec>, id: Id) {
    exists i :: 0 <= i < |rs| && rs[i].id == id
  }

  lemma {:induction false} NoteDroppedAges(b: Bloom, rs: seq<Rec>, keep: seq<bool>, n: nat)
    requires |keep| == |rs| && n <= |rs|
    ensures var b' := NoteDropped(b, rs, keep, n);
            Ages(b, b') && forall i | 0 <= i < n && !keep[i] :: Held(b', MESSAGE_FILTER, rs[i].id, b.epoch)
    decreases n
  {
    hide Note, Held;
    if n > 0 {
      NoteDroppedAges(b, rs, keep, n - 1);
      var b1 := NoteDropped(b, rs, keep, n - 1);
      NoteAges(b1, MESSAGE_FILTER, rs[n - 1].id);
      if !keep[n - 1] {
        HeldEarlier(NoteDropped(b, rs, keep, n), MESSAGE_FILTER, rs[n - 1].id, b1.epoch, b.epoch);
      }
    }
  }

  lemma {:induction false} SurvivorsInclude(order: ByteOrder, rs: seq<Rec>, keep: seq<bool>, shift: nat, n: nat, i: nat)
    requires |keep| == |rs| && i < n <= |rs| && keep[i]
    ensures HasRecord(Survivors(order, rs, keep, shift, n), rs[i].id)
    decreases n
  {
    hide ShiftToken;
    var s := Survivors(order, rs, keep, shift, n - 1);
    var s' := Survivors(order, rs, keep, shift, n);
    SurvivorsNext(order, rs, keep, shift, n - 1);
    if i == n - 1 {
      assert s'[|s|].id == rs[i].id;
    } else {
      SurvivorsInclude(order, rs, keep, shift, n - 1, i);
      var j :| 0 <= j < |s| && s[j].id == rs[i].id;
      assert s'[j] == s[j];
    }
  }

  /** One entry: unless the shortcut is taken, every ID stays or is in the filter from now on. */
  lemma {:induction false} EntryGcKeeps(order: ByteOrder, b: Bloom, rs: seq<Rec>, msize: nat, shift: nat, now: nat)
    ensures Ages(b, GcBloom(b, rs, msize, now))
    ensures !ClearsEntry(msize) ==>
              forall id | HasRecord(rs, id) ::
                HasRecord(GcRecords(order, rs, msize, shift, now), id) || Held(GcBloom(b, rs, msize, now), MESSAGE_FILTER, id, b.epoch)
  {
    hide Held, NoteDropped, Survivors, Kept, ClearsEntry;
    if ClearsEntry(msize) {
      NothingAges(b);
    } else {
      var keep := Kept(rs, msize, now);
      NoteDroppedAges(b, rs, keep, |rs|);
      forall id | HasRecord(rs, id)
        ensures HasRecord(GcRecords(order, rs, msize, shift, now), id) || Held(GcBloom(b, rs, msize, now), MESSAGE_FILTER, id, b.epoch)
      {
        var i :| 0 <= i < |rs| && rs[i].id == id;
        if keep[i] {
          SurvivorsInclude(order, rs, keep, shift, |rs|, i);
        }
      }
    }
  }

  lemma {:induction false} GcEntriesKeep(order: ByteOrder, b: Bloom, entries: seq<seq<Rec>>, eindex: int, msize: nat,
                                         shift: nat, now: nat, n: nat, e: nat, id: Id)
    requires n <= |entries|
    ensures Ages(b, GcEntriesBloom(b, entries, eindex, msize, now, n))
    ensures e < n && HasRecord(entries[e], id) && !ClearsEntry(RoomFor(eindex, msize, e)) ==>
              || HasRecord(GcRecords(order, entries[e], RoomFor(eindex, msize, e), shift, now), id)
              || Held(GcEntriesBloom(b, entries, eindex, msize, now, n), MESSAGE_FILTER, id, b.epoch)
    decreases n
  {
    hide GcBloom, GcRecords, HasRecord, ClearsEntry, Held;
    if n == 0 {
      NothingAges(b);
    } else {
      GcEntriesKeep(order, b, entries, eindex, msize, shift, now, n - 1, e, id);
      var b1 := GcEntriesBloom(b, entries, eindex, msize, now, n - 1);
      var b' := GcEntriesBloom(b, entries, eindex, msize, now, n);
      EntryGcKeeps(order, b1, entries[n - 1], RoomFor(eindex, msize, n - 1), shift, now);
      if Held(b', MESSAGE_FILTER, id, b1.epoch) {
        HeldEarlier(b', MESSAGE_FILTER, id, b1.epoch, b.epoch);
      }
    }
  }

  // ---------------------------------------------------------------------------
  // The whole state
  // ---------------------------------------------------------------------------

  lemma {:induction false} InMessagesIff(s: Cache, id: Id)
    requires Sized(s)
    ensures InMessages(s, id) <==> HasRecord(s.entries[Bucket(s, id)], id)
  {
  }

  lemma {:induction false} RecordInBucket(s: Cache, e: nat, id: Id)
    requires Sized(s) && EntriesOk(s.entries) && e < |s.entries| && HasRecord(s.entries[e], id)
    ensures e == Bucket(s, id)
  {
    hide TotalSize;
    assert EntryOk(s.entries[e], e, |s.entries|);
  }

  lemma {:induction false} InAcksIff(cfg: Config, s: Cache, id: Id)
    requires Sized(s) && AcksOk(cfg, s.acks)
    ensures InAcks(s, id) <==> HasEntry(s.acks, id)
  {
    if HasEntry(s.acks, id) {
      var i: nat :| UsedFor(s.acks, i, id);
      assert AckOk(cfg, s.acks, i);
    }
    if InAcks(s, id) {
      assert UsedFor(s.acks, AckIndex(s.acks, id).value, id);
    }
  }

  /** What will be found from now on: the ID is in one of the tables, or held by the message filter. */
  ghost predicate Recalls(s: Cache, id: Id, since: nat)
    requires Sized(s)
  {
    InTables(s, id) || Held(s.bloom, MESSAGE_FILTER, id, since)
  }

  lemma {:induction false} RecallsIff(cfg: Config, s: Cache, id: Id, since: nat)
    requires Sized(s) && AcksOk(cfg, s.acks)
    ensures Recalls(s, id, since) <==>
            HasRecord(s.entries[Bucket(s, id)], id) || HasEntry(s.acks, id) || Held(s.bloom, MESSAGE_FILTER, id, since)
  {
    hide HasRecord, HasEntry, Held, InMessages, InAcks, AcksOk;
    InMessagesIff(s, id);
    InAcksIff(cfg, s, id);
  }

  /** What is recalled is found, until sixteen advances later. */
  lemma {:induction false} RecalledIsFound(s: Cache, id: Id, since: nat)
    requires Sized(s) && Recalls(s, id, since) && s.bloom.epoch < since + NUM_FILTERS
    ensures Remembered(s, id)
  {
    hide InTables, Contains, Held;
    if !InTables(s, id) {
      HeldIsFound(s.bloom, MESSAGE_FILTER, id, since);
    }
  }

  ghost predicate StateAcksKept(s: Cache, s': Cache) {
    AcksKept(s.acks, s.bloom, s'.acks, s'.bloom)
  }

  /** A stored ID stays stored, or becomes an entry of the ack table, or is in the filter from now on. */
  ghost predicate RecordKept(s: Cache, s': Cache, id: Id)
    requires Sized(s) && Sized(s')
  {
    && |s'.entries| == |s.entries|
    && (HasRecord(s.entries[Bucket(s, id)], id) ==>
          HasRecord(s'.entries[Bucket(s', id)], id) || HasEntry(s'.acks, id) || Held(s'.bloom, MESSAGE_FILTER, id, s.bloom.epoch))
  }

  lemma {:induction false} EntryKept(s: Cache, s': Cache, id: Id)
    requires StateAcksKept(s, s') && HasEntry(s.acks, id)
    ensures HasEntry(s'.acks, id) || Held(s'.bloom, MESSAGE_FILTER, id, s.bloom.epoch)
  {
    hide Held, Ages;
    var i: nat :| UsedFor(s.acks, i, id);
    if SameEntry(s.acks, s'.acks, i) {
      assert UsedFor(s'.acks, i, id);
    }
  }

  lemma {:induction false} KeptTrans(s: Cache, s1: Cache, s2: Cache, id: Id)
    requires Sized(s) && Sized(s1) && Sized(s2)
    requires StateAcksKept(s, s1) && StateAcksKept(s1, s2)
    ensures StateAcksKept(s, s2)
    ensures RecordKept(s, s1, id) && RecordKept(s1, s2, id) ==> RecordKept(s, s2, id)
  {
    hide Held, SameEntry, Noted, HasEntry, HasRecord;
    AcksKeptTrans(s.acks, s.bloom, s1.acks, s1.bloom, s2.acks, s2.bloom);
    if HasEntry(s1.acks, id) {
      EntryKept(s1, s2, id);
    }
    if Held(s2.bloom, MESSAGE_FILTER, id, s1.bloom.epoch) {
      HeldEarlier(s2.bloom, MESSAGE_FILTER, id, s1.bloom.epoch, s.bloom.epoch);
    }
  }

  lemma {:induction false} KeptRecalls(cfg: Config, s: Cache, s': Cache, id: Id, since: nat)
    requires TablesOk(cfg, s) && TablesOk(cfg, s') && StateAcksKept(s, s') && RecordKept(s, s', id)
    requires since <= s.bloom.epoch
    ensures Recalls(s, id, since) ==> Recalls(s', id, since)
  {
    hide Held, SameEntry, Noted, HasEntry, HasRecord, Recalls, EntriesOk, AcksOk;
    RecallsIff(cfg, s, id, since);
    RecallsIff(cfg, s', id, since);
    if HasEntry(s.acks, id) {
      EntryKept(s, s', id);
    }
    if Held(s'.bloom, MESSAGE_FILTER, id, s.bloom.epoch) {
      HeldEarlier(s'.bloom, MESSAGE_FILTER, id, s.bloom.epoch, since);
    }
  }

  // ---------------------------------------------------------------------------
  // A whole gc
  // ---------------------------------------------------------------------------

  /** The gc run for a message of this size drops the whole entry that this ID is in. */
  predicate ClearsBucket(s: Cache, eindex: int, msize: nat, id: Id)
    requires Sized(s)
  {
    ClearsEntry(RoomFor(eindex, msize, Bucket(s, id)))
  }

  lemma {:induction false} GcKeeps(cfg: Config, s: Cache, eindex: int, msize: nat, picks: seq<seq<nat>>, id: Id)
    requires Sized(s) && |picks| == |s.acks| / ACKS_PER_SLOT
    ensures StateAcksKept(s, Gc(cfg, s, eindex, msize, picks))
    ensures !ClearsBucket(s, eindex, msize, id) ==> RecordKept(s, Gc(cfg, s, eindex, msize, picks), id)
  {
    hide GcSlots, GcEntriesBloom, GcRecords, HasRecord, ClearsEntry, HasEntry, Held, Noted, SameEntry, Advance;
    var shift := TokenShift(|s.tokens|);
    var s' := Gc(cfg, s, eindex, msize, picks);
    var r := GcSlots(cfg.order, s.acks, s.bloom, picks, shift, |picks|);
    var b := GcEntriesBloom(r.1, s.entries, eindex, msize, s.now, |s.entries|);
    var e := Bucket(s, id);
    GcSlotsKept(cfg.order, s.acks, s.bloom, picks, shift, |picks|);
    GcEntriesKeep(cfg.order, r.1, s.entries, eindex, msize, shift, s.now, |s.entries|, e, id);
    AdvanceAges(b);
    AgesLater(s.acks, s.bloom, r.0, r.1, b);
    AgesLater(s.acks, s.bloom, r.0, b, s'.bloom);
    assert s'.entries[e] == GcRecords(cfg.order, s.entries[e], RoomFor(eindex, msize, e), shift, s.now);
    if Held(b, MESSAGE_FILTER, id, r.1.epoch) {
      HeldEarlier(s'.bloom, MESSAGE_FILTER, id, r.1.epoch, s.bloom.epoch);
    }
  }

  lemma {:induction false} AdvanceAges(b: Bloom)
    ensures Ages(b, Advance(b))
  {
    hide Ages, Advance;
    ApplyAges(b, AdvanceOp);
  }

  lemma {:induction false} AgesLater(acks: seq<Ack>, b: Bloom, acks': seq<Ack>, b': Bloom, b'': Bloom)
    requires AcksKept(acks, b, acks', b') && Ages(b', b'')
    ensures AcksKept(acks, b, acks', b'')
  {
    hide Held;
  }

  // ---------------------------------------------------------------------------
  // Every operation
  // ---------------------------------------------------------------------------

  /** This save runs a gc that drops the whole entry of the ID: the guard of the shortcut. */
  ghost predicate Clears(cfg: Config, s: Cache, ev: Event, id: Id)
    requires Sized(s)
  {
    && ev.SaveEvent?
    && MessageId(cfg.sha, ev.message).Some?
    && var saved := MessageId(cfg.sha, ev.message).value;
       && !FoundMessage(s, saved)
       && NeedsGc(s, saved, |ev.message|)
       && ClearsBucket(s, Bucket(s, saved), |ev.message|, id)
  }

  ghost predicate Spares(cfg: Config, s: Cache, ev: Event, id: Id) {
    Sized(s) && !Clears(cfg, s, ev, id)
  }

  /** The operation is about the ID: a packet with it is saved or recorded, an ack for it is saved that is
      not in the filter of acks, or it is looked up in the message filter and found there. */
  ghost predicate Registers(cfg: Config, s: Cache, ev: Event, id: Id) {
    match ev
    case SaveEvent(message, _, _) => MessageId(cfg.sha, message) == Some(id)
    case RecordEvent(message) => MessageId(cfg.sha, message) == Some(id)
    case AckEvent(ack, _, _) => cfg.sha(ack) == id && !Contains(s.bloom, ACK_FILTER, ack)
    case FindEvent(sel, x) => sel == MESSAGE_FILTER && x == id && Contains(s.bloom, MESSAGE_FILTER, id)
    case _ => false
  }

  /** The same entries are in use for the same acks. */
  ghost predicate SameEntries(acks: seq<Ack>, acks': seq<Ack>) {
    |acks'| == |acks| && forall i: nat | i < |acks| && acks[i].used :: SameEntry(acks, acks', i)
  }

  lemma {:induction false} SameTables(s: Cache, s': Cache, id: Id)
    requires Sized(s) && Sized(s') && s'.entries == s.entries && SameEntries(s.acks, s'.acks) && Ages(s.bloom, s'.bloom)
    ensures StateAcksKept(s, s') && RecordKept(s, s', id)
    ensures forall eindex, msize :: ClearsBucket(s, eindex, msize, id) <==> ClearsBucket(s', eindex, msize, id)
  {
    hide Held;
  }

  lemma {:induction false} LookedKeeps(s: Cache, sel: Selector, x: Id, id: Id)
    requires Sized(s)
    ensures StateAcksKept(s, Looked(s, sel, x)) && RecordKept(s, Looked(s, sel, x), id)
    ensures Contains(s.bloom, sel, x) ==> Held(Looked(s, sel, x).bloom, sel, x, s.bloom.epoch)
  {
    hide Ages, AfterLookup, Contains, Fresh, StateAcksKept, RecordKept;
    ApplyAges(s.bloom, LookupOp(sel, x));
    SameTables(s, Looked(s, sel, x), id);
    if Contains(s.bloom, sel, x) {
      LookupRestarts(s.bloom, sel, x);
    }
  }

  lemma {:induction false} RecordAdded(rs: seq<Rec>, r: Rec, id: Id)
    ensures HasRecord(rs + [r], r.id)
    ensures HasRecord(rs, id) ==> HasRecord(rs + [r], id)
  {
    assert (rs + [r])[|rs|] == r;
    if i :| 0 <= i < |rs| && rs[i].id == id {
      assert (rs + [r])[i] == rs[i];
    }
  }

  lemma {:induction false} StoreKeeps(s: Cache, e: nat, r: Rec, id: Id)
    requires Sized(s) && e < |s.entries|
    ensures StateAcksKept(s, Store1(s, e, r)) && RecordKept(s, Store1(s, e, r), id)
    ensures e == Bucket(s, r.id) ==> InMessages(Store1(s, e, r), r.id)
  {
    hide Held, HasRecord, InMessages;
    RecordAdded(s.entries[e], r, id);
    InMessagesIff(Store1(s, e, r), r.id);
  }

  lemma {:induction false} SaveKeeps(cfg: Config, s: Cache, ev: Event, id: Id)
    requires TablesOk(cfg, s) && ev.SaveEvent? && ValidEvent(cfg, s, ev)
    requires Save(cfg, s, ev.message, ev.priority, ev.picks).Some?
    ensures var s' := Save(cfg, s, ev.message, ev.priority, ev.picks).value;
            && TablesOk(cfg, s') && StateAcksKept(s, s')
            && (!Clears(cfg, s, ev, id) ==> RecordKept(s, s', id))
            && (MessageId(cfg.sha, ev.message) == Some(id) ==> Recalls(s', id, s.bloom.epoch))
  {
    hide Gc, ValidChoices, EntriesOk, AcksOk, ClearsEntry, MessageId, AfterLookup, TotalSize, InMessages, InAcks,
      Contains, HasRecord, StateAcksKept, RecordKept, Held;
    SaveOk(cfg, s, ev.message, ev.priority, ev.picks);
    if MessageId(cfg.sha, ev.message).None? {
      SameKept(s, id);
    } else {
      var saved := MessageId(cfg.sha, ev.message).value;
      LookedKeeps(s, MESSAGE_FILTER, saved, id);
      var s1 := Looked(s, MESSAGE_FILTER, saved);
      SameMessages(s, s1, saved);
      if !FoundMessage(s, saved) {
        var s2 := s1.(zero := {}, asked := map[]);
        var e := Bucket(s, saved);
        MemoIgnored(s1, s2, id);
        KeptTrans(s, s1, s2, id);
        GcKeeps(cfg, s2, e, |ev.message|, ev.picks, id);
        var s3 := if NeedsGc(s, saved, |ev.message|) then Gc(cfg, s2, e, |ev.message|, ev.picks) else s2;
        KeptTrans(s, s2, Gc(cfg, s2, e, |ev.message|, ev.picks), id);
        var r := Rec(saved, ev.priority, {}, ev.message);
        StoreKeeps(s3, e, r, id);
        KeptTrans(s, s3, Store1(s3, e, r), id);
      }
    }
  }

  lemma {:induction false} SameKept(s: Cache, id: Id)
    requires Sized(s)
    ensures StateAcksKept(s, s) && RecordKept(s, s, id)
  {
    hide Held;
    NothingAges(s.bloom);
  }

  lemma {:induction false} SameMessages(s: Cache, s': Cache, id: Id)
    requires Sized(s) && Sized(s') && s'.entries == s.entries
    ensures InMessages(s', id) <==> InMessages(s, id)
  {
  }

  lemma {:induction false} MemoIgnored(s: Cache, s': Cache, id: Id)
    requires Sized(s) && Sized(s') && s'.entries == s.entries && s'.acks == s.acks && s'.bloom == s.bloom
    ensures StateAcksKept(s, s') && RecordKept(s, s', id)
    ensures forall eindex, msize :: ClearsBucket(s', eindex, msize, id) <==> ClearsBucket(s, eindex, msize, id)
  {
    NothingAges(s.bloom);
    SameTables(s, s', id);
  }

  lemma {:induction false} DeleteKeepsOthers(rs: seq<Rec>, x: Id, id: Id)
    requires HasRecord(rs, id) && id != x
    ensures HasRecord(DeleteRec(rs, x), id)
  {
    var f := FindRec(rs, x, |rs|);
    if f.Some? {
      var i := f.value;
      var k :| 0 <= k < |rs| && rs[k].id == id;
      assert Without(rs, i)[if k < i then k else k - 1] == rs[k];
    }
  }

  lemma {:induction false} PutAckKeeps(s: Cache, i: nat, ack: Id, x: Id, maxHops: nat, id: Id)
    requires Sized(s) && i < |s.acks| && !s.acks[i].used
    ensures StateAcksKept(s, PutAck(s, i, ack, x, maxHops)) && RecordKept(s, PutAck(s, i, ack, x, maxHops), id)
    ensures UsedFor(PutAck(s, i, ack, x, maxHops).acks, i, x)
  {
    hide Held, DeleteRec;
    NothingAges(s.bloom);
    var s' := PutAck(s, i, ack, x, maxHops);
    assert UsedFor(s'.acks, i, x);
    var rs := s.entries[Bucket(s, x)];
    if id != x && HasRecord(rs, id) {
      DeleteKeepsOthers(rs, x, id);
    }
  }

  lemma {:induction false} NeverCleared(s: Cache, id: Id)
    requires Sized(s)
    ensures !ClearsBucket(s, -1, 0, id)
  {
  }

  /** The ack has an entry, or is held by the filter of acks. */
  ghost predicate KeepsAck(s: Cache, ack: Id, since: nat) {
    HasAck(s.acks, ack) || Held(s.bloom, ACK_FILTER, ack, since)
  }

  ghost predicate HasAck(acks: seq<Ack>, ack: Id) {
    exists i: nat :: i < |acks| && acks[i].used && acks[i].ack == ack
  }

  /** No other ack with the same hash has an entry. */
  ghost predicate NoTwin(cfg: Config, acks: seq<Ack>, ack: Id) {
    forall i: nat | i < |acks| && acks[i].used && cfg.sha(acks[i].ack) == cfg.sha(ack) :: acks[i].ack == ack
  }

  lemma {:induction false} SaveAckKeeps(cfg: Config, s: Cache, ack: Id, maxHops: nat, picks: seq<seq<nat>>, id: Id)
    requires TablesOk(cfg, s) && GcChoices(cfg, s, picks)
    ensures SaveAck(cfg, s, ack, maxHops, picks).Some?
    ensures var s' := SaveAck(cfg, s, ack, maxHops, picks).value;
            && TablesOk(cfg, s') && StateAcksKept(s, s') && RecordKept(s, s', id)
            && (!Contains(s.bloom, ACK_FILTER, ack) ==> HasEntry(s'.acks, cfg.sha(ack)))
            && (NoTwin(cfg, s.acks, ack) ==> KeepsAck(s', ack, s.bloom.epoch))
  {
    hide Gc, ValidChoices, EntriesOk, AcksOk, AfterLookup, Contains, PlaceFor, PutAck, ClearsBucket, StateAcksKept,
      RecordKept, Held, NoTwin, AckIndex;
    SaveAckOk(cfg, s, ack, maxHops, picks);
    LookedKeeps(s, ACK_FILTER, ack, id);
    var s1 := Looked(s, ACK_FILTER, ack);
    var x := cfg.sha(ack);
    if !Contains(s.bloom, ACK_FILTER, ack) {
      var a := AckIndex(s.acks, x);
      if a.Some? {
        var s' := SaveAck(cfg, s, ack, maxHops, picks).value;
        NothingAges(s1.bloom);
        SameTables(s1, s', id);
        KeptTrans(s, s1, s', id);
        FoundEntry(cfg, s, ack, s');
      } else {
        GcKeeps(cfg, s1, -1, 0, picks, id);
        GcOk(cfg, s1, -1, 0, picks);
        NeverCleared(s1, id);
        var s2 := if PlaceFor(s.acks, x).None? then Gc(cfg, s1, -1, 0, picks) else s1;
        KeptTrans(s, s1, Gc(cfg, s1, -1, 0, picks), id);
        var i := PlaceFor(s2.acks, x).value;
        PutAckKeeps(s2, i, ack, x, maxHops, id);
        KeptTrans(s, s2, PutAck(s2, i, ack, x, maxHops), id);
        PutAckHas(s2, i, ack, x, maxHops);
      }
    }
  }

  lemma {:induction false} PutAckHas(s: Cache, i: nat, ack: Id, x: Id, maxHops: nat)
    requires Sized(s) && i < |s.acks|
    ensures HasAck(PutAck(s, i, ack, x, maxHops).acks, ack)
  {
    assert PutAck(s, i, ack, x, maxHops).acks[i].ack == ack;
  }

  /** An entry found for the hash of the ack is that of the ack, unless it is a twin's. */
  lemma {:induction false} FoundEntry(cfg: Config, s: Cache, ack: Id, s': Cache)
    requires TablesOk(cfg, s) && AckIndex(s.acks, cfg.sha(ack)).Some? && SameEntries(s.acks, s'.acks)
    ensures HasEntry(s'.acks, cfg.sha(ack))
    ensures NoTwin(cfg, s.acks, ack) ==> HasAck(s'.acks, ack)
  {
    hide EntriesOk;
    var i := AckIndex(s.acks, cfg.sha(ack)).value;
    assert AckOk(cfg, s.acks, i) && SameEntry(s.acks, s'.acks, i);
    assert UsedFor(s'.acks, i, cfg.sha(ack));
    if NoTwin(cfg, s.acks, ack) {
      assert s'.acks[i].ack == ack;
    }
  }

  lemma {:induction false} TokenToSendToKeeps(cfg: Config, s: Cache, token: Token, bitmap: Bits, picks: seq<seq<nat>>, id: Id)
    requires TablesOk(cfg, s) && GcChoices(cfg, s, picks)
    ensures var s' := TokenToSendTo(cfg, s, token, bitmap, picks).0;
            TablesOk(cfg, s') && StateAcksKept(s, s') && RecordKept(s, s', id)
  {
    hide Gc, ValidChoices, EntriesOk, AcksOk, ClearsBucket, StateAcksKept, RecordKept;
    TokenToSendToOk(cfg, s, token, bitmap, picks);
    SameKept(s, id);
    GcKeeps(cfg, s, -1, 0, picks, id);
    NeverCleared(s, id);
    var s0 := Gc(cfg, s, -1, 0, picks);
    var s1 := if |s.tokens| + 1 > MAX_TOKENS then s0.(lastTokenGc := s.now) else s;
    MemoIgnored(s0, s0.(lastTokenGc := s.now), id);
    KeptTrans(s, s0, s0.(lastTokenGc := s.now), id);
    MemoIgnored(s1, s1.(tokens := s1.tokens + [token]), id);
    KeptTrans(s, s1, s1.(tokens := s1.tokens + [token]), id);
  }

  lemma {:induction false} AckForTokenKeeps(cfg: Config, s: Cache, token: Token, ack: Id, stray: Bits, picks: seq<seq<nat>>, id: Id)
    requires TablesOk(cfg, s) && GcChoices(cfg, s, picks)
    ensures var s' := AckForToken(cfg, s, token, ack, stray, picks).0;
            Sized(s') && StateAcksKept(s, s') && RecordKept(s, s', id)
  {
    hide EntriesOk, AcksOk, AfterLookup, Contains, TokenToSendTo, AckIndex, ValidChoices, StateAcksKept, RecordKept;
    AckForTokenOk(cfg, s, token, ack, stray, picks);
    LookedKeeps(s, ACK_FILTER, ack, id);
    var s1 := Looked(s, ACK_FILTER, ack);
    if !Contains(s.bloom, ACK_FILTER, ack) {
      var a := AckIndex(s1.acks, cfg.sha(ack));
      var bitmap := if a.Some? then s1.acks[a.value].sent else stray;
      ChoicesIgnoreBloom(cfg.order, s.acks, s.bloom, s1.bloom, picks, TokenShift(|s.tokens|), |picks|);
      TokenToSendToKeeps(cfg, s1, token, bitmap, picks, id);
      var t := TokenToSendTo(cfg, s1, token, bitmap, picks);
      KeptTrans(s, s1, t.0, id);
      var s' := AckForToken(cfg, s, token, ack, stray, picks).0;
      NothingAges(t.0.bloom);
      SameTables(t.0, s', id);
      KeptTrans(s, t.0, s', id);
    }
  }

  lemma {:induction false} MarkSentKeeps(cfg: Config, s: Cache, token: Token, message: seq<Byte>, picks: seq<seq<nat>>, id: Id)
    requires TablesOk(cfg, s) && GcChoices(cfg, s, picks)
    ensures var s' := MarkSent(cfg, s, token, message, picks);
            Sized(s') && StateAcksKept(s, s') && RecordKept(s, s', id)
  {
    hide EntriesOk, AcksOk, TokenToSendTo, MessageId, ValidChoices, Held, StateAcksKept;
    MarkSentOk(cfg, s, token, message, picks);
    SameKept(s, id);
    if MessageId(cfg.sha, message).Some? {
      TokenToSendToKeeps(cfg, s, token, {}, picks, id);
      var t := TokenToSendTo(cfg, s, token, {}, picks);
      var s' := MarkSent(cfg, s, token, message, picks);
      SameAcksKept(t.0, s');
      var b := Bucket(t.0, id);
      forall i | 0 <= i < |t.0.entries[b]| && t.0.entries[b][i].id == id ensures HasRecord(s'.entries[b], id) {
        assert s'.entries[b][i].id == id;
      }
      KeptTrans(s, t.0, s', id);
    }
  }

  lemma {:induction false} SameAcksKept(s: Cache, s': Cache)
    requires s'.acks == s.acks && s'.bloom == s.bloom
    ensures StateAcksKept(s, s')
  {
    hide Held;
    NothingAges(s.bloom);
  }

  /** One operation keeps every ack, and every stored ID but those of an entry that the shortcut drops. */
  lemma {:induction false} StepKeeps(cfg: Config, s: Cache, ev: Event, s': Cache, id: Id)
    requires TablesOk(cfg, s) && IsStep(cfg, s, ev, s')
    ensures TablesOk(cfg, s') && StateAcksKept(s, s')
    ensures !Clears(cfg, s, ev, id) ==> RecordKept(s, s', id)
    ensures Registers(cfg, s, ev, id) ==> Recalls(s', id, s.bloom.epoch)
  {
    hide EntriesOk, AcksOk, Save, SaveAck, AckForToken, MarkSent, GcChoices, Clears, Note, Answerable, StateAcksKept,
      RecordKept, MessageId, AfterLookup, Contains, Held, HasEntry, HasRecord, Recalls, SameEntries;
    StepOk(cfg, s, ev);
    RecallsIff(cfg, s', id, s.bloom.epoch);
    match ev
    case SaveEvent(message, priority, picks) => SaveKeeps(cfg, s, ev, id);
    case RecordEvent(message) =>
      SameKept(s, id);
      if MessageId(cfg.sha, message).Some? {
        NotedKeeps(s, MESSAGE_FILTER, MessageId(cfg.sha, message).value, id);
      }
    case AckEvent(ack, maxHops, picks) => SaveAckKeeps(cfg, s, ack, maxHops, picks, id);
    case AckForEvent(token, ack, stray, picks) => AckForTokenKeeps(cfg, s, token, ack, stray, picks, id);
    case MarkEvent(token, message, picks) => MarkSentKeeps(cfg, s, token, message, picks, id);
    case FindEvent(sel, x) => LookedKeeps(s, sel, x, id);
    case NoteEvent(sel, x) => NotedKeeps(s, sel, x, id);
    case _ => MemoIgnored(s, s', id);
  }

  lemma {:induction false} NotedKeeps(s: Cache, sel: Selector, x: Id, id: Id)
    requires Sized(s)
    ensures var s' := s.(bloom := Note(s.bloom, sel, x));
            StateAcksKept(s, s') && RecordKept(s, s', id) && Held(s'.bloom, sel, x, s.bloom.epoch)
  {
    hide Ages, Note, Held;
    NoteAges(s.bloom, sel, x);
    SameTables(s, s.(bloom := Note(s.bloom, sel, x)), id);
  }

  /** One operation forgets an ID only if it takes the shortcut for the ID's entry. */
  lemma {:induction false} StepRemembers(cfg: Config, s: Cache, ev: Event, s': Cache, id: Id, since: nat)
    requires TablesOk(cfg, s) && IsStep(cfg, s, ev, s') && since <= s.bloom.epoch
    ensures TablesOk(cfg, s') && s.bloom.epoch <= s'.bloom.epoch
    ensures Recalls(s, id, since) && !Clears(cfg, s, ev, id) ==> Recalls(s', id, since)
    ensures Registers(cfg, s, ev, id) ==> Recalls(s', id, s.bloom.epoch)
  {
    hide EntriesOk, AcksOk, Step, ValidEvent, WellSized, Clears, RecordKept, Recalls, Registers, Held, Noted, SameEntry;
    StepKeeps(cfg, s, ev, s', id);
    if !Clears(cfg, s, ev, id) {
      KeptRecalls(cfg, s, s', id, since);
    }
  }

  /** One operation forgets no ack at all. */
  lemma {:induction false} StepKeepsAck(cfg: Config, s: Cache, ev: Event, s': Cache, ack: Id, since: nat)
    requires TablesOk(cfg, s) && IsStep(cfg, s, ev, s') && KeepsAck(s, ack, since) && since <= s.bloom.epoch
    ensures TablesOk(cfg, s') && KeepsAck(s', ack, since) && since <= s'.bloom.epoch
  {
    hide EntriesOk, AcksOk, Step, ValidEvent, WellSized, Clears, RecordKept, Recalls, Registers, Held;
    StepKeeps(cfg, s, ev, s', ack);
    AckStaysKept(s, s', ack, since);
  }

  lemma {:induction false} AckStaysKept(s: Cache, s': Cache, ack: Id, since: nat)
    requires StateAcksKept(s, s') && KeepsAck(s, ack, since) && since <= s.bloom.epoch
    ensures KeepsAck(s', ack, since) && since <= s'.bloom.epoch
  {
    hide Held;
    if i: nat :| i < |s.acks| && s.acks[i].used && s.acks[i].ack == ack {
      if !SameEntry(s.acks, s'.acks, i) {
        HeldEarlier(s'.bloom, ACK_FILTER, ack, s.bloom.epoch, since);
      }
    }
  }

  // ---------------------------------------------------------------------------
  // Runs
  // ---------------------------------------------------------------------------

  lemma {:induction false} RunRecalls(cfg: Config, states: seq<Cache>, evs: seq<Event>, i: nat, j: nat, id: Id, since: nat)
    requires IsRun(cfg, states, evs) && TablesOk(cfg, states[0]) && i <= j < |states|
    requires forall k | i <= k < j :: Spares(cfg, states[k], evs[k], id)
    requires Sized(states[i]) && Recalls(states[i], id, since) && since <= states[i].bloom.epoch
    ensures TablesOk(cfg, states[j]) && Recalls(states[j], id, since) && since <= states[j].bloom.epoch
    decreases j
  {
    hide EntriesOk, AcksOk, Recalls, Step, ValidEvent, WellSized, Clears;
    RunOk(cfg, states, evs, j);
    if i < j {
      RunRecalls(cfg, states, evs, i, j - 1, id, since);
      assert IsStep(cfg, states[j - 1], evs[j - 1], states[j]);
      StepRemembers(cfg, states[j - 1], evs[j - 1], states[j], id, since);
    }
  }

  /** The ID is in a table in state `l`. */
  lemma {:induction false} TablesRemember(cfg: Config, states: seq<Cache>, evs: seq<Event>, l: nat, j: nat, id: Id)
    requires IsRun(cfg, states, evs) && TablesOk(cfg, states[0]) && l <= j < |states|
    requires forall k | l <= k < j :: Spares(cfg, states[k], evs[k], id)
    requires Sized(states[l]) && InTables(states[l], id)
    ensures TablesOk(cfg, states[j])
    ensures states[j].bloom.epoch < states[l].bloom.epoch + NUM_FILTERS ==> Remembered(states[j], id)
  {
    hide EntriesOk, AcksOk, IsRun, Spares, InTables, Remembered;
    RunRecalls(cfg, states, evs, l, j, id, states[l].bloom.epoch);
    if states[j].bloom.epoch < states[l].bloom.epoch + NUM_FILTERS {
      RecalledIsFound(states[j], id, states[l].bloom.epoch);
    }
  }

  /** Over every run: an ID that an operation was about is found in every later state until sixteen filter
      advances later, counted from that operation or from any later state in which the ID is in one of the
      tables, if no save in between drops its whole entry. */
  lemma {:induction false} RunRemembers(cfg: Config, states: seq<Cache>, evs: seq<Event>, i: nat, j: nat, id: Id)
    requires IsRun(cfg, states, evs) && TablesOk(cfg, states[0]) && i < j < |states|
    requires Registers(cfg, states[i], evs[i], id)
    requires forall k | i < k < j :: Spares(cfg, states[k], evs[k], id)
    ensures TablesOk(cfg, states[j])
    ensures states[j].bloom.epoch < states[i].bloom.epoch + NUM_FILTERS ==> Remembered(states[j], id)
    ensures forall l | i < l <= j && Sized(states[l]) && InTables(states[l], id)
                       && states[j].bloom.epoch < states[l].bloom.epoch + NUM_FILTERS :: Remembered(states[j], id)
  {
    hide EntriesOk, AcksOk, Spares, InTables, Remembered, Registers, Step, ValidEvent, WellSized, Recalls;
    var since := states[i].bloom.epoch;
    RunOk(cfg, states, evs, i);
    assert IsStep(cfg, states[i], evs[i], states[i + 1]);
    StepRemembers(cfg, states[i], evs[i], states[i + 1], id, since);
    RunRecalls(cfg, states, evs, i + 1, j, id, since);
    if states[j].bloom.epoch < since + NUM_FILTERS {
      RecalledIsFound(states[j], id, since);
    }
    forall l | i < l <= j && Sized(states[l]) && InTables(states[l], id)
               && states[j].bloom.epoch < states[l].bloom.epoch + NUM_FILTERS
      ensures Remembered(states[j], id)
    {
      TablesRemember(cfg, states, evs, l, j, id);
    }
  }
}
