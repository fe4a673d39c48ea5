/**
 What saving an ack does to the two tables, in terms of their contents: the message with the ID of the ack is
 no longer cached, all others are, and the ack has its entry.
 */
module StopsCaching {
  import opened Answers
  import opened Base
  import opened Bloom
  import opened Integrity
  import opened MessageGc
  import opened MessagesOnce
  import opened Packets
  import opened PcacheInvariants
  import opened PcacheModel
  import opened Records
  import opened Remembering
  import opened TokenBits

  /** The records with other IDs, in order. */
  function Others(rs: seq<Rec>, id: Id): (others: seq<Rec>) {
    if rs == [] then []
    else
      var last := rs[|rs| - 1];
      Others(rs[..|rs| - 1], id) + if last.id == id then [] else [last]
  }

  /** No entry holds a record with the ID. */
  ghost predicate NoRecord(entries: seq<seq<Rec>>, id: Id) {
    forall e, k | 0 <= e < |entries| && 0 <= k < |entries[e]| :: entries[e][k].id != id
  }

  /** The ack is not known yet. */
  ghost predicate NewAck(cfg: Config, s: Cache, ack: Id) {
    !Contains(s.bloom, ACK_FILTER, ack) && !HasEntry(s.acks, cfg.sha(ack))
  }

  predicate FreeFor(acks: seq<Ack>, id: Id, i: nat)
    requires AckSlots(acks)
  {
    i < |acks| && !acks[i].used && i / 64 == ReadB64(id) % |acks| / 64
  }

  /** The slot of the ID has a free place, so that no gc is needed. */
  ghost predicate FreePlace(acks: seq<Ack>, id: Id)
    requires AckSlots(acks)
  {
    exists i: nat :: FreeFor(acks, id, i)
  }

  // ---------------------------------------------------------------------------
  // One entry
  // ---------------------------------------------------------------------------

  lemma {:induction false} OthersAreAll(rs: seq<Rec>, id: Id)
    requires forall i | 0 <= i < |rs| :: rs[i].id != id
    ensures Others(rs, id) == rs
    decreases |rs|
  {
    if rs != [] {
      OthersAreAll(rs[..|rs| - 1], id);
      assert rs == rs[..|rs| - 1] + [rs[|rs| - 1]];
    }
  }

  lemma {:induction false} OthersConcat(a: seq<Rec>, b: seq<Rec>, id: Id)
    ensures Others(a + b, id) == Others(a, id) + Others(b, id)
    decreases |b|
  {
    if b == [] {
      assert a + b == a;
    } else {
      OthersConcat(a, b[..|b| - 1], id);
      assert (a + b)[..|a + b| - 1] == a + b[..|b| - 1];
    }
  }

  lemma {:induction false} OthersStep(a: seq<Rec>, r: Rec, id: Id)
    ensures Others(a + [r], id) == if r.id == id then Others(a, id) else Others(a, id) + [r]
  {
    assert (a + [r])[..|a|] == a;
  }

  /** Where IDs are distinct, deleting the first record with an ID leaves the others. */
  lemma {:induction false} DeleteLeavesOthers(rs: seq<Rec>, id: Id)
    requires DistinctIds(rs)
    ensures DeleteRec(rs, id) == Others(rs, id)
  {
    hide Others;
    var f := FindRec(rs, id, |rs|);
    if f.None? {
      OthersAreAll(rs, id);
    } else {
      var i := f.value;
      OthersAreAll(rs[..i], id);
      OthersAreAll(rs[i + 1..], id);
      OthersStep(rs[..i], rs[i], id);
      OthersConcat(rs[..i] + [rs[i]], rs[i + 1..], id);
      assert rs == rs[..i] + [rs[i]] + rs[i + 1..];
    }
  }

  lemma {:induction false} OthersHaveNot(rs: seq<Rec>, id: Id)
    ensures forall k | 0 <= k < |Others(rs, id)| :: Others(rs, id)[k].id != id
    decreases |rs|
  {
    if rs != [] {
      OthersHaveNot(rs[..|rs| - 1], id);
    }
  }

  // ---------------------------------------------------------------------------
  // One ack
  // ---------------------------------------------------------------------------

  lemma {:induction false} SameSlot(i: nat, j: nat)
    ensures SlotBase(i) == SlotBase(j) <==> i / 64 == j / 64
  {
    assert SlotBase(i) == 64 * (i / 64) && SlotBase(j) == 64 * (j / 64);
  }

  lemma {:induction false} PlaceIffFree(acks: seq<Ack>, id: Id)
    requires AckSlots(acks)
    ensures PlaceFor(acks, id).Some? <==> FreePlace(acks, id)
    ensures PlaceFor(acks, id).Some? ==> FreeFor(acks, id, PlaceFor(acks, id).value)
  {
    PlaceInSlot(acks, id);
    var home := AckHome(acks, id);
    if PlaceFor(acks, id).Some? {
      SameSlot(PlaceFor(acks, id).value, home);
      assert FreeFor(acks, id, PlaceFor(acks, id).value);
    }
    if i: nat :| FreeFor(acks, id, i) {
      SameSlot(i, home);
      var base := SlotBase(home);
      assert base <= i < base + ACKS_PER_SLOT;
    }
  }

  lemma {:induction false} NoEntryFound(cfg: Config, s: Cache, id: Id)
    requires Sized(s) && AcksOk(cfg, s.acks)
    ensures AckIndex(s.acks, id).None? <==> !HasEntry(s.acks, id)
  {
    hide AcksOk;
    InAcksIff(cfg, s, id);
  }

  /** The state to which a new ack is added: collected first if its slot was full. */
  ghost function Before(cfg: Config, s: Cache, ack: Id, picks: seq<seq<nat>>): (s': Cache)
    requires Sized(s) && |picks| == |s.acks| / ACKS_PER_SLOT
  {
    var s1 := Looked(s, ACK_FILTER, ack);
    if FreePlace(s.acks, cfg.sha(ack)) then s1 else Gc(cfg, s1, -1, 0, picks)
  }

  lemma {:induction false} NewAckPut(cfg: Config, s: Cache, ack: Id, maxHops: nat, picks: seq<seq<nat>>) returns (i: nat)
    requires TablesOk(cfg, s) && GcChoices(cfg, s, picks) && NewAck(cfg, s, ack)
    ensures SaveAck(cfg, s, ack, maxHops, picks).Some?
    ensures var s2 := Before(cfg, s, ack, picks);
            && TablesOk(cfg, s2) && FreeFor(s2.acks, cfg.sha(ack), i)
            && Some(i) == PlaceFor(s2.acks, cfg.sha(ack))
            && SaveAck(cfg, s, ack, maxHops, picks).value == PutAck(s2, i, ack, cfg.sha(ack), maxHops)
  {
    hide Gc, ValidChoices, EntriesOk, AcksOk, AfterLookup, Contains, PlaceFor, PutAck, AckIndex, HasEntry, FreePlace;
    var id := cfg.sha(ack);
    SaveAckOk(cfg, s, ack, maxHops, picks);
    NoEntryFound(cfg, s, id);
    PlaceIffFree(s.acks, id);
    var s1 := Looked(s, ACK_FILTER, ack);
    assert TablesOk(cfg, s1);
    GcOk(cfg, s1, -1, 0, picks);
    var s2 := Before(cfg, s, ack, picks);
    PlaceIffFree(s2.acks, id);
    i := PlaceFor(s2.acks, id).value;
  }

  /** Only the record with the ID leaves. */
  lemma {:induction false} PutAckLeavesOthers(cfg: Config, s: Cache, i: nat, ack: Id, id: Id, maxHops: nat, e: nat)
    requires TablesOk(cfg, s) && i < |s.acks| && e < |s.entries|
    ensures PutAck(s, i, ack, id, maxHops).entries[e] == Others(s.entries[e], id)
  {
    hide DeleteRec, TotalSize, AcksOk;
    var b := Bucket(s, id);
    assert EntryOk(s.entries[e], e, |s.entries|);
    if e == b {
      DeleteLeavesOthers(s.entries[b], id);
    } else {
      OthersAreAll(s.entries[e], id);
    }
  }

  /** What an entry holds when a new ack has found a place for itself. */
  ghost function Collected(cfg: Config, s: Cache, ack: Id, e: nat): (rs: seq<Rec>)
    requires Sized(s) && e < |s.entries|
  {
    if FreePlace(s.acks, cfg.sha(ack)) then s.entries[e]
    else GcRecords(cfg.order, s.entries[e], 0, TokenShift(|s.tokens|), s.now)
  }

  /** Saving a new ack stops the caching of its message: no record is left with its ID, and of every entry, once
      it was collected if need be, the other records stay as they are and in order. */
  lemma {:induction false} AckStopsCaching(cfg: Config, s: Cache, ack: Id, maxHops: nat, picks: seq<seq<nat>>, s': Cache)
    requires TablesOk(cfg, s) && IsStep(cfg, s, AckEvent(ack, maxHops, picks), s') && NewAck(cfg, s, ack)
    ensures NoRecord(s'.entries, cfg.sha(ack)) && |s'.entries| == |s.entries|
    ensures forall e | 0 <= e < |s.entries| :: s'.entries[e] == Others(Collected(cfg, s, ack, e), cfg.sha(ack))
    ensures FreePlace(s.acks, cfg.sha(ack)) ==>
              forall e | 0 <= e < |s.entries| :: s'.entries[e] == Others(s.entries[e], cfg.sha(ack))
  {
    hide Others, GcRecords, FreePlace, NewAck, TablesOk, DeleteRec, SaveAck, AfterLookup, ValidChoices, Before;
    var id := cfg.sha(ack);
    var i := NewAckPut(cfg, s, ack, maxHops, picks);
    var s2 := Before(cfg, s, ack, picks);
    EntriesBefore(cfg, s, ack, picks);
    forall e | 0 <= e < |s.entries| ensures s'.entries[e] == Others(Collected(cfg, s, ack, e), id) {
      PutAckLeavesOthers(cfg, s2, i, ack, id, maxHops, e);
    }
    forall e, k | 0 <= e < |s'.entries| && 0 <= k < |s'.entries[e]| ensures s'.entries[e][k].id != id {
      OthersHaveNot(Collected(cfg, s, ack, e), id);
    }
  }

  lemma {:induction false} EntriesBefore(cfg: Config, s: Cache, ack: Id, picks: seq<seq<nat>>)
    requires Sized(s) && |picks| == |s.acks| / ACKS_PER_SLOT
    ensures |Before(cfg, s, ack, picks).entries| == |s.entries|
    ensures forall e | 0 <= e < |s.entries| :: Before(cfg, s, ack, picks).entries[e] == Collected(cfg, s, ack, e)
  {
    hide GcRecords, GcSlots, GcEntriesBloom, FreePlace, AfterLookup;
  }

  /** A new ack gets an entry of its own, sent to nobody, in the slot of its ID: at its home if that is free.  With a
      free place no other entry changes. */
  lemma {:induction false} NewAckIsEntered(cfg: Config, s: Cache, ack: Id, maxHops: nat, picks: seq<seq<nat>>, s': Cache) returns (i: nat)
    requires TablesOk(cfg, s) && IsStep(cfg, s, AckEvent(ack, maxHops, picks), s') && NewAck(cfg, s, ack)
    ensures |s'.acks| == |s.acks| && i < |s.acks| && s'.acks[i] == Ack(ack, cfg.sha(ack), true, maxHops, {})
    ensures i / 64 == ReadB64(cfg.sha(ack)) % |s.acks| / 64
    ensures FreePlace(s.acks, cfg.sha(ack)) ==> !s.acks[i].used && s'.acks == s.acks[i := s'.acks[i]]
    ensures !s.acks[ReadB64(cfg.sha(ack)) % |s.acks|].used ==> i == ReadB64(cfg.sha(ack)) % |s.acks|
  {
    hide Others, GcRecords, GcSlots, GcEntriesBloom, NewAck, SaveAck, AfterLookup, GcChoices, DeleteRec, FindFree,
      EntriesOk, AcksOk;
    i := NewAckPut(cfg, s, ack, maxHops, picks);
    var home := ReadB64(cfg.sha(ack)) % |s.acks|;
    if !s.acks[home].used {
      assert FreeFor(s.acks, cfg.sha(ack), home);
    }
  }

  function Max(a: nat, b: nat): (m: nat)
    ensures m >= a && m >= b && (m == a || m == b)
  {
    if a < b then b else a
  }

  /** An ack whose ID has an entry only raises the hop limit there, to the largest one seen. */
  lemma {:induction false} KnownAckRaisesHops(cfg: Config, s: Cache, ack: Id, maxHops: nat, picks: seq<seq<nat>>, s': Cache, i: nat)
    requires TablesOk(cfg, s) && IsStep(cfg, s, AckEvent(ack, maxHops, picks), s')
    requires !Contains(s.bloom, ACK_FILTER, ack) && UsedFor(s.acks, i, cfg.sha(ack))
    ensures s'.acks == s.acks[i := s.acks[i].(maxHops := Max(s.acks[i].maxHops, maxHops))]
    ensures s'.entries == s.entries && s'.tokens == s.tokens
  {
    hide EntriesOk, AfterLookup, Contains, FindAck, Gc, PlaceFor, GcChoices;
    var id := cfg.sha(ack);
    assert HasEntry(s.acks, id);
    NoEntryFound(cfg, s, id);
    var a := AckIndex(s.acks, id);
    assert a.value == i;
  }

  // ---------------------------------------------------------------------------
  // Runs
  // ---------------------------------------------------------------------------

  /** The packet with this ID is not saved by the operation. */
  predicate SavesOther(cfg: Config, ev: Event, id: Id) {
    ev.SaveEvent? ==> MessageId(cfg.sha, ev.message) != Some(id)
  }

  /** The records of a table, as they were saved. */
  function Stored(entries: seq<seq<Rec>>): (rs: set<Rec>) {
    set e, k | 0 <= e < |entries| && 0 <= k < |entries[e]| :: AsSaved(entries[e][k])
  }

  lemma {:induction false} StoredIn(entries: seq<seq<Rec>>)
    ensures EntriesIn(entries, Stored(entries))
  {
    forall e | 0 <= e < |entries| ensures RecsIn(entries[e], Stored(entries)) {
    }
  }

  lemma {:induction false} StoredHasNot(entries: seq<seq<Rec>>, id: Id, more: set<Rec>, entries': seq<seq<Rec>>)
    requires NoRecord(entries, id) && EntriesIn(entries', Stored(entries) + more)
    requires forall r | r in more :: r.id != id
    ensures NoRecord(entries', id)
  {
    forall e, k | 0 <= e < |entries'| && 0 <= k < |entries'[e]| ensures entries'[e][k].id != id {
      assert RecsIn(entries'[e], Stored(entries) + more);
      assert AsSaved(entries'[e][k]).id == entries'[e][k].id;
    }
  }

  /** An ID without a record gets one only by a save of its message. */
  lemma {:induction false} StepBringsNone(cfg: Config, s: Cache, ev: Event, s': Cache, id: Id)
    requires IsStep(cfg, s, ev, s') && NoRecord(s.entries, id) && SavesOther(cfg, ev, id)
    ensures NoRecord(s'.entries, id)
  {
    hide Step, ValidEvent, WellSized, Stored, EntriesIn, NoRecord, MessageId;
    StoredIn(s.entries);
    StepStores(cfg, s, ev, s', Stored(s.entries));
    StoredHasNot(s.entries, id, SavedBy(cfg, ev), s'.entries);
  }

  lemma {:induction false} RunBringsNone(cfg: Config, states: seq<Cache>, evs: seq<Event>, i: nat, j: nat, id: Id)
    requires IsRun(cfg, states, evs) && i <= j < |states| && NoRecord(states[i].entries, id)
    requires forall l | i <= l < j :: SavesOther(cfg, evs[l], id)
    ensures NoRecord(states[j].entries, id)
    decreases j
  {
    hide IsStep, NoRecord, SavesOther;
    if i < j {
      RunBringsNone(cfg, states, evs, i, j - 1, id);
      assert IsStep(cfg, states[j - 1], evs[j - 1], states[j]);
      StepBringsNone(cfg, states[j - 1], evs[j - 1], states[j], id);
    }
  }

  /** In every run from an empty cache: once a new ack was saved, and until its message is saved again, no record has
      its ID, and no answer to any request holds a message with that ID. */
  lemma {:induction false} AckedIsNotGiven(cfg: Config, buckets: nat, slots: nat, states: seq<Cache>, evs: seq<Event>,
                                           i: nat, j: nat, req: Request, answer: seq<Message>, max: int, bsize: nat)
    requires buckets > 0 && slots > 0 && IsRun(cfg, states, evs) && states[0] == EmptyCache(buckets, slots)
    requires i < j < |states| && evs[i].AckEvent? && NewAck(cfg, states[i], evs[i].ack)
    requires forall l | i < l < j :: SavesOther(cfg, evs[l], cfg.sha(evs[i].ack))
    requires IsAnswer(AnswerList(states[j], req), answer, max, bsize)
    ensures NoRecord(states[j].entries, cfg.sha(evs[i].ack))
    ensures forall m | m in answer :: MessageId(cfg.sha, m.body) != Some(cfg.sha(evs[i].ack))
  {
    hide TablesOk, IsStep, EmptyCache, NewAck, SavesOther, AllEligible, Eligible, Fits, MessageId, Others, Collected, FreePlace;
    var id := cfg.sha(evs[i].ack);
    EmptyCacheOk(cfg, buckets, slots);
    RunOk(cfg, states, evs, i);
    assert IsStep(cfg, states[i], evs[i], states[i + 1]);
    AckStops(cfg, states[i], evs[i], states[i + 1]);
    RunBringsNone(cfg, states, evs, i + 1, j, id);
    var s := states[j];
    forall m | m in answer ensures MessageId(cfg.sha, m.body) != Some(id) {
      var index := RequestIndex(s, req);
      assert m in AnswerList(s, req);
      AllEligibleFrom(req, index, s.now, s.entries, |s.entries|, m);
      var e :| 0 <= e < |s.entries| && FromRecord(m, req, index, s.now, s.entries[e], |s.entries[e]|);
      var k :| 0 <= k < |s.entries[e]| && Eligible(req, index, s.now, s.entries[e][k]) && m.body == s.entries[e][k].body;
      RecordHasItsId(cfg, buckets, slots, states, evs, j, e, k);
    }
  }

  lemma {:induction false} AckStops(cfg: Config, s: Cache, ev: Event, s': Cache)
    requires TablesOk(cfg, s) && ev.AckEvent? && IsStep(cfg, s, ev, s') && NewAck(cfg, s, ev.ack)
    ensures NoRecord(s'.entries, cfg.sha(ev.ack))
  {
    hide TablesOk, IsStep, NewAck, NoRecord, Others, Collected, FreePlace;
    assert ev == AckEvent(ev.ack, ev.maxHops, ev.picks);
    AckStopsCaching(cfg, s, ev.ack, ev.maxHops, ev.picks, s');
  }
}
