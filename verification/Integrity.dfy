/** What the message table holds is what was saved: no operation makes up or damages a record. */
module Integrity {
  import opened Base
  import opened Bloom
  import opened MessageGc
  import opened Packets
  import opened PcacheInvariants
  import opened PcacheModel
  import opened Records
  import opened Requests
  import opened TokenBits
  import opened TokenMeaning

  /** The record as it was when it was saved, sent to nobody. */
  function AsSaved(r: Rec): (r': Rec) {
    r.(sent := {})
  }

  ghost predicate RecsIn(rs: seq<Rec>, saved: set<Rec>) {
    forall i | 0 <= i < |rs| :: AsSaved(rs[i]) in saved
  }

  /** Every record of the table is one of these, but for its bitmap. */
  ghost predicate EntriesIn(entries: seq<seq<Rec>>, saved: set<Rec>) {
    forall e | 0 <= e < |entries| :: RecsIn(entries[e], saved)
  }

  lemma {:induction false} EntryUpdated(entries: seq<seq<Rec>>, e: nat, rs: seq<Rec>, saved: set<Rec>)
    requires EntriesIn(entries, saved) && e < |entries| && RecsIn(rs, saved)
    ensures EntriesIn(entries[e := rs], saved)
  {
    hide RecsIn;
  }

  lemma {:induction false} GcRecsIn(order: ByteOrder, rs: seq<Rec>, msize: nat, shift: nat, now: nat, saved: set<Rec>)
    requires RecsIn(rs, saved)
    ensures RecsIn(GcRecords(order, rs, msize, shift, now), saved)
  {
    hide ShiftToken, Kept;
    if !ClearsEntry(msize) {
      var keep := Kept(rs, msize, now);
      SurvivorsComeFrom(order, rs, keep, shift, |rs|);
      var s := GcRecords(order, rs, msize, shift, now);
      forall i | 0 <= i < |s| ensures AsSaved(s[i]) in saved {
        assert ComesFrom(s[i], rs, |rs|);
        var j :| 0 <= j < |rs| && SameMessage(s[i], rs[j]);
        assert AsSaved(s[i]) == AsSaved(rs[j]);
      }
    }
  }

  lemma {:induction false} GcIn(cfg: Config, s: Cache, eindex: int, msize: nat, picks: seq<seq<nat>>, saved: set<Rec>)
    requires Sized(s) && |picks| == |s.acks| / ACKS_PER_SLOT && EntriesIn(s.entries, saved)
    ensures EntriesIn(Gc(cfg, s, eindex, msize, picks).entries, saved)
  {
    hide GcRecords, RecsIn, GcSlots, GcEntriesBloom;
    forall e | 0 <= e < |s.entries|
      ensures RecsIn(GcRecords(cfg.order, s.entries[e], RoomFor(eindex, msize, e), TokenShift(|s.tokens|), s.now), saved)
    {
      GcRecsIn(cfg.order, s.entries[e], RoomFor(eindex, msize, e), TokenShift(|s.tokens|), s.now, saved);
    }
  }

  lemma {:induction false} DeleteIn(rs: seq<Rec>, id: Id, saved: set<Rec>)
    requires RecsIn(rs, saved)
    ensures RecsIn(DeleteRec(rs, id), saved)
  {
    var f := FindRec(rs, id, |rs|);
    forall k | 0 <= k < |DeleteRec(rs, id)| ensures AsSaved(DeleteRec(rs, id)[k]) in saved {
      if f.Some? {
        RemovedAt(rs, f.value, k);
      }
    }
  }

  /** The record that an operation saves, if any. */
  function SavedBy(cfg: Config, ev: Event): (rs: set<Rec>) {
    if ev.SaveEvent? && MessageId(cfg.sha, ev.message).Some? then
      {Rec(MessageId(cfg.sha, ev.message).value, ev.priority, {}, ev.message)}
    else {}
  }

  lemma {:induction false} SaveIn(cfg: Config, s: Cache, ev: Event, saved: set<Rec>)
    requires ev.SaveEvent? && Sized(s) && |ev.picks| == |s.acks| / ACKS_PER_SLOT && EntriesIn(s.entries, saved)
    requires Save(cfg, s, ev.message, ev.priority, ev.picks).Some?
    ensures EntriesIn(Save(cfg, s, ev.message, ev.priority, ev.picks).value.entries, saved + SavedBy(cfg, ev))
  {
    hide AfterLookup, Contains, Gc, TotalSize, MessageId, FindRec;
    MoreIn(s.entries, saved, SavedBy(cfg, ev));
    if MessageId(cfg.sha, ev.message).Some? && !FoundMessage(s, MessageId(cfg.sha, ev.message).value) {
      var id := MessageId(cfg.sha, ev.message).value;
      var all := saved + SavedBy(cfg, ev);
      var e := Bucket(s, id);
      var s2 := Looked(s, MESSAGE_FILTER, id).(zero := {}, asked := map[]);
      GcIn(cfg, s2, e, |ev.message|, ev.picks, all);
      var s3 := if NeedsGc(s, id, |ev.message|) then Gc(cfg, s2, e, |ev.message|, ev.picks) else s2;
      EntryUpdated(s3.entries, e, s3.entries[e] + [Rec(id, ev.priority, {}, ev.message)], all);
    }
  }

  lemma {:induction false} MoreIn(entries: seq<seq<Rec>>, saved: set<Rec>, more: set<Rec>)
    requires EntriesIn(entries, saved)
    ensures EntriesIn(entries, saved + more)
  {
    forall e | 0 <= e < |entries| ensures RecsIn(entries[e], saved + more) {
      assert RecsIn(entries[e], saved);
    }
  }

  lemma {:induction false} SaveAckIn(cfg: Config, s: Cache, ack: Id, maxHops: nat, picks: seq<seq<nat>>, saved: set<Rec>)
    requires Sized(s) && |picks| == |s.acks| / ACKS_PER_SLOT && EntriesIn(s.entries, saved)
    requires SaveAck(cfg, s, ack, maxHops, picks).Some?
    ensures EntriesIn(SaveAck(cfg, s, ack, maxHops, picks).value.entries, saved)
  {
    hide AfterLookup, Contains, PlaceFor, Gc, AckIndex, DeleteRec;
    var s1 := Looked(s, ACK_FILTER, ack);
    var id := cfg.sha(ack);
    if !Contains(s.bloom, ACK_FILTER, ack) && AckIndex(s.acks, id).None? {
      GcIn(cfg, s1, -1, 0, picks, saved);
      var s2 := if PlaceFor(s.acks, id).None? then Gc(cfg, s1, -1, 0, picks) else s1;
      var b := Bucket(s2, id);
      DeleteIn(s2.entries[b], id, saved);
      EntryUpdated(s2.entries, b, DeleteRec(s2.entries[b], id), saved);
    }
  }

  lemma {:induction false} TokenIn(cfg: Config, s: Cache, token: Token, bitmap: Bits, picks: seq<seq<nat>>, saved: set<Rec>)
    requires Sized(s) && |picks| == |s.acks| / ACKS_PER_SLOT && EntriesIn(s.entries, saved)
    ensures EntriesIn(TokenToSendTo(cfg, s, token, bitmap, picks).0.entries, saved)
  {
    hide Gc, EntriesIn;
    GcIn(cfg, s, -1, 0, picks, saved);
  }

  lemma {:induction false} MarkIn(cfg: Config, s: Cache, token: Token, message: seq<Byte>, picks: seq<seq<nat>>, saved: set<Rec>)
    requires Sized(s) && |picks| == |s.acks| / ACKS_PER_SLOT && |s.tokens| <= MAX_TOKENS && EntriesIn(s.entries, saved)
    ensures EntriesIn(MarkSent(cfg, s, token, message, picks).entries, saved)
  {
    hide MessageId, TokenToSendTo, FindRec;
    TokenIn(cfg, s, token, {}, picks, saved);
    if MessageId(cfg.sha, message).Some? {
      var id := MessageId(cfg.sha, message).value;
      var t := TokenToSendTo(cfg, s, token, {}, picks);
      var e := Bucket(t.0, id);
      var rs := t.0.entries[e];
      var i := FindRec(rs, id, |rs|);
      if t.1.Some? && i.Some? {
        var r := rs[i.value].(sent := rs[i.value].sent + {t.1.value});
        assert AsSaved(r) == AsSaved(rs[i.value]);
        EntryUpdated(t.0.entries, e, rs[i.value := r], saved);
      }
    }
  }

  lemma {:induction false} AckForIn(cfg: Config, s: Cache, token: Token, ack: Id, stray: Bits, picks: seq<seq<nat>>, saved: set<Rec>)
    requires Sized(s) && |picks| == |s.acks| / ACKS_PER_SLOT && |s.tokens| <= MAX_TOKENS && EntriesIn(s.entries, saved)
    ensures EntriesIn(AckForToken(cfg, s, token, ack, stray, picks).0.entries, saved)
  {
    hide AfterLookup, Contains, AckIndex, TokenToSendTo, EntriesIn;
    var s1 := Looked(s, ACK_FILTER, ack);
    var a := AckIndex(s1.acks, cfg.sha(ack));
    TokenIn(cfg, s1, token, if a.Some? then s1.acks[a.value].sent else stray, picks, saved);
  }

  /** An operation leaves only records that were there, or the one that it saves. */
  lemma {:induction false} StepStores(cfg: Config, s: Cache, ev: Event, s': Cache, saved: set<Rec>)
    requires IsStep(cfg, s, ev, s') && EntriesIn(s.entries, saved)
    ensures EntriesIn(s'.entries, saved + SavedBy(cfg, ev))
  {
    hide Save, SaveAck, AckForToken, MarkSent, GcChoices, AfterLookup, Note, EntriesIn, SavedBy, Answerable;
    MoreIn(s.entries, saved, SavedBy(cfg, ev));
    match ev
    case SaveEvent(_, _, _) => SaveIn(cfg, s, ev, saved);
    case AckEvent(ack, maxHops, picks) => SaveAckIn(cfg, s, ack, maxHops, picks, saved + SavedBy(cfg, ev));
    case AckForEvent(token, ack, stray, picks) => AckForIn(cfg, s, token, ack, stray, picks, saved + SavedBy(cfg, ev));
    case MarkEvent(token, message, picks) => MarkIn(cfg, s, token, message, picks, saved + SavedBy(cfg, ev));
    case _ =>
  }

  function SavedByAll(cfg: Config, evs: seq<Event>, k: nat): (rs: set<Rec>)
    requires k <= |evs|
  {
    if k == 0 then {} else SavedByAll(cfg, evs, k - 1) + SavedBy(cfg, evs[k - 1])
  }

  /** In every run from an empty table, whatever was collected, compacted, deleted or marked in between:
      each record has the ID, the priority and the bytes of some message that was saved. */
  lemma {:induction false} RunStores(cfg: Config, states: seq<Cache>, evs: seq<Event>, k: nat)
    requires IsRun(cfg, states, evs) && EntriesIn(states[0].entries, {}) && k < |states|
    ensures EntriesIn(states[k].entries, SavedByAll(cfg, evs, k))
    decreases k
  {
    hide Step, ValidEvent, WellSized, EntriesIn, SavedBy;
    if k > 0 {
      RunStores(cfg, states, evs, k - 1);
      assert IsStep(cfg, states[k - 1], evs[k - 1], states[k]);
      StepStores(cfg, states[k - 1], evs[k - 1], states[k], SavedByAll(cfg, evs, k - 1));
    }
  }

  /** Every such record was saved by an operation of the run. */
  lemma {:induction false} SavedByAllIs(cfg: Config, evs: seq<Event>, k: nat, r: Rec)
    requires k <= |evs| && r in SavedByAll(cfg, evs, k)
    ensures exists j | 0 <= j < k :: r in SavedBy(cfg, evs[j])
    decreases k
  {
    hide SavedBy;
    if r in SavedBy(cfg, evs[k - 1]) {
    } else {
      SavedByAllIs(cfg, evs, k - 1, r);
    }
  }

  /** A cache that starts empty starts in order, in all the senses that runs preserve. */
  lemma {:induction false} EmptyCacheIsGood(cfg: Config, buckets: nat, slots: nat)
    requires buckets > 0 && slots > 0
    ensures var s := EmptyCache(buckets, slots);
            TablesOk(cfg, s) && BitsOk(s) && MemoOk(s) && EntriesIn(s.entries, {})
  {
    EmptyCacheOk(cfg, buckets, slots);
  }

  /** In every run from an empty cache the ID of a record is that of its message. */
  lemma {:induction false} RecordHasItsId(cfg: Config, buckets: nat, slots: nat, states: seq<Cache>, evs: seq<Event>, j: nat, e: nat, k: nat)
    requires buckets > 0 && slots > 0 && IsRun(cfg, states, evs) && states[0] == EmptyCache(buckets, slots) && j < |states|
    requires e < |states[j].entries| && k < |states[j].entries[e]|
    ensures MessageId(cfg.sha, states[j].entries[e][k].body) == Some(states[j].entries[e][k].id)
  {
    hide IsStep, EmptyCache, SavedByAll, MessageId;
    EmptyCacheIsGood(cfg, buckets, slots);
    RunStores(cfg, states, evs, j);
    assert RecsIn(states[j].entries[e], SavedByAll(cfg, evs, j));
    SavedByAllIs(cfg, evs, j, AsSaved(states[j].entries[e][k]));
  }
}
