/** No message is handed out to a token that it was marked for, while it stays stored and the token listed. */
module MessagesOnce {
  import opened Answers
  import opened Base
  import opened Integrity
  import opened Packets
  import opened PcacheInvariants
  import opened PcacheModel
  import opened Records
  import opened Remembering
  import opened TokenBits
  import opened TokenMeaning

  /** The message is stored and the token listed. */
  ghost predicate Present(s: Cache, id: Id, t: Token) {
    Sized(s) && InMessages(s, id) && t in s.tokens
  }

  /** A record that is marked for the token of a request is not handed out in answer to it. */
  lemma {:induction false} MarkedIsNotEligible(cfg: Config, s: Cache, id: Id, req: Request, e: nat, k: nat)
    requires TablesOk(cfg, s) && SentTo(s, id, req.token) && req.token != NO_TOKEN
    requires e < |s.entries| && k < |s.entries[e]| && s.entries[e][k].id == id
    ensures !Eligible(req, RequestIndex(s, req), s.now, s.entries[e][k])
  {
    hide AcksOk, Expired, TotalSize;
    assert HasRecord(s.entries[e], id);
    RecordInBucket(s, e, id);
    EntryDistinct(s.entries, e);
    var i :| 0 <= i < |s.entries[e]| && s.entries[e][i].id == id && req.token in Meaning(s.tokens, s.entries[e][i].sent);
    assert i == k;
    var n := RequestIndex(s, req);
    var bit :| bit in s.entries[e][k].sent && 0 <= bit < |s.tokens| && s.tokens[bit] == req.token;
    assert n.Some? && n.value == bit;
  }

  lemma {:induction false} StaysMarked(cfg: Config, states: seq<Cache>, evs: seq<Event>, i: nat, j: nat, id: Id, t: Token)
    requires |states| == |evs| + 1 && i < j < |states| && forall l | 0 <= l < |states| :: Sized(states[l])
    requires MarksMessage(cfg, evs[i], id, t)
    requires forall l | i < l <= j :: Present(states[l], id, t)
    ensures MarkedSince(cfg, states, evs, j, id, t)
    decreases j
  {
    hide SentTo, InMessages, MarksMessage;
    assert Present(states[j], id, t);
    if i < j - 1 {
      StaysMarked(cfg, states, evs, i, j - 1, id, t);
    }
  }

  lemma {:induction false} RunSized(cfg: Config, states: seq<Cache>, evs: seq<Event>)
    requires IsRun(cfg, states, evs) && TablesOk(cfg, states[0])
    ensures forall l | 0 <= l < |states| :: Sized(states[l])
  {
    hide EntriesOk, AcksOk, IsStep;
    forall l | 0 <= l < |states| ensures Sized(states[l]) {
      RunOk(cfg, states, evs, l);
    }
  }

  /** Everything in the list was made from an eligible record. */
  ghost predicate FromRecord(m: Message, req: Request, index: Option<nat>, now: nat, rs: seq<Rec>, n: nat) {
    exists k :: 0 <= k < n && k < |rs| && Eligible(req, index, now, rs[k]) && m.body == rs[k].body
  }

  lemma {:induction false} EligibleOfFrom(req: Request, index: Option<nat>, now: nat, rs: seq<Rec>, n: nat, m: Message)
    requires n <= |rs| && m in EligibleOf(req, index, now, rs, n)
    ensures FromRecord(m, req, index, now, rs, n)
    decreases n
  {
    hide Eligible;
    if m in EligibleOf(req, index, now, rs, n - 1) {
      EligibleOfFrom(req, index, now, rs, n - 1, m);
    } else {
      assert Eligible(req, index, now, rs[n - 1]) && m.body == rs[n - 1].body;
    }
  }

  lemma {:induction false} AllEligibleFrom(req: Request, index: Option<nat>, now: nat, entries: seq<seq<Rec>>, n: nat, m: Message)
    requires n <= |entries| && m in AllEligible(req, index, now, entries, n)
    ensures exists e :: 0 <= e < n && FromRecord(m, req, index, now, entries[e], |entries[e]|)
    decreases n
  {
    hide EligibleOf, FromRecord;
    if m in AllEligible(req, index, now, entries, n - 1) {
      AllEligibleFrom(req, index, now, entries, n - 1, m);
    } else {
      EligibleOfFrom(req, index, now, entries[n - 1], |entries[n - 1]|, m);
    }
  }

  /** In every run from an empty cache: once a message was marked for a token, no answer to a request of the
      token holds a message with its ID, as long as it has stayed stored and the token has stayed listed. */
  lemma {:induction false} MessageGivenOnce(cfg: Config, buckets: nat, slots: nat, states: seq<Cache>, evs: seq<Event>,
                                            i: nat, j: nat, id: Id, req: Request, answer: seq<Message>, max: int, bsize: nat)
    requires buckets > 0 && slots > 0 && IsRun(cfg, states, evs) && states[0] == EmptyCache(buckets, slots)
    requires i < j < |states| && AlignedUntil(cfg, states, j)
    requires MarksMessage(cfg, evs[i], id, req.token) && req.token != NO_TOKEN
    requires forall l | i < l <= j :: Present(states[l], id, req.token)
    requires IsAnswer(AnswerList(states[j], req), answer, max, bsize)
    ensures forall m | m in answer :: MessageId(cfg.sha, m.body) != Some(id)
  {
    hide EntriesOk, AcksOk, IsStep, EmptyCache, MarksMessage, SentTo, Present, MessageId, AllEligible, Eligible, BitsOk,
      MarkedSince, Fits, AlignedUntil, EntriesIn;
    EmptyCacheIsGood(cfg, buckets, slots);
    RunSized(cfg, states, evs);
    StaysMarked(cfg, states, evs, i, j, id, req.token);
    BitsMeanSent(cfg, states, evs, j, id, req.token);
    var s := states[j];
    RunOk(cfg, states, evs, j);
    forall m | m in answer ensures MessageId(cfg.sha, m.body) != Some(id) {
      var index := RequestIndex(s, req);
      assert m in AnswerList(s, req);
      AllEligibleFrom(req, index, s.now, s.entries, |s.entries|, m);
      var e :| 0 <= e < |s.entries| && FromRecord(m, req, index, s.now, s.entries[e], |s.entries[e]|);
      var k :| 0 <= k < |s.entries[e]| && Eligible(req, index, s.now, s.entries[e][k]) && m.body == s.entries[e][k].body;
      RecordHasItsId(cfg, buckets, slots, states, evs, j, e, k);
      if s.entries[e][k].id == id {
        MarkedIsNotEligible(cfg, s, id, req, e, k);
      }
    }
  }
}
