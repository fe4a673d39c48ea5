/** Where answers to data requests do not have the properties that the program counts on. */
module AnswerLimits {
  import opened Answers
  import opened Base
  import opened Packets
  import opened PcacheInvariants
  import opened PcacheModel
  import opened Records
  import opened Memo
  import opened Requests
  import opened Samples
  import opened TokenBits

  /** A reachable state answers a request, for which no memo bit is set, in this way. */
  ghost predicate Answered(cfg: Config, s: Cache, req: Request, answer: seq<Message>, max: int, bsize: nat) {
    Reachable(cfg, s) && !MemoSet(s, req) && IsAnswer(AnswerList(s, req), answer, max, bsize)
  }

  // ---------------------------------------------------------------------------
  // Order
  // ---------------------------------------------------------------------------

  ghost predicate Descending(ms: seq<Message>) {
    forall i, j | 0 <= i < j < |ms| :: ms[i].priority >= ms[j].priority
  }

  ghost predicate AlwaysDescending(cfg: Config, max: int, bsize: nat) {
    forall s, req, answer | Answered(cfg, s, req, answer, max, bsize) :: Descending(answer)
  }

  /** Answers are in descending priority when they are limited to one message, and, with a buffer for two
      small messages, only then. */
  lemma {:induction false} AnswerOrderIff(cfg: Config, max: int, bsize: nat)
    ensures max == 1 ==> AlwaysDescending(cfg, max, bsize)
    ensures bsize >= 2 * (MESSAGE_STRUCT_SIZE + LEAST_ACK_REQUEST) ==> (AlwaysDescending(cfg, max, bsize) <==> max == 1)
  {
    hide Reachable, MemoSet;
    if max == 1 {
      forall s, req, answer | Answered(cfg, s, req, answer, max, bsize) ensures Descending(answer) {
        assert |answer| <= 1;
      }
    } else if bsize >= 2 * (MESSAGE_STRUCT_SIZE + LEAST_ACK_REQUEST) {
      var s, req, answer := WrongOrder(cfg, max, bsize);
    }
  }

  /** The state after two messages were saved, the second with the higher priority. */
  function TwoMessages(): (s: Cache) {
    EmptyCache(1, 1).(entries := [[Sample(FIRST_ID, LEAST_ACK_REQUEST, 0), Sample(SECOND_ID, LEAST_ACK_REQUEST, 1)]])
  }

  lemma {:induction false} TwoMessagesReached(cfg: Config)
    ensures Reachable(cfg, TwoMessages())
  {
    hide Reachable, IsStep, AckRequest, MessageId, TotalSize;
    var s := OneMessage(FIRST_ID, LEAST_ACK_REQUEST, 0);
    OneMessageReached(cfg, FIRST_ID, LEAST_ACK_REQUEST, 0);
    SampleSize(FIRST_ID, LEAST_ACK_REQUEST, 0);
    AckRequestId(cfg.sha, SECOND_ID, LEAST_ACK_REQUEST, 0);
    SaveFits(cfg, s, AckRequest(SECOND_ID, LEAST_ACK_REQUEST), SECOND_ID, 1);
    assert s.entries[0] + [Sample(SECOND_ID, LEAST_ACK_REQUEST, 1)] == TwoMessages().entries[0];
    NextIsReachable(cfg, s, SaveSample(SECOND_ID, LEAST_ACK_REQUEST, 1), TwoMessages());
  }

  lemma {:induction false} WrongOrder(cfg: Config, max: int, bsize: nat) returns (s: Cache, req: Request, answer: seq<Message>)
    requires max != 1 && bsize >= 2 * (MESSAGE_STRUCT_SIZE + LEAST_ACK_REQUEST)
    ensures Answered(cfg, s, req, answer, max, bsize) && !Descending(answer)
  {
    hide Reachable, AckRequest, Expired, Within;
    s := TwoMessages();
    req := Request(NO_TOKEN, _ => true);
    TwoMessagesReached(cfg);
    AckRequestId(cfg.sha, FIRST_ID, LEAST_ACK_REQUEST, 0);
    AckRequestId(cfg.sha, SECOND_ID, LEAST_ACK_REQUEST, 0);
    var a, b := Message(AckRequest(FIRST_ID, LEAST_ACK_REQUEST), 0), Message(AckRequest(SECOND_ID, LEAST_ACK_REQUEST), 1);
    answer := [a, b];
    TwoEligible(req, s.entries[0]);
    assert [a, b][..1] == [a] && [a][..0] == [];
    assert BufferUse([a]) == MESSAGE_STRUCT_SIZE + LEAST_ACK_REQUEST;
    assert answer[0].priority < answer[1].priority;
  }

  lemma {:induction false} TwoEligible(req: Request, rs: seq<Rec>)
    requires |rs| == 2 && Eligible(req, None, 0, rs[0]) && Eligible(req, None, 0, rs[1])
    ensures AllEligible(req, None, 0, [rs], 1) == [Message(rs[0].body, rs[0].priority), Message(rs[1].body, rs[1].priority)]
  {
    hide Eligible;
    assert EligibleOf(req, None, 0, rs, 1) == [Message(rs[0].body, rs[0].priority)];
    assert AllEligible(req, None, 0, [rs], 0) == [];
  }

  // ---------------------------------------------------------------------------
  // Empty answers
  // ---------------------------------------------------------------------------

  /** The memo bit that an empty answer sets is right, in every reachable state. */
  ghost predicate EmptyIsRight(cfg: Config, max: int, bsize: nat) {
    forall s, req | Answered(cfg, s, req, [], max, bsize) :: |s.tokens| <= MAX_TOKENS && MemoOk(Memoized(s, req))
  }

  /** The memo that empty answers set is right exactly when the buffer has room for one largest message. */
  lemma {:induction false} EmptyIsRightIff(cfg: Config, max: int, bsize: nat)
    ensures EmptyIsRight(cfg, max, bsize) <==> bsize >= MESSAGE_STRUCT_SIZE + ALLNET_MTU
  {
    hide Answered, Memoized, MemoOk;
    if bsize >= MESSAGE_STRUCT_SIZE + ALLNET_MTU {
      forall s, req | Answered(cfg, s, req, [], max, bsize) ensures |s.tokens| <= MAX_TOKENS && MemoOk(Memoized(s, req)) {
        EmptyMemoOk(cfg, s, req, max, bsize);
      }
    } else {
      var s, req := WrongMemo(cfg, max, bsize);
    }
  }

  lemma {:induction false} EmptyMemoOk(cfg: Config, s: Cache, req: Request, max: int, bsize: nat)
    requires Answered(cfg, s, req, [], max, bsize) && bsize >= MESSAGE_STRUCT_SIZE + ALLNET_MTU
    ensures |s.tokens| <= MAX_TOKENS && MemoOk(Memoized(s, req))
  {
    hide Reachable, EntriesOk, AcksOk, IsAnswer, AnswerList, Memoized, MemoOk;
    ReachableOk(cfg, s);
    ReachableMemo(cfg, s);
    EmptyAnswerMeansNothing(cfg, s, req, [], max, bsize);
    RequestMemo(s, req);
  }

  /** The token is listed, a largest message is stored, and the buffer is too small for it. */
  lemma {:induction false} WrongMemo(cfg: Config, max: int, bsize: nat) returns (s: Cache, req: Request)
    requires bsize < MESSAGE_STRUCT_SIZE + ALLNET_MTU
    ensures Answered(cfg, s, req, [], max, bsize) && |s.tokens| <= MAX_TOKENS && !MemoOk(Memoized(s, req))
  {
    hide Reachable, AckRequest, Expired, MessageId, Within;
    var m := AckRequest(FIRST_ID, ALLNET_MTU);
    AckRequestId(cfg.sha, FIRST_ID, ALLNET_MTU, 0);
    s := Listed(cfg, SECOND_ID, m);
    req := Request(SECOND_ID, _ => true);
    ListedReached(cfg, SECOND_ID, m);
    assert FindToken([SECOND_ID], SECOND_ID, 1) == Some(0);
    OneEligible(req, s.entries[0]);
    assert [Message(m, 0)][..1] == [Message(m, 0)] && [Message(m, 0)][..0] == [];
    var s' := Memoized(s, req);
    assert 0 in s'.zero && s'.asked[0] == req;
    assert Eligible(req, Some(0), 0, s'.entries[0][0]);
    assert !MemoBitOk(s', 0);
  }

  lemma {:induction false} OneEligible(req: Request, rs: seq<Rec>)
    requires |rs| == 1 && Eligible(req, Some(0), 0, rs[0])
    ensures AllEligible(req, Some(0), 0, [rs], 1) == [Message(rs[0].body, rs[0].priority)]
  {
    hide Eligible;
    assert EligibleOf(req, Some(0), 0, rs, 0) == [];
    assert AllEligible(req, Some(0), 0, [rs], 0) == [];
  }
}
