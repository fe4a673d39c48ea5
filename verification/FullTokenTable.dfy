/** The first gc of a full token table: on which hosts the bitmaps of messages go on telling the truth. */
module FullTokenTable {
  import opened Base
  import opened Integrity
  import opened MessageGc
  import opened MessagesOnce
  import opened Packets
  import opened PcacheInvariants
  import opened PcacheModel
  import opened Records
  import opened Samples
  import opened TokenBits
  import opened TokenMeaning

  /** At the end of the run a stored message has the bit of a listed token exactly if it was marked for it. */
  ghost predicate BitsTrue(cfg: Config, states: seq<Cache>, evs: seq<Event>) {
    && |states| == |evs| + 1 && (forall j | 0 <= j < |states| :: Sized(states[j]))
    && forall id, t :: SentTo(states[|evs|], id, t) <==> MarkedSince(cfg, states, evs, |evs|, id, t)
  }

  ghost predicate AlwaysTrue(cfg: Config) {
    forall buckets, slots, states, evs, s | RunTo(cfg, buckets, slots, states, evs, s) :: BitsTrue(cfg, states, evs)
  }

  /** In all runs from an empty cache the bits tell the truth if and only if the host stores words most
      significant byte first. */
  lemma {:induction false} AlwaysTrueIff(cfg: Config)
    ensures AlwaysTrue(cfg) <==> cfg.order.MostSignificantFirst?
  {
    hide RunTo, BitsTrue;
    if cfg.order.MostSignificantFirst? {
      forall buckets, slots, states, evs, s | RunTo(cfg, buckets, slots, states, evs, s) ensures BitsTrue(cfg, states, evs) {
        TrueOnMostSignificantFirst(cfg, buckets, slots, states, evs, s);
      }
    } else {
      var buckets, slots, states, evs, s := WrongRun(cfg);
    }
  }

  lemma {:induction false} TrueOnMostSignificantFirst(cfg: Config, buckets: nat, slots: nat, states: seq<Cache>, evs: seq<Event>, s: Cache)
    requires RunTo(cfg, buckets, slots, states, evs, s) && cfg.order.MostSignificantFirst?
    ensures BitsTrue(cfg, states, evs)
  {
    hide EntriesOk, AcksOk, BitsOk, IsStep, EmptyCache, SentTo, MarkedSince, EntriesIn;
    EmptyCacheIsGood(cfg, buckets, slots);
    forall j | 0 <= j < |states| ensures Sized(states[j]) {
      RunOk(cfg, states, evs, j);
    }
    forall id, t ensures SentTo(states[|evs|], id, t) <==> MarkedSince(cfg, states, evs, |evs|, id, t) {
      BitsMeanSent(cfg, states, evs, |evs|, id, t);
    }
  }

  // ---------------------------------------------------------------------------
  // A run of 64 tokens and one more
  // ---------------------------------------------------------------------------

  function Numbered(i: nat): (t: Token)
    requires i < 255
  {
    [i + 1, 0, 0, 0, 0, 0, 0, 0, 0, 0, 0, 0, 0, 0, 0, 0]
  }

  function FirstTokens(n: nat): (ts: seq<Token>)
    requires n <= MAX_TOKENS
  {
    seq(n, i requires 0 <= i < n => Numbered(i))
  }

  /** The message whose bits matter is stored, and there are `n` tokens. */
  function Tokens(n: nat): (s: Cache)
    requires n <= MAX_TOKENS
  {
    OneMessage(FIRST_ID, LEAST_ACK_REQUEST, 0).(tokens := FirstTokens(n))
  }

  /** A message that is not stored; marking it only lists the token. */
  function Other(): (m: seq<Byte>) {
    AckRequest(SECOND_ID, LEAST_ACK_REQUEST)
  }

  lemma {:induction false} TokenIndex(n: nat, i: nat, m: nat)
    requires i < 255 && m <= n <= MAX_TOKENS
    ensures FindToken(FirstTokens(n), Numbered(i), m) == if i < m then Some(i) else None
    decreases m
  {
    if m > 0 {
      TokenIndex(n, i, m - 1);
      assert FirstTokens(n)[m - 1] == Numbered(m - 1);
      assert Numbered(m - 1)[0] == m && Numbered(i)[0] == i + 1;
    }
  }

  lemma {:induction false} OtherIsNew(s: Cache)
    requires |s.entries| == 1 && |s.entries[0]| == 1 && s.entries[0][0].id == FIRST_ID
    ensures FindRec(s.entries[0], SECOND_ID, 1).None? && FindRec(s.entries[0], FIRST_ID, 1) == Some(0)
  {
  }

  lemma {:induction false} TokensReached(cfg: Config, n: nat)
    requires n <= MAX_TOKENS
    ensures Reachable(cfg, Tokens(n))
    decreases n
  {
    hide Reachable, IsStep, AckRequest;
    if n == 0 {
      OneMessageReached(cfg, FIRST_ID, LEAST_ACK_REQUEST, 0);
      assert FirstTokens(0) == [];
    } else {
      TokensReached(cfg, n - 1);
      OneMore(cfg, n - 1);
      NextIsReachable(cfg, Tokens(n - 1), MarkEvent(Numbered(n - 1), Other(), [[]]), Tokens(n));
    }
  }

  lemma {:induction false} OneMore(cfg: Config, n: nat)
    requires n < MAX_TOKENS
    ensures IsStep(cfg, Tokens(n), MarkEvent(Numbered(n), Other(), [[]]), Tokens(n + 1))
  {
    hide AckRequest, MessageId, FirstTokens, GcChoices, Gc, ReadB64, FindRec;
    YoungEmpty();
    NoPicks(cfg, Tokens(n));
    AckRequestId(cfg.sha, SECOND_ID, LEAST_ACK_REQUEST, 0);
    TokenIndex(n, n, n);
    TokensNext(n);
    OtherIsNew(Tokens(n + 1));
  }

  lemma {:induction false} TokensNext(n: nat)
    requires n < MAX_TOKENS
    ensures FirstTokens(n + 1) == FirstTokens(n) + [Numbered(n)] && |FirstTokens(n)| == n
  {
  }

  /** With the full table, the message is marked for the token at index 16. */
  function Marked(): (s: Cache) {
    Tokens(MAX_TOKENS).(entries := [[Sample(FIRST_ID, LEAST_ACK_REQUEST, 0).(sent := {16})]])
  }

  lemma {:induction false} MarkStep(cfg: Config)
    ensures IsStep(cfg, Tokens(MAX_TOKENS), MarkEvent(Numbered(16), AckRequest(FIRST_ID, LEAST_ACK_REQUEST), [[]]), Marked())
  {
    hide AckRequest, MessageId, FirstTokens, GcChoices, Gc, ReadB64, FindRec;
    YoungEmpty();
    var s, r := Tokens(MAX_TOKENS), Sample(FIRST_ID, LEAST_ACK_REQUEST, 0);
    NoPicks(cfg, s);
    AckRequestId(cfg.sha, FIRST_ID, LEAST_ACK_REQUEST, 0);
    TokenIndex(MAX_TOKENS, 16, MAX_TOKENS);
    assert |FirstTokens(MAX_TOKENS)| == MAX_TOKENS by { TokensNext(MAX_TOKENS - 1); }
    OtherIsNew(s);
    assert {} + {16} == {16};
    assert s.entries[0][0 := r.(sent := {16})] == [r.(sent := {16})];
    assert s.entries[0 := [r.(sent := {16})]] == [[r.(sent := {16})]];
  }

  /** A minute later a 65th token comes. */
  function Late(): (s: Cache) {
    Marked().(now := TOKEN_GC_SECONDS)
  }

  ghost function Collected(cfg: Config): (s: Cache) {
    YoungEmpty();
    NoPicks(cfg, Late());
    FullSize();
    MarkSent(cfg, Late(), Numbered(MAX_TOKENS), Other(), [[]])
  }

  lemma {:induction false} FullSize()
    ensures |Late().tokens| == MAX_TOKENS
  {
  }

  lemma {:induction false} LateSteps(cfg: Config)
    ensures IsStep(cfg, Marked(), TimeEvent(TOKEN_GC_SECONDS), Late())
    ensures IsStep(cfg, Late(), MarkEvent(Numbered(MAX_TOKENS), Other(), [[]]), Collected(cfg))
  {
    hide AckRequest, GcChoices, MarkSent;
    YoungEmpty();
    NoPicks(cfg, Late());
    FullSize();
  }

  /** The record after the gc, which keeps it and shifts its bitmap. */
  lemma {:induction false} RecordAfter(order: ByteOrder, r: Rec)
    requires r == Sample(FIRST_ID, LEAST_ACK_REQUEST, 0).(sent := r.sent)
    ensures GcRecords(order, [r], 0, 16, TOKEN_GC_SECONDS) == [Shifted(order, r, 16)]
  {
    hide AckRequest, ShiftToken, Expired;
    AckRequestId(_ => FIRST_ID, FIRST_ID, LEAST_ACK_REQUEST, TOKEN_GC_SECONDS);
    var keep := Unexpired([r], TOKEN_GC_SECONDS);
    assert keep == [true];
    assert KeptSize([r], keep, 1) == KeptSize([r], keep, 0) + r.Size();
    assert Kept([r], 0, TOKEN_GC_SECONDS) == keep;
    assert Survivors(order, [r], keep, 16, 0) == [];
  }

  lemma {:induction false} AfterGc(cfg: Config)
    ensures var s := Collected(cfg);
            && Sized(s) && |s.entries| == 1
            && s.tokens == FirstTokens(MAX_TOKENS)[16..] + [Numbered(MAX_TOKENS)]
            && s.entries[0] == [Shifted(cfg.order, Sample(FIRST_ID, LEAST_ACK_REQUEST, 0).(sent := {16}), 16)]
  {
    hide AckRequest, MessageId, FirstTokens, GcSlots, GcEntriesBloom, GcRecords, ReadB64, FindRec, ShiftToken;
    YoungEmpty();
    NoPicks(cfg, Late());
    FullSize();
    AckRequestId(cfg.sha, SECOND_ID, LEAST_ACK_REQUEST, 0);
    TokenIndex(MAX_TOKENS, MAX_TOKENS, MAX_TOKENS);
    RecordAfter(cfg.order, Marked().entries[0][0]);
    var g := Gc(cfg, Late(), -1, 0, [[]]);
    assert g.entries[0] == GcRecords(cfg.order, Late().entries[0], 0, 16, TOKEN_GC_SECONDS);
    OtherIsNew(g);
  }

  /** The bit that was at 16 is at 32 now, where the table has the token that was 48th. */
  lemma {:induction false} WrongBit(cfg: Config)
    requires cfg.order.LeastSignificantFirst?
    ensures var s := Collected(cfg);
            && Sized(s) && InMessages(s, FIRST_ID) && Numbered(16) in s.tokens && !SentTo(s, FIRST_ID, Numbered(16))
            && Numbered(48) in s.tokens && SentTo(s, FIRST_ID, Numbered(48))
  {
    hide AckRequest, FirstTokens, ShiftToken, ReadB64, Collected, FindRec;
    var s := Collected(cfg);
    AfterGc(cfg);
    ShiftOnLeastSignificantFirst({16});
    ShiftedLeft();
    AfterTokens();
    OtherIsNew(s);
    assert s.entries[0][0].sent == {32};
    assert s.tokens[32] == Numbered(48) && s.tokens[0] == Numbered(16);
    assert Meaning(s.tokens, {32}) == {Numbered(48)};
    assert Numbered(16)[0] != Numbered(48)[0];
  }

  lemma {:induction false} ShiftedLeft()
    ensures ShiftLeft({16}, 16) == {32}
  {
  }

  lemma {:induction false} AfterTokens()
    ensures var ts := FirstTokens(MAX_TOKENS)[16..] + [Numbered(MAX_TOKENS)];
            |ts| == 49 && ts[0] == Numbered(16) && ts[32] == Numbered(48)
  {
  }

  lemma {:induction false} PresentThroughout(cfg: Config)
    requires cfg.order.LeastSignificantFirst?
    ensures Present(Marked(), FIRST_ID, Numbered(16)) && Present(Late(), FIRST_ID, Numbered(16))
    ensures Present(Collected(cfg), FIRST_ID, Numbered(16))
  {
    hide AckRequest, ReadB64, Collected, FindRec;
    WrongBit(cfg);
    OtherIsNew(Marked());
    OtherIsNew(Late());
    assert FirstTokens(MAX_TOKENS)[16] == Numbered(16);
  }

  /** On the other hosts the run ends with the message unmarked for a listed token that it was sent to. */
  lemma {:induction false} WrongRun(cfg: Config) returns (buckets: nat, slots: nat, states: seq<Cache>, evs: seq<Event>, s: Cache)
    requires cfg.order.LeastSignificantFirst?
    ensures RunTo(cfg, buckets, slots, states, evs, s) && !BitsTrue(cfg, states, evs)
  {
    hide IsStep, AckRequest, Tokens, Collected, Late, Marked, EmptyCache, SentTo, MarkedSince, MessageId, EntriesOk, AcksOk;
    var mark := MarkEvent(Numbered(16), AckRequest(FIRST_ID, LEAST_ACK_REQUEST), [[]]);
    var other := MarkEvent(Numbered(MAX_TOKENS), Other(), [[]]);
    TokensReached(cfg, MAX_TOKENS);
    var states0, evs0;
    buckets, slots, states0, evs0 :| RunTo(cfg, buckets, slots, states0, evs0, Tokens(MAX_TOKENS));
    s := Collected(cfg);
    MarkStep(cfg);
    LateSteps(cfg);
    RunLonger(cfg, buckets, slots, states0, evs0, Tokens(MAX_TOKENS), mark, Marked());
    RunLonger(cfg, buckets, slots, states0 + [Marked()], evs0 + [mark], Marked(), TimeEvent(TOKEN_GC_SECONDS), Late());
    var states1, evs1 := states0 + [Marked()] + [Late()], evs0 + [mark] + [TimeEvent(TOKEN_GC_SECONDS)];
    RunLonger(cfg, buckets, slots, states1, evs1, Late(), other, s);
    states, evs := states1 + [s], evs1 + [other];
    EmptyCacheOk(cfg, buckets, slots);
    RunSized(cfg, states, evs);
    PresentThroughout(cfg);
    WrongBit(cfg);
    AckRequestId(cfg.sha, FIRST_ID, LEAST_ACK_REQUEST, 0);
    var n := |evs0|;
    assert evs[n] == mark && states[n + 1] == Marked() && states[n + 2] == Late() && states[n + 3] == s;
    StaysMarked(cfg, states, evs, n, n + 3, FIRST_ID, Numbered(16));
  }
}
