/** No ack is handed out twice to a token that stays listed, while the ack is remembered. */
module AcksOnce {
  import opened Base
  import opened Bloom
  import opened Packets
  import opened PcacheInvariants
  import opened PcacheModel
  import opened Records
  import opened Remembering
  import opened TokenBits
  import opened TokenMeaning

  /** The ack is in the filter, or its ID has an entry. */
  ghost predicate AckRemembered(cfg: Config, s: Cache, ack: Id)
    requires Sized(s)
  {
    Contains(s.bloom, ACK_FILTER, ack) || HasEntry(s.acks, cfg.sha(ack))
  }

  /** If the ack has an entry, the entry says it was sent to the token. */
  ghost predicate Given(cfg: Config, s: Cache, ack: Id, t: Token)
    requires Sized(s)
  {
    HasEntry(s.acks, cfg.sha(ack)) ==> AckSentTo(s, cfg.sha(ack), t)
  }

  lemma {:induction false} GivenIsRefused(cfg: Config, s: Cache, ack: Id, t: Token, stray: Bits, picks: seq<seq<nat>>)
    requires TablesOk(cfg, s) && AckRemembered(cfg, s, ack) && Given(cfg, s, ack, t)
    requires |picks| == |s.acks| / ACKS_PER_SLOT
    ensures !AckForToken(cfg, s, t, ack, stray, picks).1
  {
    hide EntriesOk, AckOk, AfterLookup, Contains, Gc;
    if !Contains(s.bloom, ACK_FILTER, ack) {
      var s1 := Looked(s, ACK_FILTER, ack);
      var x := cfg.sha(ack);
      InAcksIff(cfg, s, x);
      var i :| 0 <= i < |s.acks| && AckSentAt(s.acks, s.tokens, i, x, t);
      assert UsedFor(s.acks, i, x) && AckIndex(s.acks, x).Some?;
      assert i == AckIndex(s.acks, x).value;
      var f := FindToken(s.tokens, t, |s.tokens|);
      MeaningHas(s.tokens, s.acks[i].sent, f.value);
    }
  }

  lemma {:induction false} GcEntriesFewer(cfg: Config, s: Cache, eindex: int, msize: nat, picks: seq<seq<nat>>, id: Id)
    requires Sized(s) && |picks| == |s.acks| / ACKS_PER_SLOT
    ensures HasEntry(Gc(cfg, s, eindex, msize, picks).acks, id) ==> HasEntry(s.acks, id)
  {
    hide GcEntries, GcEntriesBloom, GcSlots;
    GcSlotsFewer(cfg.order, s.acks, s.bloom, picks, TokenShift(|s.tokens|), |picks|);
    FewerEntries(s.acks, Gc(cfg, s, eindex, msize, picks).acks, id);
  }

  /** A new entry appears only when an ack for the ID is saved that is not in the filter. */
  lemma {:induction false} NewEntry(cfg: Config, s: Cache, ev: Event, s': Cache, id: Id)
    requires TablesOk(cfg, s) && IsStep(cfg, s, ev, s')
    requires HasEntry(s'.acks, id)
    ensures HasEntry(s.acks, id) ||
            (ev.AckEvent? && cfg.sha(ev.ack) == id && !Contains(s.bloom, ACK_FILTER, ev.ack))
  {
    hide EntriesOk, AcksOk, GcChoices, Contains, Note, AfterLookup, Answerable, Gc, TokenToSendTo, PutAck,
      MessageId, TotalSize, FindRec, HasEntry, PlaceFor;
    match ev
    case SaveEvent(message, priority, picks) =>
      if MessageId(cfg.sha, message).Some? {
        var saved := MessageId(cfg.sha, message).value;
        var s2 := Looked(s, MESSAGE_FILTER, saved).(zero := {}, asked := map[]);
        GcEntriesFewer(cfg, s2, Bucket(s, saved), |message|, picks, id);
      }
    case AckEvent(ack, maxHops, picks) =>
      if !Contains(s.bloom, ACK_FILTER, ack) {
        SaveAckEntries(cfg, s, ack, maxHops, picks, id);
      }
    case AckForEvent(token, ack, stray, picks) =>
      var s1 := Looked(s, ACK_FILTER, ack);
      if !Contains(s.bloom, ACK_FILTER, ack) {
        var a := AckIndex(s1.acks, cfg.sha(ack));
        var bitmap := if a.Some? then s1.acks[a.value].sent else stray;
        TokenToSendToOk(cfg, s1, token, bitmap, picks);
        FewerEntries(s1.acks, s'.acks, id);
      }
    case MarkEvent(token, message, picks) =>
      if MessageId(cfg.sha, message).Some? {
        TokenToSendToOk(cfg, s, token, {}, picks);
        FewerEntries(s.acks, TokenToSendTo(cfg, s, token, {}, picks).0.acks, id);
      }
    case _ =>
  }

  lemma {:induction false} SaveAckEntries(cfg: Config, s: Cache, ack: Id, maxHops: nat, picks: seq<seq<nat>>, id: Id)
    requires TablesOk(cfg, s) && GcChoices(cfg, s, picks) && !Contains(s.bloom, ACK_FILTER, ack)
    ensures SaveAck(cfg, s, ack, maxHops, picks).Some?
    ensures HasEntry(SaveAck(cfg, s, ack, maxHops, picks).value.acks, id) ==> HasEntry(s.acks, id) || id == cfg.sha(ack)
  {
    hide EntriesOk, AcksOk, ValidChoices, Contains, AfterLookup, Gc, PutAck, HasEntry, PlaceFor;
    SaveAckOk(cfg, s, ack, maxHops, picks);
    var s1 := Looked(s, ACK_FILTER, ack);
    var x := cfg.sha(ack);
    var s' := SaveAck(cfg, s, ack, maxHops, picks).value;
    if AckIndex(s.acks, x).Some? {
      FewerEntries(s.acks, s'.acks, id);
    } else {
      GcOk(cfg, s1, -1, 0, picks);
      GcEntriesFewer(cfg, s1, -1, 0, picks, id);
      var s2 := if PlaceFor(s.acks, x).None? then Gc(cfg, s1, -1, 0, picks) else s1;
      PutAckTables(cfg, s2, PlaceFor(s2.acks, x).value, ack, maxHops, id);
    }
  }

  /** No other ack with the same hash is saved. */
  predicate NoCollision(cfg: Config, ev: Event, ack: Id) {
    ev.AckEvent? && cfg.sha(ev.ack) == cfg.sha(ack) ==> ev.ack == ack
  }

  lemma {:induction false} StepKeepsGiven(cfg: Config, s: Cache, ev: Event, s': Cache, ack: Id, t: Token)
    requires Aligned(cfg.order, |s.tokens|) && TablesOk(cfg, s) && BitsOk(s) && IsStep(cfg, s, ev, s') && NoCollision(cfg, ev, ack)
    requires AckRemembered(cfg, s, ack) && t in s'.tokens && Sized(s')
    requires Given(cfg, s, ack, t) || MarksAck(cfg, s, ev, cfg.sha(ack), t)
    ensures Given(cfg, s', ack, t)
  {
    hide EntriesOk, AcksOk, BitsOk, Step, GcChoices, Contains, SentTo, AckSentTo, HasEntry, InMessages;
    var x := cfg.sha(ack);
    StepMeaning(cfg, s, ev, s', x, t);
    if HasEntry(s'.acks, x) {
      NewEntry(cfg, s, ev, s', x);
    }
  }

  /** The state is one in which the token is listed and the ack is remembered. */
  ghost predicate Tracks(cfg: Config, s: Cache, ack: Id, t: Token) {
    Sized(s) && t in s.tokens && AckRemembered(cfg, s, ack)
  }

  /** In every run: once an ack was handed to a token, it is not handed to it again as long as the token
      has stayed listed and the ack has stayed remembered. */
  lemma {:induction false} AckGivenOnce(cfg: Config, states: seq<Cache>, evs: seq<Event>, i: nat, j: nat,
                                        ack: Id, t: Token, stray: Bits, picks: seq<seq<nat>>)
    requires IsRun(cfg, states, evs) && TablesOk(cfg, states[0]) && BitsOk(states[0])
    requires i < j < |states| && AlignedUntil(cfg, states, j)
    requires Sized(states[i]) && MarksAck(cfg, states[i], evs[i], cfg.sha(ack), t) && evs[i].ack == ack
    requires forall k | i < k <= j :: Tracks(cfg, states[k], ack, t)
    requires forall k | i <= k < j :: NoCollision(cfg, evs[k], ack)
    requires |picks| == |states[j].acks| / ACKS_PER_SLOT
    ensures TablesOk(cfg, states[j]) && !AckForToken(cfg, states[j], t, ack, stray, picks).1
  {
    hide EntriesOk, AcksOk, BitsOk, Step, ValidEvent, WellSized, Contains, AckSentTo, HasEntry, Given;
    RunBitsOk(cfg, states, evs, j);
    StaysGiven(cfg, states, evs, i, j, ack, t);
    GivenIsRefused(cfg, states[j], ack, t, stray, picks);
  }

  lemma {:induction false} StaysGiven(cfg: Config, states: seq<Cache>, evs: seq<Event>, i: nat, j: nat, ack: Id, t: Token)
    requires IsRun(cfg, states, evs) && TablesOk(cfg, states[0]) && BitsOk(states[0])
    requires i < j < |states| && AlignedUntil(cfg, states, j)
    requires Sized(states[i]) && MarksAck(cfg, states[i], evs[i], cfg.sha(ack), t) && evs[i].ack == ack
    requires forall k | i < k <= j :: Tracks(cfg, states[k], ack, t)
    requires forall k | i <= k < j :: NoCollision(cfg, evs[k], ack)
    ensures Sized(states[j]) && Given(cfg, states[j], ack, t)
    decreases j
  {
    hide EntriesOk, AcksOk, BitsOk, Step, ValidEvent, WellSized, Contains, AckSentTo, HasEntry, Given, NoCollision;
    RunBitsOk(cfg, states, evs, j - 1);
    assert IsStep(cfg, states[j - 1], evs[j - 1], states[j]);
    assert Tracks(cfg, states[j], ack, t);
    if i == j - 1 {
      FirstGiven(cfg, states[i], evs[i], states[j], ack, t);
    } else {
      StaysGiven(cfg, states, evs, i, j - 1, ack, t);
      assert Tracks(cfg, states[j - 1], ack, t);
      StepKeepsGiven(cfg, states[j - 1], evs[j - 1], states[j], ack, t);
    }
  }

  lemma {:induction false} FirstGiven(cfg: Config, s: Cache, ev: Event, s': Cache, ack: Id, t: Token)
    requires Aligned(cfg.order, |s.tokens|) && TablesOk(cfg, s) && BitsOk(s) && IsStep(cfg, s, ev, s')
    requires MarksAck(cfg, s, ev, cfg.sha(ack), t) && t in s'.tokens && Sized(s')
    ensures Given(cfg, s', ack, t)
  {
    hide EntriesOk, AcksOk, BitsOk, Step, GcChoices, Contains, SentTo, AckSentTo, HasEntry, InMessages;
    StepMeaning(cfg, s, ev, s', cfg.sha(ack), t);
  }

  // ---------------------------------------------------------------------------
  // A packet of acks
  // ---------------------------------------------------------------------------

  /** pcache_acks_for_token on the first `n` acks: the state after, and the acks kept, in order. */
  ghost function AcksForToken(cfg: Config, s: Cache, token: Token, acks: seq<Id>, stray: Bits, picks: seq<seq<seq<nat>>>, n: nat)
    : (r: (Cache, seq<Id>))
    requires TablesOk(cfg, s) && n <= |acks| == |picks|
    requires forall k | 0 <= k < |picks| :: |picks[k]| == |s.acks| / ACKS_PER_SLOT
    ensures TablesOk(cfg, r.0) && |r.0.acks| == |s.acks|
  {
    if n == 0 then (s, [])
    else
      var r := AcksForToken(cfg, s, token, acks, stray, picks, n - 1);
      var a := AckForToken(cfg, r.0, token, acks[n - 1], stray, picks[n - 1]);
      AckForTokenOk(cfg, r.0, token, acks[n - 1], stray, picks[n - 1]);
      (a.0, if a.1 then r.1 + [acks[n - 1]] else r.1)
  }

  /** The bitmaps are safe and the gc picks valid in each call, and after each call the acks kept so far are remembered and
      the token is listed. */
  ghost predicate BatchTracks(cfg: Config, s: Cache, token: Token, acks: seq<Id>, stray: Bits, picks: seq<seq<seq<nat>>>, n: nat)
    requires TablesOk(cfg, s) && n <= |acks| == |picks|
    requires forall k | 0 <= k < |picks| :: |picks[k]| == |s.acks| / ACKS_PER_SLOT
  {
    && (n > 0 ==> BatchTracks(cfg, s, token, acks, stray, picks, n - 1)
                  && Aligned(cfg.order, |AcksForToken(cfg, s, token, acks, stray, picks, n - 1).0.tokens|)
                  && GcChoices(cfg, AcksForToken(cfg, s, token, acks, stray, picks, n - 1).0, picks[n - 1]))
    && forall a | a in AcksForToken(cfg, s, token, acks, stray, picks, n).1 ::
         Tracks(cfg, AcksForToken(cfg, s, token, acks, stray, picks, n).0, a, token)
  }

  /** The acks that a packet keeps are pairwise distinct. */
  lemma {:induction false} BatchKeepsEachOnce(cfg: Config, s: Cache, token: Token, acks: seq<Id>, stray: Bits,
                                              picks: seq<seq<seq<nat>>>, n: nat)
    requires TablesOk(cfg, s) && BitsOk(s) && n <= |acks| == |picks|
    requires forall k | 0 <= k < |picks| :: |picks[k]| == |s.acks| / ACKS_PER_SLOT
    requires BatchTracks(cfg, s, token, acks, stray, picks, n)
    ensures var r := AcksForToken(cfg, s, token, acks, stray, picks, n);
            && BitsOk(r.0) && Distinct(r.1)
            && forall a | a in r.1 :: Given(cfg, r.0, a, token)
    decreases n
  {
    hide EntriesOk, AcksOk, BitsOk, GcChoices, Contains, HasEntry, Given, AckForToken;
    if n > 0 {
      BatchKeepsEachOnce(cfg, s, token, acks, stray, picks, n - 1);
      var r := AcksForToken(cfg, s, token, acks, stray, picks, n - 1);
      var r' := AcksForToken(cfg, s, token, acks, stray, picks, n);
      BatchStep(cfg, r.0, r'.0, token, acks[n - 1], stray, picks[n - 1]);
      if acks[n - 1] in r.1 {
        assert Tracks(cfg, r.0, acks[n - 1], token);
        GivenIsRefused(cfg, r.0, acks[n - 1], token, stray, picks[n - 1]);
      }
      forall a | a in r'.1 ensures Given(cfg, r'.0, a, token) {
        assert Tracks(cfg, r'.0, a, token);
        if a in r.1 {
          assert Tracks(cfg, r.0, a, token);
          StepKeepsGiven(cfg, r.0, AckForEvent(token, acks[n - 1], stray, picks[n - 1]), r'.0, a, token);
        } else {
          KeptIsMarked(cfg, r.0, token, a, stray, picks[n - 1]);
          FirstGiven(cfg, r.0, AckForEvent(token, a, stray, picks[n - 1]), r'.0, a, token);
        }
      }
    }
  }

  /** The acks kept are a subsequence of those given, in the same order. */
  lemma {:induction false} BatchIsSubsequence(cfg: Config, s: Cache, token: Token, acks: seq<Id>, stray: Bits,
                                              picks: seq<seq<seq<nat>>>, n: nat) returns (at: seq<nat>)
    requires TablesOk(cfg, s) && n <= |acks| == |picks|
    requires forall k | 0 <= k < |picks| :: |picks[k]| == |s.acks| / ACKS_PER_SLOT
    ensures var kept := AcksForToken(cfg, s, token, acks, stray, picks, n).1;
            && |at| == |kept|
            && (forall k | 0 <= k < |at| :: at[k] < n && acks[at[k]] == kept[k])
            && forall j, k | 0 <= j < k < |at| :: at[j] < at[k]
    decreases n
  {
    hide EntriesOk, AcksOk, AckForToken;
    at := [];
    if n > 0 {
      at := BatchIsSubsequence(cfg, s, token, acks, stray, picks, n - 1);
      if AckForToken(cfg, AcksForToken(cfg, s, token, acks, stray, picks, n - 1).0, token, acks[n - 1], stray, picks[n - 1]).1 {
        at := at + [n - 1];
      }
    }
  }

  lemma {:induction false} BatchStep(cfg: Config, s: Cache, s': Cache, token: Token, ack: Id, stray: Bits, picks: seq<seq<nat>>)
    requires Aligned(cfg.order, |s.tokens|) && TablesOk(cfg, s) && BitsOk(s) && GcChoices(cfg, s, picks)
    requires s' == AckForToken(cfg, s, token, ack, stray, picks).0
    ensures IsStep(cfg, s, AckForEvent(token, ack, stray, picks), s')
    ensures Sized(s') && BitsOk(s')
  {
    hide EntriesOk, AcksOk, BitsOk, ValidChoices, AckForToken, Contains, SentTo, AckSentTo;
    StepMeaning(cfg, s, AckForEvent(token, ack, stray, picks), s', NO_TOKEN, NO_TOKEN);
  }

  lemma {:induction false} KeptIsMarked(cfg: Config, s: Cache, token: Token, ack: Id, stray: Bits, picks: seq<seq<nat>>)
    requires Sized(s) && |s.tokens| <= MAX_TOKENS && |picks| == |s.acks| / ACKS_PER_SLOT
    requires AckForToken(cfg, s, token, ack, stray, picks).1
    ensures MarksAck(cfg, s, AckForEvent(token, ack, stray, picks), cfg.sha(ack), token)
  {
    hide TokenToSendTo, AfterLookup, Contains, AckIndex;
  }
}
