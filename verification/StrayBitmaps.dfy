/**
 pcache_ack_for_token promises 1 for an ack not yet given to the token and 0 otherwise.  For an ack without an
 entry it reads the bitmap in front of the table.  When that decides, and when the promise holds.
 */
module StrayBitmaps {
  import opened AcksOnce
  import opened Base
  import opened Bloom
  import opened Daemon
  import opened Pcache
  import opened PcacheInvariants
  import opened PcacheModel
  import opened Remembering
  import opened Samples
  import opened SavedAcks
  import opened TokenBits
  import opened TokenMeaning

  /** Another bitmap in front of the table makes no difference to the state, nor to the answer. */
  lemma {:induction false} RememberedIgnoresStray(cfg: Config, s: Cache, t: Token, ack: Id, a: Bits, b: Bits, picks: seq<seq<nat>>)
    requires TablesOk(cfg, s) && |picks| == |s.acks| / ACKS_PER_SLOT && AckRemembered(cfg, s, ack)
    ensures AckForToken(cfg, s, t, ack, a, picks) == AckForToken(cfg, s, t, ack, b, picks)
  {
    hide EntriesOk, AcksOk, AfterLookup, Contains, TokenToSendTo, HasEntry;
    InAcksIff(cfg, s, cfg.sha(ack));
  }

  /** Whether the answer is the same whatever is found in front of the table. */
  ghost predicate IgnoresStray(cfg: Config, s: Cache, t: Token, ack: Id, picks: seq<seq<nat>>)
    requires Sized(s) && |picks| == |s.acks| / ACKS_PER_SLOT && |s.tokens| <= MAX_TOKENS
  {
    forall a: Bits, b: Bits :: AckForToken(cfg, s, t, ack, a, picks).1 == AckForToken(cfg, s, t, ack, b, picks).1
  }

  /** It decides exactly for a listed token and an ack that has no entry and is not in the filter. */
  lemma {:induction false} IgnoresStrayIff(cfg: Config, s: Cache, t: Token, ack: Id, picks: seq<seq<nat>>)
    requires TablesOk(cfg, s) && |picks| == |s.acks| / ACKS_PER_SLOT
    ensures IgnoresStray(cfg, s, t, ack, picks) <==> AckRemembered(cfg, s, ack) || t !in s.tokens
  {
    hide EntriesOk, AcksOk, AckForToken, AckRemembered;
    if AckRemembered(cfg, s, ack) {
      forall a: Bits, b: Bits ensures AckForToken(cfg, s, t, ack, a, picks).1 == AckForToken(cfg, s, t, ack, b, picks).1 {
        RememberedIgnoresStray(cfg, s, t, ack, a, b, picks);
      }
    } else if t !in s.tokens {
      forall a: Bits, b: Bits ensures AckForToken(cfg, s, t, ack, a, picks).1 == AckForToken(cfg, s, t, ack, b, picks).1 {
        UnlistedIgnoresStray(cfg, s, t, ack, a, b, picks);
      }
    } else {
      var i :| 0 <= i < |s.tokens| && s.tokens[i] == t;
      StrayDecides(cfg, s, t, ack, {}, picks, i);
      StrayDecides(cfg, s, t, ack, {i}, picks, i);
    }
  }

  lemma {:induction false} UnlistedIgnoresStray(cfg: Config, s: Cache, t: Token, ack: Id, a: Bits, b: Bits, picks: seq<seq<nat>>)
    requires TablesOk(cfg, s) && |picks| == |s.acks| / ACKS_PER_SLOT && t !in s.tokens
    ensures AckForToken(cfg, s, t, ack, a, picks).1 == AckForToken(cfg, s, t, ack, b, picks).1
  {
    hide EntriesOk, AcksOk, AfterLookup, Contains, AckIndex, Gc;
  }

  /** For such a token and ack nothing is remembered of the answer, and the bitmap alone decides it. */
  lemma {:induction false} StrayDecides(cfg: Config, s: Cache, t: Token, ack: Id, stray: Bits, picks: seq<seq<nat>>, i: nat)
    requires TablesOk(cfg, s) && |picks| == |s.acks| / ACKS_PER_SLOT && !AckRemembered(cfg, s, ack)
    requires i < |s.tokens| && s.tokens[i] == t
    ensures AckForToken(cfg, s, t, ack, stray, picks) == (s, i !in stray)
  {
    hide EntriesOk, AcksOk, Contains, HasEntry, Gc;
    InAcksIff(cfg, s, cfg.sha(ack));
    MissedLookup(s, ack);
    assert FindToken(s.tokens, t, |s.tokens|) == Some(i);
  }

  lemma {:induction false} MissedLookup(s: Cache, ack: Id)
    requires !Contains(s.bloom, ACK_FILTER, ack)
    ensures Looked(s, ACK_FILTER, ack) == s
  {
    LookupAnswers(s.bloom, ACK_FILTER, ack);
  }

  // ---------------------------------------------------------------------------
  // The promise
  // ---------------------------------------------------------------------------

  /** Whatever is in front of the table, the next call refuses the ack to the token. */
  ghost predicate RefusedNext(cfg: Config, s: Cache, t: Token, ack: Id)
    requires Sized(s) && |s.tokens| <= MAX_TOKENS
  {
    forall stray: Bits, picks: seq<seq<nat>> | |picks| == |s.acks| / ACKS_PER_SLOT ::
      !AckForToken(cfg, s, t, ack, stray, picks).1
  }

  /** An ack that was just given to a token is not given to it again if and only if it is remembered in the
      state that the first call left: it still has its entry, or has gone to the filter. */
  lemma {:induction false} RefusedNextIff(cfg: Config, s: Cache, t: Token, ack: Id, stray: Bits, picks: seq<seq<nat>>)
    requires TablesOk(cfg, s) && |picks| == |s.acks| / ACKS_PER_SLOT
    requires AckForToken(cfg, s, t, ack, stray, picks).1
    ensures var s' := AckForToken(cfg, s, t, ack, stray, picks).0;
            TablesOk(cfg, s') && (RefusedNext(cfg, s', t, ack) <==> AckRemembered(cfg, s', ack))
  {
    hide EntriesOk, AcksOk, AckForToken, AckRemembered, Given;
    var s' := AckForToken(cfg, s, t, ack, stray, picks).0;
    AckForTokenOk(cfg, s, t, ack, stray, picks);
    ListedStays(cfg, s, t, ack, stray, picks);
    AckForTokenSizes(cfg, s, t, ack, stray, picks);
    if AckRemembered(cfg, s', ack) {
      JustGiven(cfg, s, t, ack, stray, picks);
      forall more: Bits, again: seq<seq<nat>> | |again| == |s'.acks| / ACKS_PER_SLOT
        ensures !AckForToken(cfg, s', t, ack, more, again).1
      {
        GivenIsRefused(cfg, s', ack, t, more, again);
      }
    } else {
      var i :| 0 <= i < |s'.tokens| && s'.tokens[i] == t;
      StrayDecides(cfg, s', t, ack, {}, picks, i);
    }
  }

  lemma {:induction false} AckForTokenSizes(cfg: Config, s: Cache, t: Token, ack: Id, stray: Bits, picks: seq<seq<nat>>)
    requires TablesOk(cfg, s) && |picks| == |s.acks| / ACKS_PER_SLOT
    ensures |AckForToken(cfg, s, t, ack, stray, picks).0.acks| == |s.acks|
  {
    hide EntriesOk, AcksOk, AfterLookup, Contains, AckIndex, TokenToSendTo;
  }

  /** The entry of an ack that was given, if it is still in use, says so, on every host. */
  lemma {:induction false} JustGiven(cfg: Config, s: Cache, t: Token, ack: Id, stray: Bits, picks: seq<seq<nat>>)
    requires TablesOk(cfg, s) && |picks| == |s.acks| / ACKS_PER_SLOT
    requires AckForToken(cfg, s, t, ack, stray, picks).1
    ensures var s' := AckForToken(cfg, s, t, ack, stray, picks).0; Sized(s') && Given(cfg, s', ack, t)
  {
    hide EntriesOk, AcksOk, AfterLookup, Contains, AckIndex, TokenToSendTo, Meaning, AcksFewer;
    var s1, x := Looked(s, ACK_FILTER, ack), cfg.sha(ack);
    var s' := AckForToken(cfg, s, t, ack, stray, picks).0;
    AckForTokenOk(cfg, s, t, ack, stray, picks);
    var a := AckIndex(s1.acks, x);
    var bitmap := if a.Some? then s1.acks[a.value].sent else stray;
    var r := TokenToSendTo(cfg, s1, t, bitmap, picks);
    TokenToSendToOk(cfg, s1, t, bitmap, picks);
    IndexIsToken(cfg, s1, t, bitmap, picks);
    if HasEntry(s'.acks, x) {
      if a.None? {
        InAcksIff(cfg, s1, x);
        FewerEntries(s1.acks, r.0.acks, x);
      } else {
        OnlyEntry(cfg, s1.acks, r.0.acks, a.value, x);
        MeaningOfSet(s'.tokens, r.0.acks[a.value].sent, r.1.value);
        var i: nat :| UsedFor(s'.acks, i, x);
        assert UsedFor(r.0.acks, i, x);
        HasAckSent(s', i, x, t);
      }
    }
  }

  lemma {:induction false} IndexIsToken(cfg: Config, s: Cache, t: Token, bitmap: Bits, picks: seq<seq<nat>>)
    requires TablesOk(cfg, s) && |picks| == |s.acks| / ACKS_PER_SLOT
    ensures var r := TokenToSendTo(cfg, s, t, bitmap, picks);
            r.1.Some? ==> r.1.value < |r.0.tokens| && r.0.tokens[r.1.value] == t
  {
    hide EntriesOk, AcksOk, Gc;
  }

  /** While no gc intervenes, that is exactly when the ack has an entry before the call. */
  lemma {:induction false} GivenOnceIff(cfg: Config, s: Cache, t: Token, ack: Id, stray: Bits, picks: seq<seq<nat>>)
    requires TablesOk(cfg, s) && |picks| == |s.acks| / ACKS_PER_SLOT && (t in s.tokens || |s.tokens| < MAX_TOKENS)
    requires AckForToken(cfg, s, t, ack, stray, picks).1
    ensures var s' := AckForToken(cfg, s, t, ack, stray, picks).0;
            TablesOk(cfg, s') && (RefusedNext(cfg, s', t, ack) <==> HasEntry(s.acks, cfg.sha(ack)))
  {
    hide EntriesOk, AcksOk, RefusedNext, Contains, HasEntry, AckIndex, AfterLookup, Gc;
    RefusedNextIff(cfg, s, t, ack, stray, picks);
    MissedLookup(s, ack);
    var s' := AckForToken(cfg, s, t, ack, stray, picks).0;
    SameUseEntries(s.acks, s'.acks, cfg.sha(ack));
  }

  lemma {:induction false} SameUseEntries(acks: seq<Ack>, acks': seq<Ack>, x: Id)
    requires |acks| == |acks'|
    requires forall i | 0 <= i < |acks| :: acks[i].used == acks'[i].used && acks[i].id == acks'[i].id
    ensures HasEntry(acks, x) <==> HasEntry(acks', x)
  {
    if i: nat :| UsedFor(acks, i, x) {
      assert UsedFor(acks', i, x);
    }
    if i: nat :| UsedFor(acks', i, x) {
      assert UsedFor(acks, i, x);
    }
  }

  /** The cache after a token asked for an ack that was never saved. */
  function Asked(t: Token): (s: Cache) {
    EmptyCache(1, 1).(tokens := [t])
  }

  /** From the empty cache on, such an ack is given to a token again and again. */
  lemma {:induction false} GivenTwice(cfg: Config, t: Token, ack: Id)
    ensures IsStep(cfg, EmptyCache(1, 1), AckForEvent(t, ack, {}, [[]]), Asked(t)) && Reachable(cfg, Asked(t))
    ensures Sized(EmptyCache(1, 1)) && |EmptyCache(1, 1).acks| == ACKS_PER_SLOT == |Asked(t).acks|
    ensures AckForToken(cfg, EmptyCache(1, 1), t, ack, {}, [[]]) == (Asked(t), true)
    ensures AckForToken(cfg, Asked(t), t, ack, {}, [[]]) == (Asked(t), true)
  {
    hide Reachable, GcChoices, Gc, ReadB64;
    var s := EmptyCache(1, 1);
    YoungEmpty();
    NoPicks(cfg, s);
    EmptyHasNone(ACK_FILTER, ack);
    assert [] + [t] == [t];
    assert FindToken([], t, 0).None? && FindToken([t], t, 1) == Some(0);
    hide AfterLookup, Contains;
    assert IsStep(cfg, s, AckForEvent(t, ack, {}, [[]]), Asked(t));
    EmptyIsReachable(cfg, 1, 1);
    NextIsReachable(cfg, s, AckForEvent(t, ack, {}, [[]]), Asked(t));
  }

  // ---------------------------------------------------------------------------
  // A packet of acks
  // ---------------------------------------------------------------------------

  lemma {:induction false} BatchIgnoresStray(cfg: Config, s: Cache, token: Token, acks: seq<Id>, a: Bits, b: Bits,
                                             picks: seq<seq<seq<nat>>>, n: nat, since: nat)
    requires TablesOk(cfg, s) && n <= |acks| == |picks|
    requires forall k | 0 <= k < |picks| :: |picks[k]| == |s.acks| / ACKS_PER_SLOT
    requires ChoicesFor(cfg, s, token, acks, a, picks, n) && AllKept(s, acks, since)
    requires AcksForToken(cfg, s, token, acks, a, picks, n).0.bloom.epoch < since + NUM_FILTERS
    ensures AcksForToken(cfg, s, token, acks, a, picks, n) == AcksForToken(cfg, s, token, acks, b, picks, n)
    decreases n
  {
    hide TablesOk, GcChoices, AckForToken, KeepsAck, AckRemembered;
    if n > 0 {
      EpochOfBatch(cfg, s, token, acks, a, picks, n);
      BatchKeeps(cfg, s, token, acks, a, picks, n - 1, since);
      BatchIgnoresStray(cfg, s, token, acks, a, b, picks, n - 1, since);
      var r := AcksForToken(cfg, s, token, acks, a, picks, n - 1);
      KeptIsRemembered(cfg, r.0, acks[n - 1], since);
      RememberedIgnoresStray(cfg, r.0, token, acks[n - 1], a, b, picks[n - 1]);
    }
  }

  /** In process_acks, where all acks were saved just before, what is in front of the table makes no difference
      to the state, nor to the acks that are kept. */
  lemma {:induction false} PacketIgnoresStray(cfg: Config, s: Cache, acks: seq<Id>, maxHops: nat, evs: seq<Event>, saved: Cache,
                                              token: Token, a: Bits, b: Bits, picks: seq<seq<seq<nat>>>)
    requires TablesOk(cfg, s) && TablesOk(cfg, saved)
    requires SavesAcks(cfg, s, acks, maxHops, |acks|, evs, saved) && |picks| == |acks|
    requires forall k | 0 <= k < |picks| :: |picks[k]| == |saved.acks| / ACKS_PER_SLOT
    requires ChoicesFor(cfg, saved, token, acks, a, picks, |acks|)
    requires NoTwins(cfg, acks) && forall k | 0 <= k < |acks| :: NoTwin(cfg, s.acks, acks[k])
    requires AcksForToken(cfg, saved, token, acks, a, picks, |acks|).0.bloom.epoch < s.bloom.epoch + NUM_FILTERS
    ensures AcksForToken(cfg, saved, token, acks, a, picks, |acks|) == AcksForToken(cfg, saved, token, acks, b, picks, |acks|)
  {
    hide EntriesOk, AcksOk, Reaches, ChoicesFor, AcksForToken, KeepsAck, NoTwin, Recalls, AllSpare, NoTwins;
    ReachesRemembers(cfg, s, evs, saved, token, s.bloom.epoch);
    forall k | 0 <= k < |acks| ensures KeepsAck(saved, acks[k], s.bloom.epoch) {
      SavedIsKept(cfg, s, evs, saved, acks, k);
    }
    BatchIgnoresStray(cfg, saved, token, acks, a, b, picks, |acks|, s.bloom.epoch);
  }
}
