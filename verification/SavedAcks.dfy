/** An ack that was saved is remembered for sixteen filter advances, and is not handed out twice meanwhile. */
module SavedAcks {
  import opened AcksOnce
  import opened Base
  import opened Bloom
  import opened Daemon
  import opened Pcache
  import opened PcacheInvariants
  import opened PcacheModel
  import opened Remembering
  import opened TokenBits
  import opened TokenMeaning

  lemma {:induction false} KeptIsRemembered(cfg: Config, s: Cache, ack: Id, since: nat)
    requires TablesOk(cfg, s) && KeepsAck(s, ack, since) && s.bloom.epoch < since + NUM_FILTERS
    ensures AckRemembered(cfg, s, ack)
  {
    hide EntriesOk, Contains, Held;
    if i: nat :| i < |s.acks| && s.acks[i].used && s.acks[i].ack == ack {
      assert AckOk(cfg, s.acks, i);
      assert UsedFor(s.acks, i, cfg.sha(ack));
    } else {
      HeldIsFound(s.bloom, ACK_FILTER, ack, since);
    }
  }

  // ---------------------------------------------------------------------------
  // Runs
  // ---------------------------------------------------------------------------

  lemma {:induction false} RunKeepsAck(cfg: Config, states: seq<Cache>, evs: seq<Event>, i: nat, j: nat, ack: Id, since: nat)
    requires IsRun(cfg, states, evs) && TablesOk(cfg, states[0]) && i <= j < |states|
    requires KeepsAck(states[i], ack, since) && since <= states[i].bloom.epoch
    ensures TablesOk(cfg, states[j]) && KeepsAck(states[j], ack, since) && since <= states[j].bloom.epoch
    decreases j
  {
    hide EntriesOk, AcksOk, KeepsAck, Step, ValidEvent, WellSized;
    RunOk(cfg, states, evs, j);
    if i < j {
      RunKeepsAck(cfg, states, evs, i, j - 1, ack, since);
      assert IsStep(cfg, states[j - 1], evs[j - 1], states[j]);
      StepKeepsAck(cfg, states[j - 1], evs[j - 1], states[j], ack, since);
    }
  }

  lemma {:induction false} EpochsGrow(cfg: Config, states: seq<Cache>, evs: seq<Event>, i: nat, j: nat)
    requires IsRun(cfg, states, evs) && TablesOk(cfg, states[0]) && i <= j < |states|
    ensures states[i].bloom.epoch <= states[j].bloom.epoch
    decreases j
  {
    hide EntriesOk, AcksOk, Step, ValidEvent, WellSized, Clears, Recalls, Registers;
    if i < j {
      EpochsGrow(cfg, states, evs, i, j - 1);
      RunOk(cfg, states, evs, j - 1);
      assert IsStep(cfg, states[j - 1], evs[j - 1], states[j]);
      StepRemembers(cfg, states[j - 1], evs[j - 1], states[j], NO_TOKEN, 0);
    }
  }

  /** In every run: an ack saved at step `h` and handed to a token at step `i` is refused to the token at every
      later state in which the token has stayed listed, up to sixteen filter advances after it was saved. */
  lemma {:induction false} SavedAckGivenOnce(cfg: Config, states: seq<Cache>, evs: seq<Event>, h: nat, i: nat, j: nat,
                                             ack: Id, t: Token, stray: Bits, picks: seq<seq<nat>>)
    requires IsRun(cfg, states, evs) && TablesOk(cfg, states[0]) && BitsOk(states[0])
    requires h < i < j < |states| && AlignedUntil(cfg, states, j)
    requires evs[h].AckEvent? && evs[h].ack == ack && NoTwin(cfg, states[h].acks, ack)
    requires Sized(states[i]) && MarksAck(cfg, states[i], evs[i], cfg.sha(ack), t) && evs[i].ack == ack
    requires forall k | i < k <= j :: t in states[k].tokens
    requires forall k | i <= k < j :: NoCollision(cfg, evs[k], ack)
    requires states[j].bloom.epoch < states[h].bloom.epoch + NUM_FILTERS
    requires |picks| == |states[j].acks| / ACKS_PER_SLOT
    ensures TablesOk(cfg, states[j]) && !AckForToken(cfg, states[j], t, ack, stray, picks).1
  {
    hide EntriesOk, AcksOk, BitsOk, SaveAck, AckForToken, NoTwin, KeepsAck, AckRemembered, MarksAck, AlignedUntil, NoCollision,
      GcChoices, Contains, RecordKept, StateAcksKept;
    var since := states[h].bloom.epoch;
    RunOk(cfg, states, evs, h);
    assert IsStep(cfg, states[h], evs[h], states[h + 1]);
    SaveAckKeeps(cfg, states[h], ack, evs[h].maxHops, evs[h].picks, ack);
    EpochsGrow(cfg, states, evs, h, h + 1);
    forall k | i < k <= j ensures Tracks(cfg, states[k], ack, t) {
      RunKeepsAck(cfg, states, evs, h + 1, k, ack, since);
      EpochsGrow(cfg, states, evs, k, j);
      KeptIsRemembered(cfg, states[k], ack, since);
    }
    AckGivenOnce(cfg, states, evs, i, j, ack, t, stray, picks);
  }

  // ---------------------------------------------------------------------------
  // A packet of acks
  // ---------------------------------------------------------------------------

  lemma {:induction false} ReachesKeepsAck(cfg: Config, s: Cache, evs: seq<Event>, s': Cache, ack: Id, since: nat)
    requires TablesOk(cfg, s) && Reaches(cfg, s, evs, s') && KeepsAck(s, ack, since) && since <= s.bloom.epoch
    ensures TablesOk(cfg, s') && KeepsAck(s', ack, since) && since <= s'.bloom.epoch
    decreases |evs|
  {
    hide EntriesOk, AcksOk, KeepsAck, Step, ValidEvent, WellSized;
    if evs != [] {
      var s1 := Step(cfg, s, evs[0]).value;
      StepKeepsAck(cfg, s, evs[0], s1, ack, since);
      ReachesKeepsAck(cfg, s1, evs[1..], s', ack, since);
    }
  }

  /** The entries in use are of acks that had one before, or of this one. */
  ghost predicate OnlyNewAck(acks: seq<Ack>, acks': seq<Ack>, ack: Id) {
    forall i: nat | i < |acks'| && acks'[i].used :: acks'[i].ack == ack || HasAck(acks, acks'[i].ack)
  }

  lemma {:induction false} FewerIsOnly(acks: seq<Ack>, acks': seq<Ack>, ack: Id)
    requires AcksFewer(acks, acks')
    ensures OnlyNewAck(acks, acks', ack)
  {
  }

  lemma {:induction false} SaveAckOnly(cfg: Config, s: Cache, ack: Id, maxHops: nat, picks: seq<seq<nat>>)
    requires Sized(s) && |picks| == |s.acks| / ACKS_PER_SLOT && SaveAck(cfg, s, ack, maxHops, picks).Some?
    ensures OnlyNewAck(s.acks, SaveAck(cfg, s, ack, maxHops, picks).value.acks, ack)
  {
    hide GcEntries, GcEntriesBloom, GcSlots, AfterLookup, Contains, PlaceFor, AckIndex, OnlyNewAck;
    var s1 := Looked(s, ACK_FILTER, ack);
    var s' := SaveAck(cfg, s, ack, maxHops, picks).value;
    var id := cfg.sha(ack);
    if Contains(s.bloom, ACK_FILTER, ack) || AckIndex(s.acks, id).Some? {
      FewerIsOnly(s.acks, s'.acks, ack);
    } else {
      GcSlotsFewer(cfg.order, s.acks, s1.bloom, picks, TokenShift(|s.tokens|), |picks|);
      var s2 := if PlaceFor(s.acks, id).None? then Gc(cfg, s1, -1, 0, picks) else s1;
      PutIsOnly(s.acks, s2, PlaceFor(s2.acks, id).value, ack, id, maxHops);
    }
  }

  lemma {:induction false} PutIsOnly(acks: seq<Ack>, s: Cache, i: nat, ack: Id, id: Id, maxHops: nat)
    requires Sized(s) && i < |s.acks| && AcksFewer(acks, s.acks)
    ensures OnlyNewAck(acks, PutAck(s, i, ack, id, maxHops).acks, ack)
  {
    hide DeleteRec;
  }

  /** No two of these acks have the same hash without being the same. */
  ghost predicate NoTwins(cfg: Config, acks: seq<Id>) {
    forall j, k | 0 <= j < |acks| && 0 <= k < |acks| && cfg.sha(acks[j]) == cfg.sha(acks[k]) :: acks[j] == acks[k]
  }

  /** The operations save these acks. */
  ghost predicate AckEvents(evs: seq<Event>, acks: seq<Id>) {
    |evs| == |acks| && forall k | 0 <= k < |evs| :: evs[k].AckEvent? && evs[k].ack == acks[k]
  }

  lemma {:induction false} SavedIsKept(cfg: Config, s: Cache, evs: seq<Event>, s': Cache, acks: seq<Id>, k: nat)
    requires TablesOk(cfg, s) && Reaches(cfg, s, evs, s') && AckEvents(evs, acks) && NoTwins(cfg, acks) && k < |acks|
    requires NoTwin(cfg, s.acks, acks[k])
    ensures KeepsAck(s', acks[k], s.bloom.epoch)
    decreases |evs|
  {
    hide EntriesOk, AcksOk, KeepsAck, SaveAck, GcChoices, RecordKept, Contains, Clears, Recalls, Registers, HasAck, Held,
      StateAcksKept;
    var ack, ev := acks[0], evs[0];
    var s1 := Step(cfg, s, ev).value;
    assert IsStep(cfg, s, ev, s1);
    SaveAckKeeps(cfg, s, ack, ev.maxHops, ev.picks, ack);
    StepRemembers(cfg, s, ev, s1, ack, 0);
    if k == 0 {
      ReachesKeepsAck(cfg, s1, evs[1..], s', ack, s.bloom.epoch);
    } else {
      SaveAckOnly(cfg, s, ack, ev.maxHops, ev.picks);
      TwinAfter(cfg, s.acks, s1.acks, ack, acks[k]);
      assert acks[1..][k - 1] == acks[k];
      SavedIsKept(cfg, s1, evs[1..], s', acks[1..], k - 1);
      KeptEarlier(s', acks[k], s1.bloom.epoch, s.bloom.epoch);
    }
  }

  lemma {:induction false} TwinAfter(cfg: Config, acks: seq<Ack>, acks': seq<Ack>, ack: Id, x: Id)
    requires NoTwin(cfg, acks, x) && OnlyNewAck(acks, acks', ack) && (cfg.sha(ack) == cfg.sha(x) ==> ack == x)
    ensures NoTwin(cfg, acks', x)
  {
    forall i: nat | i < |acks'| && acks'[i].used && cfg.sha(acks'[i].ack) == cfg.sha(x) ensures acks'[i].ack == x {
      if acks'[i].ack != ack {
        var k: nat :| k < |acks| && acks[k].used && acks[k].ack == acks'[i].ack;
      }
    }
  }

  lemma {:induction false} KeptEarlier(s: Cache, ack: Id, since: nat, earlier: nat)
    requires KeepsAck(s, ack, since) && earlier <= since
    ensures KeepsAck(s, ack, earlier)
  {
    hide Held;
    if Held(s.bloom, ACK_FILTER, ack, since) {
      HeldEarlier(s.bloom, ACK_FILTER, ack, since, earlier);
    }
  }

  /** What one call of pcache_ack_for_token does to the token table: nothing, if the token is listed. */
  lemma {:induction false} ListedStays(cfg: Config, s: Cache, token: Token, ack: Id, stray: Bits, picks: seq<seq<nat>>)
    requires TablesOk(cfg, s) && |picks| == |s.acks| / ACKS_PER_SLOT
    ensures var r := AckForToken(cfg, s, token, ack, stray, picks);
            && (token in s.tokens ==> r.0.tokens == s.tokens)
            && (r.0.tokens == s.tokens || token in r.0.tokens)
            && |r.0.tokens| <= |s.tokens| + 1
            && (r.1 ==> token in r.0.tokens)
  {
    hide EntriesOk, AcksOk, AfterLookup, Contains, AckIndex, GcSlots, GcEntries, GcEntriesBloom;
    var s1 := Looked(s, ACK_FILTER, ack);
    if !Contains(s.bloom, ACK_FILTER, ack) {
      var a := AckIndex(s1.acks, cfg.sha(ack));
      var t := TokenToSendTo(cfg, s1, token, if a.Some? then s1.acks[a.value].sent else stray, picks);
      if t.1.Some? {
        assert token in t.0.tokens;
      }
    }
  }

  ghost predicate AllKept(s: Cache, acks: seq<Id>, since: nat) {
    since <= s.bloom.epoch && forall k | 0 <= k < |acks| :: KeepsAck(s, acks[k], since)
  }

  /** During a batch all acks stay kept, and the token is listed as soon as one of them is handed out. */
  lemma {:induction false} BatchKeeps(cfg: Config, s: Cache, token: Token, acks: seq<Id>, stray: Bits,
                                      picks: seq<seq<seq<nat>>>, n: nat, since: nat)
    requires TablesOk(cfg, s) && n <= |acks| == |picks|
    requires forall k | 0 <= k < |picks| :: |picks[k]| == |s.acks| / ACKS_PER_SLOT
    requires ChoicesFor(cfg, s, token, acks, stray, picks, n) && AllKept(s, acks, since)
    ensures var r := AcksForToken(cfg, s, token, acks, stray, picks, n);
            && AllKept(r.0, acks, since) && s.bloom.epoch <= r.0.bloom.epoch
            && |r.0.tokens| <= |s.tokens| + 1
            && (r.0.tokens == s.tokens || token in r.0.tokens)
            && (r.1 != [] ==> token in r.0.tokens)
            && (forall a | a in r.1 :: a in acks)
    decreases n
  {
    hide TablesOk, GcChoices, AckForToken, KeepsAck, RecordKept;
    if n > 0 {
      BatchKeeps(cfg, s, token, acks, stray, picks, n - 1, since);
      var r := AcksForToken(cfg, s, token, acks, stray, picks, n - 1);
      var r' := AcksForToken(cfg, s, token, acks, stray, picks, n);
      ListedStays(cfg, r.0, token, acks[n - 1], stray, picks[n - 1]);
      AckForTokenKeeps(cfg, r.0, token, acks[n - 1], stray, picks[n - 1], token);
      EpochKept(r.0, r'.0);
      forall k | 0 <= k < |acks| ensures KeepsAck(r'.0, acks[k], since) {
        AckStaysKept(r.0, r'.0, acks[k], since);
      }
    }
  }

  lemma {:induction false} EpochKept(s: Cache, s': Cache)
    requires StateAcksKept(s, s')
    ensures s.bloom.epoch <= s'.bloom.epoch
  {
  }

  lemma {:induction false} BatchIsTracked(cfg: Config, s: Cache, token: Token, acks: seq<Id>, stray: Bits,
                                          picks: seq<seq<seq<nat>>>, n: nat, since: nat)
    requires TablesOk(cfg, s) && n <= |acks| == |picks| && Aligned(cfg.order, |s.tokens| + 1)
    requires forall k | 0 <= k < |picks| :: |picks[k]| == |s.acks| / ACKS_PER_SLOT
    requires ChoicesFor(cfg, s, token, acks, stray, picks, n) && AllKept(s, acks, since)
    requires AcksForToken(cfg, s, token, acks, stray, picks, n).0.bloom.epoch < since + NUM_FILTERS
    ensures BatchTracks(cfg, s, token, acks, stray, picks, n)
    decreases n
  {
    hide TablesOk, GcChoices, AckForToken, KeepsAck, AckRemembered, AcksForToken;
    BatchKeeps(cfg, s, token, acks, stray, picks, n, since);
    var r := AcksForToken(cfg, s, token, acks, stray, picks, n);
    forall a | a in r.1 ensures Tracks(cfg, r.0, a, token) {
      var k :| 0 <= k < |acks| && acks[k] == a;
      KeptIsRemembered(cfg, r.0, a, since);
      OkIsSized(cfg, r.0);
    }
    if n > 0 {
      BatchKeeps(cfg, s, token, acks, stray, picks, n - 1, since);
      EpochOfBatch(cfg, s, token, acks, stray, picks, n);
      BatchIsTracked(cfg, s, token, acks, stray, picks, n - 1, since);
    }
  }

  lemma {:induction false} OkIsSized(cfg: Config, s: Cache)
    requires TablesOk(cfg, s)
    ensures Sized(s)
  {
  }

  lemma {:induction false} EpochOfBatch(cfg: Config, s: Cache, token: Token, acks: seq<Id>, stray: Bits,
                                        picks: seq<seq<seq<nat>>>, n: nat)
    requires TablesOk(cfg, s) && 0 < n <= |acks| == |picks|
    requires forall k | 0 <= k < |picks| :: |picks[k]| == |s.acks| / ACKS_PER_SLOT
    requires ChoicesFor(cfg, s, token, acks, stray, picks, n)
    ensures AcksForToken(cfg, s, token, acks, stray, picks, n - 1).0.bloom.epoch
            <= AcksForToken(cfg, s, token, acks, stray, picks, n).0.bloom.epoch
  {
    hide TablesOk, GcChoices, AckForToken, RecordKept;
    var r := AcksForToken(cfg, s, token, acks, stray, picks, n - 1);
    AckForTokenKeeps(cfg, r.0, token, acks[n - 1], stray, picks[n - 1], token);
    EpochKept(r.0, AcksForToken(cfg, s, token, acks, stray, picks, n).0);
  }

  /** process_acks hands each ack of a packet to the local token at most once: with all of them saved just
      before, no hash occurring twice, and fewer than sixteen filter advances in the whole call. */
  lemma {:induction false} PacketKeepsEachOnce(cfg: Config, s: Cache, acks: seq<Id>, maxHops: nat, evs: seq<Event>, saved: Cache,
                                               token: Token, stray: Bits, picks: seq<seq<seq<nat>>>)
    requires TablesOk(cfg, s) && TablesOk(cfg, saved) && BitsOk(saved) && Aligned(cfg.order, |saved.tokens| + 1)
    requires SavesAcks(cfg, s, acks, maxHops, |acks|, evs, saved) && |picks| == |acks|
    requires forall k | 0 <= k < |picks| :: |picks[k]| == |saved.acks| / ACKS_PER_SLOT
    requires ChoicesFor(cfg, saved, token, acks, stray, picks, |acks|)
    requires NoTwins(cfg, acks) && forall k | 0 <= k < |acks| :: NoTwin(cfg, s.acks, acks[k])
    requires AcksForToken(cfg, saved, token, acks, stray, picks, |acks|).0.bloom.epoch < s.bloom.epoch + NUM_FILTERS
    ensures Distinct(AcksForToken(cfg, saved, token, acks, stray, picks, |acks|).1)
  {
    hide EntriesOk, AcksOk, Reaches, ChoicesFor, AcksForToken, KeepsAck, BitsOk, BatchTracks, NoTwin, Recalls, Distinct,
      Aligned, AllSpare, NoTwins;
    ReachesRemembers(cfg, s, evs, saved, token, s.bloom.epoch);
    forall k | 0 <= k < |acks| ensures KeepsAck(saved, acks[k], s.bloom.epoch) {
      SavedIsKept(cfg, s, evs, saved, acks, k);
    }
    BatchIsTracked(cfg, saved, token, acks, stray, picks, |acks|, s.bloom.epoch);
    BatchKeepsEachOnce(cfg, saved, token, acks, stray, picks, |acks|);
  }
}
