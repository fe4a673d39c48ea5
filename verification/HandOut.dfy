/** When an ack is handed out to a token, what becomes of the list of tokens, and how often that list is collected. */
module HandOut {
  import opened AcksOnce
  import opened Base
  import opened Bloom
  import opened Packets
  import opened PcacheInvariants
  import opened PcacheModel
  import opened Records
  import opened Remembering
  import opened StrayBitmaps
  import opened TokenBits

  // ---------------------------------------------------------------------------
  // The answer
  // ---------------------------------------------------------------------------

  /** The entry of the ack says that it was sent to the token at this index; without an entry, what is in front of the
      table says so. */
  ghost predicate MarkedFor(cfg: Config, s: Cache, ack: Id, stray: Bits, index: nat) {
    if HasEntry(s.acks, cfg.sha(ack)) then exists i: nat :: UsedFor(s.acks, i, cfg.sha(ack)) && index in s.acks[i].sent
    else index in stray
  }

  /** The list of tokens is full and was collected less than a minute ago. */
  predicate Crowded(s: Cache) {
    |s.tokens| == 64 && s.now < s.lastTokenGc + 60
  }

  /** The ack is not in the filter, the token has not had it, and if the token is not listed it can be. */
  ghost predicate HandsOut(cfg: Config, s: Cache, t: Token, ack: Id, stray: Bits) {
    && !Contains(s.bloom, ACK_FILTER, ack)
    && (forall i: nat | i < |s.tokens| && s.tokens[i] == t :: !MarkedFor(cfg, s, ack, stray, i))
    && (t !in s.tokens ==> !Crowded(s))
  }

  lemma {:induction false} MarkedIff(cfg: Config, s: Cache, ack: Id, stray: Bits, index: nat)
    requires TablesOk(cfg, s)
    ensures var a := AckIndex(s.acks, cfg.sha(ack));
            MarkedFor(cfg, s, ack, stray, index) <==> index in if a.Some? then s.acks[a.value].sent else stray
  {
    hide EntriesOk, AckOk;
    var x := cfg.sha(ack);
    InAcksIff(cfg, s, x);
    var a := AckIndex(s.acks, x);
    if a.Some? {
      assert UsedFor(s.acks, a.value, x);
      forall i: nat | UsedFor(s.acks, i, x) ensures i == a.value {
      }
    }
  }

  /** The answer of token_to_send_to. */
  lemma {:induction false} TokenAnswer(cfg: Config, s: Cache, t: Token, bitmap: Bits, picks: seq<seq<nat>>)
    requires TablesOk(cfg, s) && |picks| == |s.acks| / ACKS_PER_SLOT
    ensures TokenToSendTo(cfg, s, t, bitmap, picks).1.Some? <==>
            && (forall i: nat | i < |s.tokens| && s.tokens[i] == t :: i !in bitmap)
            && (t !in s.tokens ==> !Crowded(s))
  {
    hide EntriesOk, AcksOk, Gc;
    var f := FindToken(s.tokens, t, |s.tokens|);
    if f.Some? {
      assert forall i: nat | i < |s.tokens| && s.tokens[i] == t :: i == f.value;
    }
  }

  /** An ack is handed out exactly under these conditions, on every host and whatever the gc picks. */
  lemma {:induction false} HandsOutIff(cfg: Config, s: Cache, t: Token, ack: Id, stray: Bits, picks: seq<seq<nat>>)
    requires TablesOk(cfg, s) && |picks| == |s.acks| / ACKS_PER_SLOT
    ensures AckForToken(cfg, s, t, ack, stray, picks).1 <==> HandsOut(cfg, s, t, ack, stray)
  {
    hide EntriesOk, AcksOk, AfterLookup, Contains, AckIndex, TokenToSendTo, MarkedFor;
    if !Contains(s.bloom, ACK_FILTER, ack) {
      MissedLookup(s, ack);
      var a := AckIndex(s.acks, cfg.sha(ack));
      var bitmap := if a.Some? then s.acks[a.value].sent else stray;
      TokenAnswer(cfg, s, t, bitmap, picks);
      forall i: nat | i < |s.tokens| && s.tokens[i] == t ensures MarkedFor(cfg, s, ack, stray, i) <==> i in bitmap {
        MarkedIff(cfg, s, ack, stray, i);
      }
    }
  }

  // ---------------------------------------------------------------------------
  // The list of tokens
  // ---------------------------------------------------------------------------

  /** The operation is about a token that it may add to the list. */
  predicate Serves(ev: Event) {
    ev.AckForEvent? || ev.MarkEvent?
  }

  /** The operation comes to look for the token. */
  ghost predicate Seeks(cfg: Config, s: Cache, ev: Event)
    requires Serves(ev)
  {
    if ev.AckForEvent? then !Contains(s.bloom, ACK_FILTER, ev.ack) else MessageId(cfg.sha, ev.message).Some?
  }

  /** A new token goes to the end of the list; if that is full, its oldest sixteen tokens leave, and the time is noted. */
  ghost predicate Listed(s: Cache, t: Token, s': Cache) {
    if t in s.tokens || Crowded(s) then s'.tokens == s.tokens && s'.lastTokenGc == s.lastTokenGc
    else if |s.tokens| < 64 then s'.tokens == s.tokens + [t] && s'.lastTokenGc == s.lastTokenGc
    else |s.tokens| == 64 && s'.tokens == s.tokens[16..] + [t] && s'.lastTokenGc == s.now
  }

  lemma {:induction false} TokenIsListed(cfg: Config, s: Cache, t: Token, bitmap: Bits, picks: seq<seq<nat>>)
    requires TablesOk(cfg, s) && |picks| == |s.acks| / ACKS_PER_SLOT
    ensures Listed(s, t, TokenToSendTo(cfg, s, t, bitmap, picks).0)
  {
    hide EntriesOk, AcksOk, GcSlots, GcEntriesBloom, GcEntries;
  }

  lemma {:induction false} ServingLists(cfg: Config, s: Cache, ev: Event, s': Cache)
    requires TablesOk(cfg, s) && IsStep(cfg, s, ev, s') && Serves(ev)
    ensures Seeks(cfg, s, ev) ==> Listed(s, ev.token, s')
    ensures !Seeks(cfg, s, ev) ==> s'.tokens == s.tokens && s'.lastTokenGc == s.lastTokenGc
  {
    hide EntriesOk, AcksOk, AfterLookup, Contains, AckIndex, TokenToSendTo, MessageId, FindRec, Listed, GcChoices;
    if Seeks(cfg, s, ev) {
      match ev
      case AckForEvent(token, ack, stray, picks) =>
        MissedLookup(s, ack);
        var a := AckIndex(s.acks, cfg.sha(ack));
        TokenIsListed(cfg, s, token, if a.Some? then s.acks[a.value].sent else stray, picks);
        ListedSame(s, token, TokenToSendTo(cfg, s, token, if a.Some? then s.acks[a.value].sent else stray, picks).0, s');
      case MarkEvent(token, _, picks) =>
        TokenIsListed(cfg, s, token, {}, picks);
        ListedSame(s, token, TokenToSendTo(cfg, s, token, {}, picks).0, s');
    }
  }

  lemma {:induction false} ListedSame(s: Cache, t: Token, s1: Cache, s2: Cache)
    requires Listed(s, t, s1) && s2.tokens == s1.tokens && s2.lastTokenGc == s1.lastTokenGc
    ensures Listed(s, t, s2)
  {
  }

  /** All other operations leave the list alone, or take its oldest sixteen tokens off when it is full; none notes the
      time. */
  lemma {:induction false} OthersList(cfg: Config, s: Cache, ev: Event, s': Cache)
    requires TablesOk(cfg, s) && IsStep(cfg, s, ev, s') && !Serves(ev)
    ensures s'.lastTokenGc == s.lastTokenGc
    ensures s'.tokens == s.tokens || (|s.tokens| == 64 && s'.tokens == s.tokens[16..] && (ev.SaveEvent? || ev.AckEvent?))
    ensures s.now <= s'.now && (!ev.TimeEvent? ==> s'.now == s.now)
  {
    hide EntriesOk, AcksOk, AfterLookup, Contains, AckIndex, MessageId, Note, Answerable, PlaceFor, TotalSize,
      GcSlots, GcEntriesBloom, GcEntries, FindRec, GcChoices, DeleteRec;
    assert s.tokens[0..] == s.tokens;
  }

  /** The operation collects the list of tokens to make place for a new one. */
  ghost predicate Collects(s: Cache, ev: Event, s': Cache) {
    Serves(ev) && exists t :: t in s.tokens && t !in s'.tokens
  }

  lemma {:induction false} StepCollects(cfg: Config, s: Cache, ev: Event, s': Cache)
    requires TablesOk(cfg, s) && IsStep(cfg, s, ev, s')
    ensures s.now <= s'.now && (s'.lastTokenGc == s.lastTokenGc || s'.lastTokenGc == s.now)
    ensures Collects(s, ev, s') ==> s'.lastTokenGc == s.now && s.lastTokenGc + 60 <= s.now
  {
    hide TablesOk, IsStep, Seeks;
    if Serves(ev) {
      ServingLists(cfg, s, ev, s');
      ServingKeepsTime(cfg, s, ev, s');
    } else {
      OthersList(cfg, s, ev, s');
    }
  }

  lemma {:induction false} ServingKeepsTime(cfg: Config, s: Cache, ev: Event, s': Cache)
    requires IsStep(cfg, s, ev, s') && Serves(ev)
    ensures s'.now == s.now
  {
    hide AfterLookup, Contains, AckIndex, MessageId, GcSlots, GcEntriesBloom, GcEntries, FindRec, FindToken, GcChoices;
  }

  lemma {:induction false} NotedSince(cfg: Config, states: seq<Cache>, evs: seq<Event>, i: nat, j: nat)
    requires IsRun(cfg, states, evs) && TablesOk(cfg, states[0]) && i < j < |states| && Collects(states[i], evs[i], states[i + 1])
    ensures states[i].now <= states[j].now && states[i].now <= states[j].lastTokenGc
    decreases j
  {
    hide TablesOk, IsStep, Collects;
    RunOk(cfg, states, evs, j - 1);
    assert IsStep(cfg, states[j - 1], evs[j - 1], states[j]);
    StepCollects(cfg, states[j - 1], evs[j - 1], states[j]);
    if i < j - 1 {
      NotedSince(cfg, states, evs, i, j - 1);
    }
  }

  /** In every run a minute passes between two collections of the list for the sake of new tokens, however many tokens
      ask; and until it has passed, new tokens get no ack while the list is full. */
  lemma {:induction false} CollectionsApart(cfg: Config, states: seq<Cache>, evs: seq<Event>, i: nat, j: nat)
    requires IsRun(cfg, states, evs) && TablesOk(cfg, states[0]) && i < j < |evs|
    requires Collects(states[i], evs[i], states[i + 1])
    ensures Collects(states[j], evs[j], states[j + 1]) ==> states[i].now + 60 <= states[j].now
    ensures states[j].now < states[i].now + 60 && |states[j].tokens| == 64 ==>
              forall t: Token, ack, stray | t !in states[j].tokens :: !HandsOut(cfg, states[j], t, ack, stray)
  {
    hide TablesOk, IsStep, Collects;
    RunOk(cfg, states, evs, j);
    NotedSince(cfg, states, evs, i, j);
    assert IsStep(cfg, states[j], evs[j], states[j + 1]);
    StepCollects(cfg, states[j], evs[j], states[j + 1]);
  }

  // ---------------------------------------------------------------------------
  // A packet of acks
  // ---------------------------------------------------------------------------

  /** The state in which the turn of ack `k` comes. */
  ghost function AtTurn(cfg: Config, s: Cache, t: Token, acks: seq<Id>, stray: Bits, picks: seq<seq<seq<nat>>>, k: nat): (s': Cache)
    requires TablesOk(cfg, s) && k <= |acks| == |picks|
    requires forall j | 0 <= j < |picks| :: |picks[j]| == |s.acks| / ACKS_PER_SLOT
  {
    AcksForToken(cfg, s, t, acks, stray, picks, k).0
  }

  lemma {:induction false} OneTurn(cfg: Config, s: Cache, t: Token, acks: seq<Id>, stray: Bits, picks: seq<seq<seq<nat>>>, n: nat)
    requires TablesOk(cfg, s) && n < |acks| == |picks|
    requires forall j | 0 <= j < |picks| :: |picks[j]| == |s.acks| / ACKS_PER_SLOT
    ensures var kept := AcksForToken(cfg, s, t, acks, stray, picks, n).1;
            AcksForToken(cfg, s, t, acks, stray, picks, n + 1).1
            == if HandsOut(cfg, AtTurn(cfg, s, t, acks, stray, picks, n), t, acks[n], stray) then kept + [acks[n]] else kept
  {
    hide TablesOk, AckForToken, HandsOut;
    HandsOutIff(cfg, AtTurn(cfg, s, t, acks, stray, picks, n), t, acks[n], stray, picks[n]);
  }

  lemma {:induction false} NoTurn(cfg: Config, s: Cache, t: Token, acks: seq<Id>, stray: Bits, picks: seq<seq<seq<nat>>>)
    requires TablesOk(cfg, s) && |acks| == |picks|
    requires forall j | 0 <= j < |picks| :: |picks[j]| == |s.acks| / ACKS_PER_SLOT
    ensures AcksForToken(cfg, s, t, acks, stray, picks, 0).1 == []
  {
    hide TablesOk;
  }

  /** Of the acks of a packet exactly those are kept that can be handed out to the token when their turn comes, in the order
      of the packet. */
  lemma {:induction false} PacketKeepsExactly(cfg: Config, s: Cache, t: Token, acks: seq<Id>, stray: Bits,
                                              picks: seq<seq<seq<nat>>>, n: nat) returns (at: seq<nat>)
    requires TablesOk(cfg, s) && n <= |acks| == |picks|
    requires forall j | 0 <= j < |picks| :: |picks[j]| == |s.acks| / ACKS_PER_SLOT
    ensures var kept := AcksForToken(cfg, s, t, acks, stray, picks, n).1;
            |at| == |kept| && forall j | 0 <= j < |at| :: at[j] < n && kept[j] == acks[at[j]]
    ensures forall i, j | 0 <= i < j < |at| :: at[i] < at[j]
    ensures forall k: nat | k < n :: k in at <==> HandsOut(cfg, AtTurn(cfg, s, t, acks, stray, picks, k), t, acks[k], stray)
    decreases n
  {
    hide TablesOk, AcksForToken, AtTurn, HandsOut;
    at := [];
    if n == 0 {
      NoTurn(cfg, s, t, acks, stray, picks);
    } else {
      at := PacketKeepsExactly(cfg, s, t, acks, stray, picks, n - 1);
      OneTurn(cfg, s, t, acks, stray, picks, n - 1);
      if HandsOut(cfg, AtTurn(cfg, s, t, acks, stray, picks, n - 1), t, acks[n - 1], stray) {
        at := at + [n - 1];
      }
    }
  }
}
