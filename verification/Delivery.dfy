/** Packets do get through: what a new packet leads to at a node, and along a chain of nodes. */
module Delivery {
  import opened Base
  import opened Bloom
  import opened Daemon
  import opened Flooding
  import opened Packets
  import opened Pcache
  import opened PcacheInvariants
  import opened PcacheModel
  import opened Records

  // ---------------------------------------------------------------------------
  // What a node keeps of a packet
  // ---------------------------------------------------------------------------

  /** The last record of the bucket of the ID. */
  ghost predicate StoredLast(s: Cache, id: Id, r: Rec) {
    Sized(s) && var rs := s.entries[ReadB64(id) % |s.entries|]; rs != [] && rs[|rs| - 1] == r
  }

  lemma {:induction false} NewEvents(cfg: Config, s: Cache, m: seq<Byte>, priority: U32, picks: seq<seq<nat>>)
    requires TablesOk(cfg, s) && HasHeader(m)
    requires MessageId(cfg.sha, m).Some? && !Knows(s, MessageId(cfg.sha, m).value)
    ensures var id := MessageId(cfg.sha, m).value;
            && Step(cfg, s, FindEvent(MESSAGE_FILTER, id)) == Some(s) && !FoundMessage(s, id)
            && ProcessEvents(cfg, s, m, priority, picks)
               == [FindEvent(MESSAGE_FILTER, id), if DoNotCache(m) then RecordEvent(m) else SaveEvent(m, priority, picks)]
  {
    hide EntriesOk, AcksOk, MessageId, Knows, ProcessEvents, InAcks, InMessages, Contains, Step;
    var id := MessageId(cfg.sha, m).value;
    RememberedIffKnows(cfg, s, id);
    RememberedIff(s, id);
    ProcessEventsAre(cfg, s, m, priority, picks);
    LookedMisses(cfg, s, id);
  }

  /** A new packet is stored at the end of its bucket, as it is, under its ID and priority, and sent to nobody.
      One that must not be cached only adds its ID to the message filter. */
  lemma {:induction false} NewPacketIsKept(cfg: Config, s: Cache, m: seq<Byte>, priority: U32, picks: seq<seq<nat>>, s': Cache)
    requires TablesOk(cfg, s) && HasHeader(m)
    requires MessageId(cfg.sha, m).Some? && !Knows(s, MessageId(cfg.sha, m).value)
    requires Reaches(cfg, s, ProcessEvents(cfg, s, m, priority, picks), s')
    ensures m[7] / 16 % 2 == 0 ==> StoredLast(s', MessageId(cfg.sha, m).value, Rec(MessageId(cfg.sha, m).value, priority, {}, m))
    ensures m[7] / 16 % 2 == 1 ==>
              s'.entries == s.entries && s'.acks == s.acks && Contains(s'.bloom, MESSAGE_FILTER, MessageId(cfg.sha, m).value)
  {
    hide TablesOk, MessageId, Knows, ProcessEvents, Contains, Reaches, IsStep, CanStep, StoredLast, Step, FoundMessage, WellSized;
    var id := MessageId(cfg.sha, m).value;
    NewEvents(cfg, s, m, priority, picks);
    var ev := if DoNotCache(m) then RecordEvent(m) else SaveEvent(m, priority, picks);
    ReachesTwo(cfg, s, FindEvent(MESSAGE_FILTER, id), ev, s');
    if DoNotCache(m) {
      RecordedIsFound(cfg, s, m, s');
    } else {
      SavedIsLast(cfg, s, m, priority, picks, s');
    }
  }

  /** A packet without an ID, or with the ID of an ack entry, changes nothing at all; one that is known otherwise can
      only renew the age of its ID in the filters. */
  lemma {:induction false} KnownPacketIsNotKept(cfg: Config, s: Cache, m: seq<Byte>, priority: U32, picks: seq<seq<nat>>, s': Cache)
    requires TablesOk(cfg, s) && HasHeader(m) && Reaches(cfg, s, ProcessEvents(cfg, s, m, priority, picks), s')
    ensures MessageId(cfg.sha, m).None? ==> s' == s
    ensures MessageId(cfg.sha, m).Some? ==>
              var id := MessageId(cfg.sha, m).value;
              && ((exists i :: 0 <= i < |s.acks| && s.acks[i].used && s.acks[i].id == id) ==> s' == s)
              && (Knows(s, id) ==> s' == s.(bloom := s'.bloom))
  {
    hide EntriesOk, AcksOk, MessageId, Knows, ProcessEvents, Remembered, InAcks, InMessages, Contains, Reaches, AfterLookup;
    ProcessEventsAre(cfg, s, m, priority, picks);
    if MessageId(cfg.sha, m).None? {
      ReachesNone(cfg, s, s');
    } else {
      var id := MessageId(cfg.sha, m).value;
      RememberedIffKnows(cfg, s, id);
      RememberedIff(s, id);
      KnownAck(cfg, s, id);
      if InAcks(s, id) {
        ReachesNone(cfg, s, s');
      } else if Remembered(s, id) {
        ReachesIsStep(cfg, s, FindEvent(MESSAGE_FILTER, id), s');
      }
    }
  }

  lemma {:induction false} RecordedIsFound(cfg: Config, s: Cache, m: seq<Byte>, s': Cache)
    requires IsStep(cfg, s, RecordEvent(m), s') && MessageId(cfg.sha, m).Some?
    ensures s'.entries == s.entries && s'.acks == s.acks && Contains(s'.bloom, MESSAGE_FILTER, MessageId(cfg.sha, m).value)
  {
    hide MessageId, Contains, Note;
    NoteContains(s.bloom, MessageId(cfg.sha, m).value);
  }

  lemma {:induction false} NoteContains(b: Bloom, id: Id)
    ensures Contains(Note(b, MESSAGE_FILTER, id), MESSAGE_FILTER, id)
  {
    hide Note, InFilter;
    NoteIsFresh(b, MESSAGE_FILTER, id);
  }

  lemma {:induction false} SavedIsLast(cfg: Config, s: Cache, m: seq<Byte>, priority: U32, picks: seq<seq<nat>>, s': Cache)
    requires IsStep(cfg, s, SaveEvent(m, priority, picks), s')
    requires MessageId(cfg.sha, m).Some? && !FoundMessage(s, MessageId(cfg.sha, m).value)
    ensures StoredLast(s', MessageId(cfg.sha, m).value, Rec(MessageId(cfg.sha, m).value, priority, {}, m))
  {
    hide MessageId, Gc, AfterLookup, FoundMessage, TotalSize, ReadB64, GcChoices;
  }

  /** A node can handle any new packet that does not end the program. */
  lemma {:induction false} NewPacketIsHandled(cfg: Config, s: Cache, m: seq<Byte>, priority: U32) returns (picks: seq<seq<nat>>, s': Cache)
    requires TablesOk(cfg, s) && HasHeader(m) && (|m| <= ALLNET_MTU || DoNotCache(m))
    requires MessageId(cfg.sha, m).Some? && !Knows(s, MessageId(cfg.sha, m).value)
    ensures Reaches(cfg, s, ProcessEvents(cfg, s, m, priority, picks), s') && TablesOk(cfg, s')
  {
    hide EntriesOk, AcksOk, MessageId, Knows, ProcessEvents, Contains, Reaches, Step, ValidChoices, FoundMessage;
    var id := MessageId(cfg.sha, m).value;
    picks := SomeChoices(cfg, s);
    NewEvents(cfg, s, m, priority, picks);
    var find, ev := FindEvent(MESSAGE_FILTER, id), if DoNotCache(m) then RecordEvent(m) else SaveEvent(m, priority, picks);
    StepOk(cfg, s, ev);
    NeverStuck(cfg, s, ev);
    s' := Step(cfg, s, ev).value;
    ReachesOne(cfg, s, find, s);
    ReachesOne(cfg, s, ev, s');
    ReachesConcat(cfg, s, [find], s, [ev], s');
    assert [find] + [ev] == [find, ev];
  }

  lemma {:induction false} NeverStuck(cfg: Config, s: Cache, ev: Event)
    requires TablesOk(cfg, s) && ValidEvent(cfg, s, ev) && (!TooLarge(ev) || ev.RecordEvent?)
    ensures Step(cfg, s, ev).Some?
  {
    hide TablesOk, Step, ValidEvent;
    StepOk(cfg, s, ev);
  }

  // ---------------------------------------------------------------------------
  // One hop
  // ---------------------------------------------------------------------------

  /** What an ordinary packet that a node handles puts on the wire: one copy for every neighbour, with one hop more if
      it came from another system, exactly when it is local or new to the node and has hops left. */
  lemma {:induction false} HandledGoesOut(cfg: Config, fan: nat, n: Net, ev: NetEvent, n': Net)
    requires (ev.Deliver? || ev.Originate?) && NetStep(cfg, fan, n, ev, n') && NodeOk(cfg, n.nodes[ev.node])
    ensures ev.Deliver? ==>
              var m := n.wire[ev.at];
              n'.wire == Drop(n.wire, ev.at)
                         + if GoesOut(cfg, n.nodes[ev.node], m, false) then Copies(m[2 := m[2] + 1], ev.copies) else []
    ensures ev.Originate? ==>
              n'.wire == n.wire + if GoesOut(cfg, n.nodes[ev.node], ev.message, true) then Copies(ev.message, ev.copies) else []
  {
    hide TablesOk, Forwards, Reaches, ProcessEvents, Knows, MessageId, OthersSame;
    var s := n.nodes[ev.node];
    var m := if ev.Deliver? then n.wire[ev.at] else ev.message;
    ForwardsIff(cfg, s, m, ev.Originate?);
  }

  // ---------------------------------------------------------------------------
  // A chain of nodes
  // ---------------------------------------------------------------------------

  predicate DistinctNodes(path: seq<nat>, n: nat) {
    (forall i | 0 <= i < |path| :: path[i] < n) && forall i, j | 0 <= i < j < |path| :: path[i] != path[j]
  }

  ghost predicate NewTo(n: Net, path: seq<nat>, id: Id) {
    forall i | 0 <= i < |path| :: path[i] < |n.nodes| && !Knows(n.nodes[path[i]], id)
  }

  /** What the k-th node of a chain takes off the wire: the packet, after k hops. */
  ghost predicate TakesAfter(n: Net, ev: NetEvent, node: nat, m: seq<Byte>, k: nat)
    requires HasHeader(m)
  {
    ev.Deliver? && ev.node == node && ev.at < |n.wire| && m[HOPS] + k < 256 && n.wire[ev.at] == m[HOPS := m[HOPS] + k]
  }

  /** The packet, its copies passed on from node to node. */
  ghost predicate PassedAlong(cfg: Config, nets: seq<Net>, evs: seq<NetEvent>, path: seq<nat>, m: seq<Byte>)
    requires HasHeader(m)
  {
    && IsNetRun(cfg, 1, nets, evs) && |evs| == |path|
    && forall k | 0 <= k < |path| :: TakesAfter(nets[k], evs[k], path[k], m, k)
  }

  /** An ordinary packet with a valid hop count and an ID, and not too large to be handled. */
  predicate Sound(cfg: Config, m: seq<Byte>) {
    ValidHops(m) && Ordinary(m) && MessageId(cfg.sha, m).Some? && (|m| <= ALLNET_MTU || DoNotCache(m))
  }

  predicate LastOnWire(n: Net, m: seq<Byte>) {
    n.wire != [] && n.wire[|n.wire| - 1] == m
  }

  lemma {:induction false} DeliverOnce(cfg: Config, n: Net, at: nat, m: seq<Byte>, node: nat) returns (ev: NetEvent, n': Net)
    requires Sound(cfg, m) && NodesOk(cfg, n) && at < |n.wire| && n.wire[at] == m
    requires NewTo(n, [node], MessageId(cfg.sha, m).value)
    ensures NetStep(cfg, 1, n, ev, n') && TakesAfter(n, ev, node, m, 0)
    ensures NodesOk(cfg, n') && OthersSame(n, n', node)
    ensures m[HOPS] as int + 1 < m[MAX_HOPS] ==> LastOnWire(n', m[HOPS := m[HOPS] + 1])
  {
    hide TablesOk, MessageId, Knows, Reaches, ProcessEvents, Forwards;
    assert [node][0] == node;
    var s := n.nodes[node];
    assert NodeOk(cfg, s);
    var arrived := Arrived(m, false);
    if m[HOPS] < 255 {
      MessageIdIgnoresHops(cfg.sha, m, HOPS, m[HOPS] + 1);
    }
    assert m[HOPS := m[HOPS] + 0] == m;
    var picks, s' := NewPacketIsHandled(cfg, s, arrived, 0);
    ev := Deliver(at, node, 1, 0, picks);
    assert Sized(s) by {
      OkIsSized(cfg, s);
    }
    n' := Net(n.nodes[node := s'], Drop(n.wire, at) + if NodeForwards(cfg, n, ev) then Sent(arrived, 1) else []);
    HandledGoesOut(cfg, 1, n, ev, n');
    forall v | 0 <= v < |n'.nodes| ensures NodeOk(cfg, n'.nodes[v]) {
      assert NodeOk(cfg, n.nodes[v]);
    }
  }

  lemma {:induction false} OkIsSized(cfg: Config, s: Cache)
    requires TablesOk(cfg, s)
    ensures Sized(s)
  {
  }

  /** Flooding reaches every node that is near enough: along any chain of nodes to which a packet with `h` hops is
      new, whatever their tables hold otherwise, copies of it that are not lost arrive at the first node and at all
      that are fewer than `max_hops - h` steps behind it, at the k-th one after k more hops. */
  lemma {:induction false} ChainDelivers(cfg: Config, n: Net, at: nat, m: seq<Byte>, path: seq<nat>) returns (nets: seq<Net>, evs: seq<NetEvent>)
    requires Sound(cfg, m) && NodesOk(cfg, n) && at < |n.wire| && n.wire[at] == m
    requires DistinctNodes(path, |n.nodes|) && NewTo(n, path, MessageId(cfg.sha, m).value)
    requires |path| <= 1 || m[HOPS] + |path| <= m[MAX_HOPS]
    ensures PassedAlong(cfg, nets, evs, path, m) && nets[0] == n
    decreases |path|
  {
    hide NodeOk, MessageId, Knows, NetStep;
    if path == [] {
      nets, evs := [n], [];
    } else {
      var ev, n' := DeliverOnce(cfg, n, at, m, path[0]);
      if |path| == 1 {
        nets, evs := [n, n'], [ev];
      } else {
        var m' := m[HOPS := m[HOPS] + 1];
        MessageIdIgnoresHops(cfg.sha, m, HOPS, m[HOPS] + 1);
        var more, rest := ChainDelivers(cfg, n', |n'.wire| - 1, m', path[1..]);
        nets, evs := [n] + more, [ev] + rest;
        ChainLonger(cfg, n, ev, more, rest, path, m);
      }
    }
  }

  lemma {:induction false} ChainLonger(cfg: Config, n: Net, ev: NetEvent, more: seq<Net>, rest: seq<NetEvent>, path: seq<nat>, m: seq<Byte>)
    requires HasHeader(m) && m[HOPS] < 255 && path != [] && more != [] && NetStep(cfg, 1, n, ev, more[0])
    requires TakesAfter(n, ev, path[0], m, 0) && PassedAlong(cfg, more, rest, path[1..], m[HOPS := m[HOPS] + 1])
    ensures PassedAlong(cfg, [n] + more, [ev] + rest, path, m)
  {
    hide NetStep;
    var nets, evs := [n] + more, [ev] + rest;
    forall k | 0 <= k < |evs| ensures NetStep(cfg, 1, nets[k], evs[k], nets[k + 1]) {
      if k > 0 {
        assert NetStep(cfg, 1, more[k - 1], rest[k - 1], more[k]);
      }
    }
    forall k | 0 <= k < |path| ensures TakesAfter(nets[k], evs[k], path[k], m, k) {
      if k > 0 {
        var m' := m[HOPS := m[HOPS] + 1];
        assert TakesAfter(more[k - 1], rest[k - 1], path[1..][k - 1], m', k - 1);
        assert m'[HOPS := m'[HOPS] + (k - 1)] == m[HOPS := m[HOPS] + k];
      }
    }
  }

  /** No packet travels further: a node takes a packet of a chain only within its limit on hops. */
  lemma {:induction false} ChainIsShort(cfg: Config, nets: seq<Net>, evs: seq<NetEvent>, path: seq<nat>, m: seq<Byte>, k: nat)
    requires HasHeader(m) && PassedAlong(cfg, nets, evs, path, m) && k < |path|
    ensures m[HOPS] + k <= m[MAX_HOPS]
  {
    hide Reaches, ProcessEvents, Forwards, TablesOk;
    assert NetStep(cfg, 1, nets[k], evs[k], nets[k + 1]);
    assert TakesAfter(nets[k], evs[k], path[k], m, k);
  }
}
