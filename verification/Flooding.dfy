/**
 A network of daemons that flood packets to each other.  Copies in flight may be lost, delayed,
 reordered or sent to any node; every node also does other work on its cache at any time.
 */
module Flooding {
  import opened Base
  import opened Bloom
  import opened Daemon
  import opened Packets
  import opened PcacheInvariants
  import opened PcacheModel
  import opened Records
  import opened Remembering

  const TYPE_ACK := 2
  const TYPE_DATA_REQ := 3
  const TYPE_MGMT := 7

  /** Neither ack, nor data request, nor management. */
  predicate Ordinary(m: seq<Byte>) {
    HasHeader(m) && m[MESSAGE_TYPE] != TYPE_ACK && m[MESSAGE_TYPE] != TYPE_DATA_REQ && m[MESSAGE_TYPE] != TYPE_MGMT
  }

  datatype Net = Net(nodes: seq<Cache>, wire: seq<seq<Byte>>)

  /** Deliver: an ordinary packet arrives from another system.  Relay: a packet of another type arrives,
      and perhaps a changed one with its hop count goes out.  Originate: an ordinary packet arrives from
      a local application.  Inject: a node sends something of its own accord.  Inside: a node works on
      its cache. */
  datatype NetEvent =
    | Deliver(at: nat, node: nat, copies: nat, priority: U32, picks: seq<seq<nat>>)
    | Relay(at: nat, copies: nat, out: seq<Byte>)
    | Lose(at: nat)
    | Originate(message: seq<Byte>, node: nat, copies: nat, priority: U32, picks: seq<seq<nat>>)
    | Inject(message: seq<Byte>, copies: nat)
    | Inside(node: nat, ev: Event)

  function Drop(wire: seq<seq<Byte>>, at: nat): (rest: seq<seq<Byte>>)
    requires at < |wire|
  {
    wire[..at] + wire[at + 1..]
  }

  function Copies(m: seq<Byte>, n: nat): (ms: seq<seq<Byte>>) {
    seq(n, _ => m)
  }

  /** What send_out puts on the wire. */
  function Sent(m: seq<Byte>, n: nat): (ms: seq<seq<Byte>>) {
    if SendsOut(m) then Copies(m, n) else []
  }

  ghost predicate OthersSame(n: Net, n': Net, node: nat) {
    |n'.nodes| == |n.nodes| && forall v | 0 <= v < |n.nodes| && v != node :: n'.nodes[v] == n.nodes[v]
  }

  /** The packet that a node handles in a step, with the hop counted. */
  function Handled(n: Net, ev: NetEvent): (m: seq<Byte>)
    requires ev.Deliver? ==> ev.at < |n.wire| && HasHeader(n.wire[ev.at])
    requires ev.Deliver? || ev.Originate?
  {
    if ev.Deliver? then Arrived(n.wire[ev.at], false) else ev.message
  }

  ghost predicate CanHandle(n: Net, ev: NetEvent) {
    && (ev.Deliver? || ev.Originate?)
    && ev.node < |n.nodes| && Sized(n.nodes[ev.node])
    && (ev.Deliver? ==> ev.at < |n.wire| && ValidHops(n.wire[ev.at]) && Ordinary(n.wire[ev.at]))
    && (ev.Originate? ==> ValidHops(ev.message) && Ordinary(ev.message))
  }

  /** The node forwards the packet that it handles. */
  ghost predicate NodeForwards(cfg: Config, n: Net, ev: NetEvent)
    requires CanHandle(n, ev)
  {
    Forwards(cfg, n.nodes[ev.node], Handled(n, ev), ev.Originate?)
  }

  ghost predicate Handles(cfg: Config, fan: nat, n: Net, ev: NetEvent, n': Net)
    requires ev.Deliver? || ev.Originate?
  {
    && CanHandle(n, ev) && ev.copies <= fan && OthersSame(n, n', ev.node)
    && var s, m := n.nodes[ev.node], Handled(n, ev);
       && Reaches(cfg, s, ProcessEvents(cfg, s, m, ev.priority, ev.picks), n'.nodes[ev.node])
       && n'.wire == (if ev.Deliver? then Drop(n.wire, ev.at) else n.wire)
                     + if NodeForwards(cfg, n, ev) then Sent(m, ev.copies) else []
  }

  /** A relayed packet may be changed, but not its hop fields. */
  predicate KeepsHops(m: seq<Byte>, out: seq<Byte>) {
    HasHeader(m) && HasHeader(out) && out[HOPS] == m[HOPS] && out[MAX_HOPS] == m[MAX_HOPS]
  }

  ghost predicate NetStep(cfg: Config, fan: nat, n: Net, ev: NetEvent, n': Net) {
    match ev
    case Deliver(_, _, _, _, _) => Handles(cfg, fan, n, ev, n')
    case Originate(_, _, _, _, _) => Handles(cfg, fan, n, ev, n')
    case Relay(at, copies, out) =>
      && at < |n.wire| && ValidHops(n.wire[at]) && copies <= fan && n'.nodes == n.nodes
      && KeepsHops(Arrived(n.wire[at], false), out) && n'.wire == Drop(n.wire, at) + Sent(out, copies)
    case Lose(at) => at < |n.wire| && n'.nodes == n.nodes && n'.wire == Drop(n.wire, at)
    case Inject(message, copies) => n'.nodes == n.nodes && n'.wire == n.wire + Copies(message, copies)
    case Inside(node, e) =>
      node < |n.nodes| && OthersSame(n, n', node) && IsStep(cfg, n.nodes[node], e, n'.nodes[node]) && n'.wire == n.wire
  }

  ghost predicate IsNetRun(cfg: Config, fan: nat, nets: seq<Net>, evs: seq<NetEvent>) {
    && |nets| == |evs| + 1
    && forall k | 0 <= k < |evs| :: NetStep(cfg, fan, nets[k], evs[k], nets[k + 1])
  }

  // ---------------------------------------------------------------------------
  // Each node forwards a message at most once while it recalls it
  // ---------------------------------------------------------------------------

  ghost predicate NodesOk(cfg: Config, n: Net) {
    forall v | 0 <= v < |n.nodes| :: NodeOk(cfg, n.nodes[v])
  }

  ghost predicate NodeOk(cfg: Config, s: Cache) {
    TablesOk(cfg, s)
  }

  /** The step does not make node `v` drop the whole entry of the ID. */
  ghost predicate NodeSpares(cfg: Config, n: Net, ev: NetEvent, v: nat, id: Id) {
    match ev
    case Inside(node, e) => node == v && v < |n.nodes| ==> Spares(cfg, n.nodes[v], e, id)
    case Deliver(_, _, _, _, _) => HandleSpares(cfg, n, ev, v, id)
    case Originate(_, _, _, _, _) => HandleSpares(cfg, n, ev, v, id)
    case _ => true
  }

  ghost predicate HandleSpares(cfg: Config, n: Net, ev: NetEvent, v: nat, id: Id)
    requires ev.Deliver? || ev.Originate?
  {
    ev.node == v && CanHandle(n, ev) ==>
      AllSpare(cfg, n.nodes[v], ProcessEvents(cfg, n.nodes[v], Handled(n, ev), ev.priority, ev.picks), id)
  }

  lemma {:induction false} NetStepRemembers(cfg: Config, fan: nat, n: Net, ev: NetEvent, n': Net, v: nat, id: Id, since: nat)
    requires NodesOk(cfg, n) && NetStep(cfg, fan, n, ev, n') && v < |n.nodes| && since <= n.nodes[v].bloom.epoch
    ensures |n'.nodes| == |n.nodes| && NodeOk(cfg, n.nodes[v]) && NodeOk(cfg, n'.nodes[v])
    ensures n.nodes[v].bloom.epoch <= n'.nodes[v].bloom.epoch
    ensures Recalls(n.nodes[v], id, since) && NodeSpares(cfg, n, ev, v, id) ==> Recalls(n'.nodes[v], id, since)
  {
    hide EntriesOk, AcksOk, Recalls, Registers, Step, ValidEvent, WellSized, Clears, Reaches, AllSpare, ProcessEvents,
      Forwards, Sent;
    var s := n.nodes[v];
    assert NodeOk(cfg, s);
    match ev
    case Inside(node, e) =>
      if node == v {
        StepRemembers(cfg, s, e, n'.nodes[v], id, since);
      }
    case Deliver(_, node, _, priority, picks) =>
      if node == v {
        ReachesRemembers(cfg, s, ProcessEvents(cfg, s, Handled(n, ev), priority, picks), n'.nodes[v], id, since);
      }
    case Originate(_, node, _, priority, picks) =>
      if node == v {
        ReachesRemembers(cfg, s, ProcessEvents(cfg, s, Handled(n, ev), priority, picks), n'.nodes[v], id, since);
      }
    case _ =>
  }

  lemma {:induction false} NetRunOk(cfg: Config, fan: nat, nets: seq<Net>, evs: seq<NetEvent>, k: nat)
    requires IsNetRun(cfg, fan, nets, evs) && NodesOk(cfg, nets[0]) && k < |nets|
    ensures NodesOk(cfg, nets[k]) && |nets[k].nodes| == |nets[0].nodes|
    decreases k
  {
    hide NodeOk, NetStep;
    if k > 0 {
      NetRunOk(cfg, fan, nets, evs, k - 1);
      assert NetStep(cfg, fan, nets[k - 1], evs[k - 1], nets[k]);
      SameNodes(cfg, fan, nets[k - 1], evs[k - 1], nets[k]);
      forall v | 0 <= v < |nets[k].nodes| ensures NodeOk(cfg, nets[k].nodes[v]) {
        NetStepRemembers(cfg, fan, nets[k - 1], evs[k - 1], nets[k], v, NO_TOKEN, 0);
      }
    }
  }

  lemma {:induction false} SameNodes(cfg: Config, fan: nat, n: Net, ev: NetEvent, n': Net)
    requires NetStep(cfg, fan, n, ev, n')
    ensures |n'.nodes| == |n.nodes|
  {
    hide Reaches, ProcessEvents, Step, ValidEvent;
  }

  /** What node `v` recalls after the first `i` steps it still recalls later, while its entry is spared. */
  lemma {:induction false} NetRunRecalls(cfg: Config, fan: nat, nets: seq<Net>, evs: seq<NetEvent>, i: nat, j: nat,
                                         v: nat, id: Id, since: nat)
    requires IsNetRun(cfg, fan, nets, evs) && NodesOk(cfg, nets[0])
    requires i <= j < |nets| && v < |nets[0].nodes| == |nets[i].nodes|
    requires Sized(nets[i].nodes[v]) && Recalls(nets[i].nodes[v], id, since) && since <= nets[i].nodes[v].bloom.epoch
    requires forall k | i <= k < j :: NodeSpares(cfg, nets[k], evs[k], v, id)
    ensures |nets[j].nodes| == |nets[0].nodes| && NodeOk(cfg, nets[j].nodes[v])
    ensures Recalls(nets[j].nodes[v], id, since) && since <= nets[j].nodes[v].bloom.epoch
    decreases j
  {
    hide EntriesOk, AcksOk, Recalls, NetStep, NodeSpares;
    NetRunOk(cfg, fan, nets, evs, j);
    assert NodeOk(cfg, nets[j].nodes[v]);
    if i < j {
      NetRunOk(cfg, fan, nets, evs, j - 1);
      NetRunRecalls(cfg, fan, nets, evs, i, j - 1, v, id, since);
      assert NetStep(cfg, fan, nets[j - 1], evs[j - 1], nets[j]);
      NetStepRemembers(cfg, fan, nets[j - 1], evs[j - 1], nets[j], v, id, since);
    }
  }

  /** Fewer than sixteen filter advances of node `v` lie between two states of the network. */
  predicate Recent(n: Net, n': Net, v: nat) {
    v < |n.nodes| && v < |n'.nodes| && n'.nodes[v].bloom.epoch < n.nodes[v].bloom.epoch + NUM_FILTERS
  }

  /** Node `v` has the ID in one of its tables. */
  ghost predicate NodeStores(n: Net, v: nat, id: Id) {
    v < |n.nodes| && Sized(n.nodes[v]) && InTables(n.nodes[v], id)
  }

  /** In every run of every network: a node that stores an ID finds it until sixteen advances later, unless
      a save drops the ID's whole entry. */
  lemma {:induction false} NetRunRemembers(cfg: Config, fan: nat, nets: seq<Net>, evs: seq<NetEvent>, l: nat, j: nat, v: nat, id: Id)
    requires IsNetRun(cfg, fan, nets, evs) && NodesOk(cfg, nets[0]) && l <= j < |nets|
    requires forall k | l <= k < j :: NodeSpares(cfg, nets[k], evs[k], v, id)
    requires NodeStores(nets[l], v, id) && Recent(nets[l], nets[j], v)
    ensures Sized(nets[j].nodes[v]) && Remembered(nets[j].nodes[v], id)
  {
    hide EntriesOk, AcksOk, NetStep, NodeSpares, InTables, Remembered, Held;
    NetRunOk(cfg, fan, nets, evs, l);
    NetRunRecalls(cfg, fan, nets, evs, l, j, v, id, nets[l].nodes[v].bloom.epoch);
    RecalledIsFound(nets[j].nodes[v], id, nets[l].nodes[v].bloom.epoch);
  }

  /** In every run of every network: once a node has handled an ordinary packet, it forwards no packet with
      the same ID that arrives from another system, until sixteen advances of its filters later, counted
      from then or from any later state in which it has the ID in a table, unless a save drops the ID's
      whole entry. */
  lemma {:induction false} ForwardOnce(cfg: Config, fan: nat, nets: seq<Net>, evs: seq<NetEvent>, i: nat, j: nat, id: Id)
    requires IsNetRun(cfg, fan, nets, evs) && NodesOk(cfg, nets[0]) && i < j < |evs|
    requires (evs[i].Deliver? || evs[i].Originate?) && CanHandle(nets[i], evs[i])
    requires evs[j].Deliver? && CanHandle(nets[j], evs[j]) && evs[j].node == evs[i].node
    requires MessageId(cfg.sha, Handled(nets[i], evs[i])) == Some(id) == MessageId(cfg.sha, Handled(nets[j], evs[j]))
    requires forall k | i < k < j :: NodeSpares(cfg, nets[k], evs[k], evs[i].node, id)
    ensures NodeForwards(cfg, nets[j], evs[j]) ==>
              && !Recent(nets[i], nets[j], evs[i].node)
              && forall l | i < l <= j && NodeStores(nets[l], evs[i].node, id) :: !Recent(nets[l], nets[j], evs[i].node)
  {
    hide EntriesOk, AcksOk, Recalls, Reaches, ProcessEvents, NodeSpares, MessageId, Remembered, Sent, InTables;
    var v := evs[i].node;
    var since := nets[i].nodes[v].bloom.epoch;
    NetRunOk(cfg, fan, nets, evs, i);
    NetRunOk(cfg, fan, nets, evs, i + 1);
    assert NetStep(cfg, fan, nets[i], evs[i], nets[i + 1]);
    assert NodeOk(cfg, nets[i].nodes[v]);
    NetStepRemembers(cfg, fan, nets[i], evs[i], nets[i + 1], v, id, since);
    HandledIsRecalled(cfg, nets[i].nodes[v], Handled(nets[i], evs[i]), evs[i].priority, evs[i].picks, nets[i + 1].nodes[v]);
    NetRunRecalls(cfg, fan, nets, evs, i + 1, j, v, id, since);
    if Recent(nets[i], nets[j], v) {
      RecalledIsFound(nets[j].nodes[v], id, since);
    }
    forall l | i < l <= j && NodeStores(nets[l], v, id) && Recent(nets[l], nets[j], v)
      ensures Remembered(nets[j].nodes[v], id)
    {
      NetRunRemembers(cfg, fan, nets, evs, l, j, v, id);
    }
  }

  // ---------------------------------------------------------------------------
  // Hops
  // ---------------------------------------------------------------------------

  /** A forwarded ordinary packet differs from the one received in the hop count only, which is one more
      and below the limit, and it has the same ID. */
  lemma {:induction false} ForwardedPacket(cfg: Config, m: seq<Byte>)
    requires HasHeader(m) && SendsOut(Arrived(m, false))
    ensures var out := Arrived(m, false);
            && out == m[HOPS := m[HOPS] + 1] && m[HOPS] < out[HOPS] < out[MAX_HOPS] == m[MAX_HOPS]
            && MessageId(cfg.sha, out) == MessageId(cfg.sha, m)
  {
    if m[HOPS] < 255 {
      MessageIdIgnoresHops(cfg.sha, m, HOPS, m[HOPS] + 1);
    }
  }

  /** A packet that arrives with its hop count at the limit is accepted once more, but is neither sent
      out, nor accepted by a system that would get the stored copy in answer to a request. */
  lemma {:induction false} LastHop(m: seq<Byte>)
    requires ValidHops(m) && !SendsOut(m) && m[HOPS] < 255
    ensures !SendsOut(Arrived(m, false)) && !ValidHops(Arrived(m, false))
  {
  }

  ghost predicate WireOk(wire: seq<seq<Byte>>, injected: set<seq<Byte>>) {
    forall k | 0 <= k < |wire| :: SendsOut(wire[k]) || wire[k] in injected
  }

  function InjectedBy(evs: seq<NetEvent>, k: nat): (ms: set<seq<Byte>>)
    requires k <= |evs|
  {
    if k == 0 then {} else InjectedBy(evs, k - 1) + InjectedIn(evs[k - 1])
  }

  lemma {:induction false} DropOk(wire: seq<seq<Byte>>, at: nat, injected: set<seq<Byte>>)
    requires at < |wire| && WireOk(wire, injected)
    ensures WireOk(Drop(wire, at), injected)
  {
    hide SendsOut;
  }

  lemma {:induction false} ConcatOk(wire: seq<seq<Byte>>, more: seq<seq<Byte>>, injected: set<seq<Byte>>)
    requires WireOk(wire, injected) && WireOk(more, injected)
    ensures WireOk(wire + more, injected)
  {
    hide SendsOut;
  }

  function InjectedIn(ev: NetEvent): (ms: set<seq<Byte>>) {
    if ev.Inject? then {ev.message} else {}
  }

  lemma {:induction false} StepStaysBelow(cfg: Config, fan: nat, n: Net, ev: NetEvent, n': Net, injected: set<seq<Byte>>)
    requires NetStep(cfg, fan, n, ev, n') && WireOk(n.wire, injected)
    ensures WireOk(n'.wire, injected + InjectedIn(ev))
  {
    hide SendsOut, Reaches, ProcessEvents, IsStep, Forwards, Drop;
    var more := injected + InjectedIn(ev);
    if ev.Deliver? || ev.Relay? || ev.Lose? {
      DropOk(n.wire, ev.at, more);
    }
    match ev
    case Deliver(at, _, copies, _, _) =>
      ConcatOk(Drop(n.wire, at), Sent(Handled(n, ev), copies), more);
      ConcatOk(Drop(n.wire, at), [], more);
    case Relay(at, copies, out) => ConcatOk(Drop(n.wire, at), Sent(out, copies), more);
    case Originate(m, _, copies, _, _) =>
      ConcatOk(n.wire, Sent(m, copies), more);
      ConcatOk(n.wire, [], more);
    case Inject(m, copies) => ConcatOk(n.wire, Copies(m, copies), more);
    case _ =>
  }

  /** In every run all packets in flight have a hop count below their limit, except those that a node
      injected itself. */
  lemma {:induction false} HopsStayBelow(cfg: Config, fan: nat, nets: seq<Net>, evs: seq<NetEvent>, k: nat)
    requires IsNetRun(cfg, fan, nets, evs) && WireOk(nets[0].wire, {}) && k < |nets|
    ensures WireOk(nets[k].wire, InjectedBy(evs, k))
    decreases k
  {
    hide NetStep, WireOk, InjectedIn;
    if k > 0 {
      HopsStayBelow(cfg, fan, nets, evs, k - 1);
      assert NetStep(cfg, fan, nets[k - 1], evs[k - 1], nets[k]);
      StepStaysBelow(cfg, fan, nets[k - 1], evs[k - 1], nets[k], InjectedBy(evs, k - 1));
    }
  }

  // ---------------------------------------------------------------------------
  // Flooding ends
  // ---------------------------------------------------------------------------

  /** How many arrivals one copy with `left` more hops can cause when each makes at most `fan` copies. */
  function Reach(fan: nat, left: nat): (n: nat)
    ensures n >= 1
  {
    if left == 0 then 1 else 1 + fan * Reach(fan, left - 1)
  }

  function HopsLeft(m: seq<Byte>): (n: nat) {
    if ValidHops(m) then m[MAX_HOPS] - m[HOPS] else 0
  }

  /** The arrivals that copies in flight can cause. */
  function Potential(fan: nat, wire: seq<seq<Byte>>): (n: nat) {
    if wire == [] then 0 else Potential(fan, wire[..|wire| - 1]) + Reach(fan, HopsLeft(wire[|wire| - 1]))
  }

  lemma {:induction false} PotentialConcat(fan: nat, a: seq<seq<Byte>>, b: seq<seq<Byte>>)
    ensures Potential(fan, a + b) == Potential(fan, a) + Potential(fan, b)
    decreases |b|
  {
    if b == [] {
      assert a + b == a;
    } else {
      PotentialConcat(fan, a, b[..|b| - 1]);
      assert (a + b)[..|a + b| - 1] == a + b[..|b| - 1];
    }
  }

  lemma {:induction false} PotentialDrop(fan: nat, wire: seq<seq<Byte>>, at: nat)
    requires at < |wire|
    ensures Potential(fan, Drop(wire, at)) == Potential(fan, wire) - Reach(fan, HopsLeft(wire[at]))
  {
    hide Reach, HopsLeft;
    PotentialConcat(fan, wire[..at], wire[at + 1..]);
    PotentialConcat(fan, wire[..at + 1], wire[at + 1..]);
    assert wire == wire[..at + 1] + wire[at + 1..];
    assert wire[..at + 1][..at] == wire[..at];
  }

  lemma {:induction false} PotentialCopies(fan: nat, m: seq<Byte>, n: nat)
    ensures Potential(fan, Copies(m, n)) == n * Reach(fan, HopsLeft(m))
    decreases n
  {
    hide Reach, HopsLeft;
    if n > 0 {
      PotentialCopies(fan, m, n - 1);
      assert Copies(m, n)[..n - 1] == Copies(m, n - 1);
    }
  }

  /** What one arrival sends out weighs less than what arrived. */
  lemma {:induction false} SentWeighsLess(fan: nat, m: seq<Byte>, out: seq<Byte>, copies: nat)
    requires ValidHops(m) && KeepsHops(Arrived(m, false), out) && copies <= fan
    ensures Potential(fan, Sent(out, copies)) < Reach(fan, HopsLeft(m))
  {
    if SendsOut(out) {
      PotentialCopies(fan, out, copies);
      MulLess(copies, fan, Reach(fan, HopsLeft(out)));
      assert HopsLeft(out) == HopsLeft(m) - 1;
    }
  }

  lemma {:induction false} MulLess(a: nat, b: nat, c: nat)
    requires a <= b
    ensures a * c <= b * c
  {
    assert b * c - a * c == (b - a) * c;
  }

  /** Packets taken off the wire by the first `k` steps. */
  function Arrivals(evs: seq<NetEvent>, k: nat): (n: nat)
    requires k <= |evs|
  {
    if k == 0 then 0
    else Arrivals(evs, k - 1) + if evs[k - 1].Deliver? || evs[k - 1].Relay? || evs[k - 1].Lose? then 1 else 0
  }

  /** The potential that the nodes themselves add in the first `k` steps. */
  function Added(fan: nat, evs: seq<NetEvent>, k: nat): (n: nat)
    requires k <= |evs|
  {
    if k == 0 then 0
    else Added(fan, evs, k - 1) + AddedBy(fan, evs[k - 1])
  }

  function AddedBy(fan: nat, ev: NetEvent): (n: nat) {
    if ev.Originate? || ev.Inject? then ev.copies * Reach(fan, HopsLeft(ev.message)) else 0
  }

  lemma {:induction false} StepWeighsLess(cfg: Config, fan: nat, n: Net, ev: NetEvent, n': Net)
    requires NetStep(cfg, fan, n, ev, n')
    ensures Potential(fan, n'.wire) + (if ev.Deliver? || ev.Relay? || ev.Lose? then 1 else 0)
            <= Potential(fan, n.wire) + AddedBy(fan, ev)
  {
    hide Reach, Potential, Reaches, ProcessEvents, IsStep, SendsOut, HopsLeft;
    match ev
    case Deliver(at, _, copies, _, _) =>
      var m := Handled(n, ev);
      PotentialDrop(fan, n.wire, at);
      SentWeighsLess(fan, n.wire[at], m, copies);
      PotentialConcat(fan, Drop(n.wire, at), Sent(m, copies));
      PotentialConcat(fan, Drop(n.wire, at), []);
      PotentialEmpty(fan);
    case Relay(at, copies, out) =>
      PotentialDrop(fan, n.wire, at);
      SentWeighsLess(fan, n.wire[at], out, copies);
      PotentialConcat(fan, Drop(n.wire, at), Sent(out, copies));
    case Lose(at) => PotentialDrop(fan, n.wire, at);
    case Originate(m, _, copies, _, _) =>
      PotentialCopies(fan, m, copies);
      PotentialConcat(fan, n.wire, Sent(m, copies));
      PotentialConcat(fan, n.wire, []);
      PotentialEmpty(fan);
    case Inject(m, copies) =>
      PotentialCopies(fan, m, copies);
      PotentialConcat(fan, n.wire, Copies(m, copies));
    case Inside(_, _) =>
  }

  lemma {:induction false} PotentialEmpty(fan: nat)
    ensures Potential(fan, []) == 0
  {
  }

  /** Flooding ends even if no node remembers anything: in every run the number of arrivals is bounded by
      the hops that the packets in flight, and those that nodes add, have left. */
  lemma {:induction false} FloodingEnds(cfg: Config, fan: nat, nets: seq<Net>, evs: seq<NetEvent>, k: nat)
    requires IsNetRun(cfg, fan, nets, evs) && k < |nets|
    ensures Arrivals(evs, k) + Potential(fan, nets[k].wire) <= Potential(fan, nets[0].wire) + Added(fan, evs, k)
    decreases k
  {
    hide NetStep, Potential, AddedBy;
    if k > 0 {
      FloodingEnds(cfg, fan, nets, evs, k - 1);
      assert NetStep(cfg, fan, nets[k - 1], evs[k - 1], nets[k]);
      StepWeighsLess(cfg, fan, nets[k - 1], evs[k - 1], nets[k]);
    }
  }
}
