/**
 The way of a packet through a network: the steps that take a copy off the wire and send it on.  Along each
 way the hops go up by one, so that it is no longer than the limit of the packet.
 */
module Paths {
  import opened Base
  import opened Daemon
  import opened Flooding
  import opened Packets
  import opened PcacheInvariants
  import opened PcacheModel

  predicate Arrives(ev: NetEvent) {
    ev.Deliver? || ev.Relay?
  }

  /** The packet that a step takes off the wire. */
  function Taken(n: Net, ev: NetEvent): (m: seq<Byte>)
    requires Arrives(ev) && ev.at < |n.wire|
  {
    n.wire[ev.at]
  }

  /** The packets that a step puts on the wire. */
  ghost function SentBy(cfg: Config, n: Net, ev: NetEvent): (ms: seq<seq<Byte>>) {
    match ev
    case Deliver(_, _, copies, _, _) => if CanHandle(n, ev) && NodeForwards(cfg, n, ev) then Sent(Handled(n, ev), copies) else []
    case Originate(m, _, copies, _, _) => if CanHandle(n, ev) && NodeForwards(cfg, n, ev) then Sent(m, copies) else []
    case Relay(_, copies, out) => Sent(out, copies)
    case Inject(m, copies) => Copies(m, copies)
    case _ => []
  }

  /** A step changes the wire by what it takes and what it sends. */
  lemma {:induction false} WireAfter(cfg: Config, fan: nat, n: Net, ev: NetEvent, n': Net)
    requires NetStep(cfg, fan, n, ev, n')
    ensures Arrives(ev) ==> ev.at < |n.wire| && ValidHops(n.wire[ev.at])
    ensures n'.wire == (if Arrives(ev) || ev.Lose? then Drop(n.wire, ev.at) else n.wire) + SentBy(cfg, n, ev)
  {
    hide Reaches, ProcessEvents, IsStep, Forwards, Sent, Copies;
    assert n.wire + [] == n.wire;
    if ev.Lose? {
      assert Drop(n.wire, ev.at) + [] == Drop(n.wire, ev.at);
    }
  }

  /** What is sent on has one more hop than what arrived, the same limit, and is below it. */
  lemma {:induction false} OneMoreHop(cfg: Config, fan: nat, n: Net, ev: NetEvent, n': Net, out: seq<Byte>)
    requires NetStep(cfg, fan, n, ev, n') && Arrives(ev) && out in SentBy(cfg, n, ev)
    ensures ev.at < |n.wire| && ValidHops(Taken(n, ev)) && HasHeader(out)
    ensures out[HOPS] == Taken(n, ev)[HOPS] + 1 && out[MAX_HOPS] == Taken(n, ev)[MAX_HOPS] && out[HOPS] < out[MAX_HOPS]
    ensures ev.Deliver? ==> MessageId(cfg.sha, out) == MessageId(cfg.sha, Taken(n, ev))
  {
    hide Reaches, ProcessEvents, IsStep, Forwards;
    WireAfter(cfg, fan, n, ev, n');
    if ev.Deliver? {
      ForwardedPacket(cfg, Taken(n, ev));
    }
  }

  /** Step `j` takes a packet that step `i` sent. */
  ghost predicate Causes(cfg: Config, nets: seq<Net>, evs: seq<NetEvent>, i: nat, j: nat)
    requires |nets| == |evs| + 1
  {
    && i < j < |evs| && Arrives(evs[j]) && evs[j].at < |nets[j].wire|
    && Taken(nets[j], evs[j]) in SentBy(cfg, nets[i], evs[i])
  }

  /** Each step takes a packet that the one before it sent. */
  ghost predicate IsPath(cfg: Config, nets: seq<Net>, evs: seq<NetEvent>, path: seq<nat>)
    requires |nets| == |evs| + 1
  {
    && path != [] && (forall k | 0 <= k < |path| :: path[k] < |evs|)
    && forall k | 0 < k < |path| :: Causes(cfg, nets, evs, path[k - 1], path[k])
  }

  /** The packet that step `k` of a path takes. */
  function At(nets: seq<Net>, evs: seq<NetEvent>, path: seq<nat>, k: nat): (m: seq<Byte>)
    requires |nets| == |evs| + 1 && k < |path| && path[k] < |evs|
    requires Arrives(evs[path[k]]) && evs[path[k]].at < |nets[path[k]].wire|
  {
    Taken(nets[path[k]], evs[path[k]])
  }

  ghost predicate Taking(nets: seq<Net>, evs: seq<NetEvent>, path: seq<nat>, k: nat)
    requires |nets| == |evs| + 1
  {
    k < |path| && path[k] < |evs| && Arrives(evs[path[k]]) && evs[path[k]].at < |nets[path[k]].wire|
  }

  /** Along every path of every run the hops go up by one at each step, the limit stays, and so does the ID while the
      packet is an ordinary one. */
  lemma {:induction false} HopsCountSteps(cfg: Config, fan: nat, nets: seq<Net>, evs: seq<NetEvent>, path: seq<nat>, k: nat)
    requires IsNetRun(cfg, fan, nets, evs) && IsPath(cfg, nets, evs, path) && Arrives(evs[path[0]]) && k < |path|
    ensures Taking(nets, evs, path, 0) && Taking(nets, evs, path, k)
    ensures var first, m := At(nets, evs, path, 0), At(nets, evs, path, k);
            && ValidHops(first) && ValidHops(m)
            && m[HOPS] == first[HOPS] + k && m[MAX_HOPS] == first[MAX_HOPS] && (k > 0 ==> m[HOPS] < m[MAX_HOPS])
            && ((forall i | 0 <= i < k :: evs[path[i]].Deliver?) ==> MessageId(cfg.sha, m) == MessageId(cfg.sha, first))
    decreases k
  {
    hide NetStep, MessageId, SentBy;
    var j := path[k];
    assert NetStep(cfg, fan, nets[j], evs[j], nets[j + 1]);
    if k == 0 {
      WireAfter(cfg, fan, nets[j], evs[j], nets[j + 1]);
    } else {
      var i := path[k - 1];
      HopsCountSteps(cfg, fan, nets, evs, path, k - 1);
      assert Causes(cfg, nets, evs, i, j);
      assert NetStep(cfg, fan, nets[i], evs[i], nets[i + 1]);
      OneMoreHop(cfg, fan, nets[i], evs[i], nets[i + 1], Taken(nets[j], evs[j]));
      WireAfter(cfg, fan, nets[j], evs[j], nets[j + 1]);
    }
  }

  /** ... and so a path has at most as many steps as its first packet has hops left, or one. */
  lemma {:induction false} PathIsShort(cfg: Config, fan: nat, nets: seq<Net>, evs: seq<NetEvent>, path: seq<nat>)
    requires IsNetRun(cfg, fan, nets, evs) && IsPath(cfg, nets, evs, path) && Arrives(evs[path[0]])
    ensures Taking(nets, evs, path, 0) && HasHeader(At(nets, evs, path, 0))
    ensures |path| == 1 || |path| <= HopsLeft(At(nets, evs, path, 0))
  {
    hide IsNetRun, Causes;
    HopsCountSteps(cfg, fan, nets, evs, path, 0);
    HopsCountSteps(cfg, fan, nets, evs, path, |path| - 1);
  }

  // ---------------------------------------------------------------------------
  // Every arrival is at the end of such a path
  // ---------------------------------------------------------------------------

  /** Where a packet in flight comes from: it was there at first, or a step sent it. */
  lemma {:induction false} ComesFrom(cfg: Config, fan: nat, nets: seq<Net>, evs: seq<NetEvent>, k: nat, m: seq<Byte>) returns (i: nat)
    requires IsNetRun(cfg, fan, nets, evs) && k < |nets| && m in nets[k].wire
    ensures m in nets[0].wire || (i < k && m in SentBy(cfg, nets[i], evs[i]))
    decreases k
  {
    hide NetStep, SentBy;
    i := 0;
    if k > 0 {
      assert NetStep(cfg, fan, nets[k - 1], evs[k - 1], nets[k]);
      WireAfter(cfg, fan, nets[k - 1], evs[k - 1], nets[k]);
      if m in SentBy(cfg, nets[k - 1], evs[k - 1]) {
        i := k - 1;
      } else {
        WasThere(nets[k - 1].wire, if Arrives(evs[k - 1]) || evs[k - 1].Lose? then evs[k - 1].at else 0, m);
        i := ComesFrom(cfg, fan, nets, evs, k - 1, m);
      }
    }
  }

  lemma {:induction false} WasThere(wire: seq<seq<Byte>>, at: nat, m: seq<Byte>)
    ensures at < |wire| && m in Drop(wire, at) ==> m in wire
  {
  }

  /** The packet was in flight at first, or a node sent it of its own accord. */
  predicate Starts(nets: seq<Net>, evs: seq<NetEvent>, i: nat)
    requires |nets| == |evs| + 1 && i < |evs|
  {
    evs[i].Originate? || evs[i].Inject? || (Arrives(evs[i]) && evs[i].at < |nets[i].wire| && Taken(nets[i], evs[i]) in nets[0].wire)
  }

  /** Every arrival in every run is at the end of a path that starts with a packet in flight at first, or with one
      that a node sent of its own accord. */
  lemma {:induction false} ArrivalHasPath(cfg: Config, fan: nat, nets: seq<Net>, evs: seq<NetEvent>, j: nat) returns (path: seq<nat>)
    requires IsNetRun(cfg, fan, nets, evs) && j < |evs| && Arrives(evs[j])
    ensures IsPath(cfg, nets, evs, path) && path[|path| - 1] == j && Starts(nets, evs, path[0])
    ensures forall k | 0 < k < |path| :: Arrives(evs[path[k]])
    decreases j
  {
    hide NetStep, SentBy;
    assert NetStep(cfg, fan, nets[j], evs[j], nets[j + 1]);
    WireAfter(cfg, fan, nets[j], evs[j], nets[j + 1]);
    var m := Taken(nets[j], evs[j]);
    var i := ComesFrom(cfg, fan, nets, evs, j, m);
    if m in nets[0].wire {
      path := [j];
    } else if evs[i].Originate? || evs[i].Inject? {
      path := [i, j];
    } else {
      SendersArrive(cfg, nets[i], evs[i], m);
      var before := ArrivalHasPath(cfg, fan, nets, evs, i);
      path := before + [j];
      assert Causes(cfg, nets, evs, i, j);
    }
  }

  /** A packet that arrives with `h` hops is at most the (h + 2)-th step of its path: one sends it first, one takes
      it with no hops, and each later one adds a hop. */
  lemma {:induction false} HopsBoundPath(cfg: Config, fan: nat, nets: seq<Net>, evs: seq<NetEvent>, path: seq<nat>)
    requires IsNetRun(cfg, fan, nets, evs) && IsPath(cfg, nets, evs, path)
    requires Arrives(evs[path[|path| - 1]]) && forall k | 0 < k < |path| :: Arrives(evs[path[k]])
    ensures Taking(nets, evs, path, |path| - 1) && HasHeader(At(nets, evs, path, |path| - 1))
    ensures |path| - 2 <= At(nets, evs, path, |path| - 1)[HOPS]
  {
    hide NetStep, Causes;
    if Arrives(evs[path[0]]) {
      HopsCountSteps(cfg, fan, nets, evs, path, |path| - 1);
    } else {
      var rest := path[1..];
      assert forall k | 0 < k < |rest| :: Causes(cfg, nets, evs, rest[k - 1], rest[k]) by {
        forall k | 0 < k < |rest| ensures Causes(cfg, nets, evs, rest[k - 1], rest[k]) {
          assert Causes(cfg, nets, evs, path[k], path[k + 1]);
        }
      }
      HopsCountSteps(cfg, fan, nets, evs, rest, |rest| - 1);
    }
  }

  lemma {:induction false} SendersArrive(cfg: Config, n: Net, ev: NetEvent, m: seq<Byte>)
    requires m in SentBy(cfg, n, ev) && !ev.Originate? && !ev.Inject?
    ensures Arrives(ev)
  {
  }
}
