/**
 What an expiry of the routing table does to the ping list: the peers that leave are put up for pinging, most recent
 first, and of the earlier pings only those stay that were added since the expiry before.
 */
module RoutingPings {
  import opened Base
  import opened Routing

  /** The peer has not been added since the expiry before. */
  predicate Leaves(s: Table, i: nat) {
    i < |s.peers| && Live(s.peers[i]) && s.peers[i].age > 0
  }

  /** When the turn of a peer comes, another live peer has its internet address: one whose turn is still to come, or
      one that stays. */
  ghost predicate HeldBack(s: Table, i: nat)
    requires i < |s.peers|
  {
    exists j :: 0 <= j < |s.peers| && j != i && Live(s.peers[j]) && s.peers[j].ai.ip == s.peers[i].ai.ip
                && (j > i || s.peers[j].age == 0)
  }

  /** The addresses put up for pinging in the first `n` turns. */
  ghost function PutUp(s: Table, n: nat): (ups: seq<Addr>)
    requires n <= |s.peers|
  {
    if n == 0 then []
    else PutUp(s, n - 1) + if Leaves(s, n - 1) && !HeldBack(s, n - 1) then [s.peers[n - 1].ai] else []
  }

  /** A list without its live entries for a destination. */
  function Except(q: seq<Entry>, d: Dest): (rest: seq<Entry>) {
    if q == [] then []
    else
      var last := q[|q| - 1];
      Except(q[..|q| - 1], d) + if Live(last) && last.ai.dest == d then [] else [last]
  }

  /** A list of any length, with addresses put in front one after the other: each destination is there once. */
  function Pushed(q: seq<Entry>, ups: seq<Addr>): (q': seq<Entry>) {
    if ups == [] then q
    else
      var a := ups[|ups| - 1];
      [Entry(a, true, 0)] + Except(Pushed(q, ups[..|ups| - 1]), a.dest)
  }

  /** A ping list at the first step of an expiry. */
  function OlderPings(q: seq<Entry>): (q': seq<Entry>)
    ensures |q'| == |q|
  {
    seq(|q|, k requires 0 <= k < |q| => Older(q[k]))
  }

  // ---------------------------------------------------------------------------
  // One address put in front
  // ---------------------------------------------------------------------------

  lemma {:induction false} ExceptConcat(p: seq<Entry>, q: seq<Entry>, d: Dest)
    ensures Except(p + q, d) == Except(p, d) + Except(q, d)
    decreases |q|
  {
    hide Live;
    if q == [] {
      assert p + q == p;
    } else {
      ExceptConcat(p, q[..|q| - 1], d);
      assert (p + q)[..|p + q| - 1] == p + q[..|q| - 1];
    }
  }

  lemma {:induction false} ExceptNone(q: seq<Entry>, d: Dest)
    requires forall k | 0 <= k < |q| :: !(Live(q[k]) && q[k].ai.dest == d)
    ensures Except(q, d) == q
    decreases |q|
  {
    if q != [] {
      ExceptNone(q[..|q| - 1], d);
      assert q == q[..|q| - 1] + [q[|q| - 1]];
    }
  }

  /** Where destinations are distinct at most one entry leaves. */
  lemma {:induction false} ExceptOne(q: seq<Entry>, d: Dest, n: nat)
    requires PingsOk(q) && n < |q| && Live(q[n]) && q[n].ai.dest == d
    ensures Except(q, d) == q[..n] + q[n + 1..]
  {
    hide Except;
    forall k | 0 <= k < |q| && k != n ensures !(Live(q[k]) && q[k].ai.dest == d) {
      assert !PingedTwice(q, k, n);
    }
    ExceptNone(q[..n], d);
    ExceptNone(q[n + 1..], d);
    ExceptSingle(q[n], d);
    ExceptConcat(q[..n], [q[n]], d);
    ExceptConcat(q[..n] + [q[n]], q[n + 1..], d);
    assert q == q[..n] + [q[n]] + q[n + 1..];
  }

  lemma {:induction false} ExceptHas(q: seq<Entry>, d: Dest, e: Entry)
    ensures e in Except(q, d) <==> e in q && !(Live(e) && e.ai.dest == d)
    decreases |q|
  {
    if q != [] {
      ExceptHas(q[..|q| - 1], d, e);
      assert q == q[..|q| - 1] + [q[|q| - 1]];
    }
  }

  lemma {:induction false} CutPingsOk(q: seq<Entry>, n: nat)
    requires PingsOk(q) && n < |q|
    ensures PingsOk(q[..n] + q[n + 1..])
  {
    var r := q[..n] + q[n + 1..];
    forall i, j | 0 <= i < |r| && 0 <= j < |r| ensures !PingedTwice(r, i, j) {
      assert !PingedTwice(q, if i < n then i else i + 1, if j < n then j else j + 1);
    }
  }

  lemma {:induction false} ExceptPingsOk(q: seq<Entry>, d: Dest)
    requires PingsOk(q)
    ensures PingsOk(Except(q, d)) && |q| - 1 <= |Except(q, d)| <= |q|
  {
    if n :| 0 <= n < |q| && Live(q[n]) && q[n].ai.dest == d {
      ExceptOne(q, d, n);
      CutPingsOk(q, n);
    } else {
      ExceptNone(q, d);
    }
  }

  lemma {:induction false} FrontPingsOk(q: seq<Entry>, a: Addr)
    requires PingsOk(q)
    ensures PingsOk([Entry(a, true, 0)] + Except(q, a.dest))
  {
    var rest := Except(q, a.dest);
    var r := [Entry(a, true, 0)] + rest;
    ExceptPingsOk(q, a.dest);
    forall i, j | 0 <= i < |r| && 0 <= j < |r| ensures !PingedTwice(r, i, j) {
      if i > 0 && j > 0 {
        assert !PingedTwice(rest, i - 1, j - 1);
      } else if i > 0 {
        ExceptHas(q, a.dest, rest[i - 1]);
      } else if j > 0 {
        ExceptHas(q, a.dest, rest[j - 1]);
      }
    }
  }

  lemma {:induction false} PushedPingsOk(q: seq<Entry>, ups: seq<Addr>)
    requires PingsOk(q)
    ensures PingsOk(Pushed(q, ups)) && |Pushed(q, ups)| >= |q|
    decreases |ups|
  {
    hide PingsOk, Except;
    if ups != [] {
      var before := Pushed(q, ups[..|ups| - 1]);
      PushedPingsOk(q, ups[..|ups| - 1]);
      ExceptPingsOk(before, ups[|ups| - 1].dest);
      FrontPingsOk(before, ups[|ups| - 1]);
    }
  }

  /** The places of the program's array are the first of the longer list. */
  lemma {:induction false} InsertIsPush(q: seq<Entry>, a: Addr)
    requires PingsOk(q) && |q| >= MAX_PINGS
    ensures var n := FindPing(q[..MAX_PINGS], 0, a);
            var r := [Entry(a, true, 0)] + Except(q, a.dest);
            |r| >= MAX_PINGS && Insert(q[..MAX_PINGS], 0, if n == -1 then MAX_PINGS - 1 else n, Entry(a, true, 0)) == r[..MAX_PINGS]
  {
    hide FindPing;
    var p := q[..MAX_PINGS];
    var n := FindPing(p, 0, a);
    ExceptPingsOk(q, a.dest);
    if k :| 0 <= k < |q| && Live(q[k]) && q[k].ai.dest == a.dest {
      ExceptOne(q, a.dest, k);
      assert n >= 0 ==> !PingedTwice(q, n, k);
      assert k < MAX_PINGS ==> p[k] == q[k];
      InsertPlaces(q, if n == -1 then MAX_PINGS - 1 else n, k, a);
    } else {
      ExceptNone(q, a.dest);
      InsertPlaces(q, MAX_PINGS - 1, |q|, a);
    }
  }

  lemma {:induction false} InsertPlaces(q: seq<Entry>, last: nat, k: nat, a: Addr)
    requires |q| >= MAX_PINGS && k <= |q| && last < MAX_PINGS && (last == k || (last == MAX_PINGS - 1 && k >= MAX_PINGS))
    ensures var r := [Entry(a, true, 0)] + (if k < |q| then q[..k] + q[k + 1..] else q);
            |r| >= MAX_PINGS && Insert(q[..MAX_PINGS], 0, last, Entry(a, true, 0)) == r[..MAX_PINGS]
  {
  }

  // ---------------------------------------------------------------------------
  // A whole expiry
  // ---------------------------------------------------------------------------

  /** The table before turn `n`: the peers before are older, the others as they were. */
  ghost predicate AtTurn(s: Table, t: Table, n: nat) {
    && Sized(s) && Sized(t)
    && forall i | 0 <= i < MAX_PEERS :: t.peers[i] == if i < n then Older(s.peers[i]) else s.peers[i]
  }

  /** A leaving peer is refused as a ping exactly when it is held back. */
  lemma {:induction false} RefusedIffHeldBack(my: Dest, s: Table, t: Table, i: nat)
    requires TableOk(my, s) && AtTurn(s, t, i) && i < MAX_PEERS && Leaves(s, i)
    ensures var u := t.peers[i := Older(s.peers[i])];
            FindPeer(u, 0, MAX_PEERS, s.peers[i].ai) >= 0 || FindIp(u, 0, s.peers[i].ai) >= 0 <==> HeldBack(s, i)
  {
    hide FindPeer, FindIp, InRow, AlsoPinged, PingedTwice;
    var e, u := s.peers[i], t.peers[i := Older(s.peers[i])];
    var p, f := FindPeer(u, 0, MAX_PEERS, e.ai), FindIp(u, 0, e.ai);
    assert p >= 0 ==> !Clash(s.peers, p, i);
    if HeldBack(s, i) {
      var j :| 0 <= j < |s.peers| && j != i && Live(s.peers[j]) && s.peers[j].ai.ip == e.ai.ip && (j > i || s.peers[j].age == 0);
      assert Live(u[j]) && u[j].ai.ip == e.ai.ip;
    }
    if f >= 0 {
      assert f != i && Live(s.peers[f]);
    }
  }

  lemma {:induction false} OneTurn(my: Dest, s: Table, t: Table, i: nat, q: seq<Entry>)
    requires TableOk(my, s) && AtTurn(s, t, i) && i < MAX_PEERS
    requires PingsOk(q) && |q| >= MAX_PINGS && t.pings == q[..MAX_PINGS]
    ensures AtTurn(s, ExpirePeer(t, i), i + 1)
    ensures !Leaves(s, i) || HeldBack(s, i) ==> ExpirePeer(t, i).pings == t.pings
    ensures Leaves(s, i) && !HeldBack(s, i) ==>
              var r := [Entry(s.peers[i].ai, true, 0)] + Except(q, s.peers[i].ai.dest);
              |r| >= MAX_PINGS && ExpirePeer(t, i).pings == r[..MAX_PINGS]
  {
    hide FindPeer, FindIp, FindPing, Insert, TableOk, PingsOk, Except, HeldBack;
    TableOkIs(my, s);
    if Leaves(s, i) {
      RefusedIffHeldBack(my, s, t, i);
      InsertIsPush(q, s.peers[i].ai);
    }
  }

  lemma {:induction false} AtFirstTurn(s: Table, s0: Table)
    requires Sized(s) && s0 == s.(pings := OlderPings(s.pings))
    ensures AtTurn(s, s0, 0)
  {
  }

  lemma {:induction false} TurnsPush(my: Dest, s: Table, s0: Table, n: nat)
    requires TableOk(my, s) && n <= MAX_PEERS && s0 == s.(pings := OlderPings(s.pings))
    ensures AtTurn(s, ExpirePeers(s0, n), n)
    ensures PingsOk(s0.pings)
    ensures var r := Pushed(s0.pings, PutUp(s, n));
            PingsOk(r) && |r| >= MAX_PINGS && ExpirePeers(s0, n).pings == r[..MAX_PINGS]
    decreases n
  {
    hide TableOk, ExpirePeer, PingsOk, Except, HeldBack, Leaves, OlderPings, AtTurn, Pushed;
    OlderPingsOk(my, s);
    PushedPingsOk(s0.pings, PutUp(s, n));
    AtFirstTurn(s, s0);
    PushedNone(s0.pings);
    if n == 0 {
      assert s0.pings[..MAX_PINGS] == s0.pings;
    } else {
      TurnsPush(my, s, s0, n - 1);
      var ups := PutUp(s, n - 1);
      OneTurn(my, s, ExpirePeers(s0, n - 1), n - 1, Pushed(s0.pings, ups));
      PushedMore(s0.pings, ups, s.peers[n - 1].ai);
      assert ups + [] == ups;
    }
  }

  lemma {:induction false} PushedNone(q: seq<Entry>)
    ensures Pushed(q, []) == q
  {
  }

  lemma {:induction false} PushedMore(q: seq<Entry>, ups: seq<Addr>, a: Addr)
    ensures Pushed(q, ups + [a]) == [Entry(a, true, 0)] + Except(Pushed(q, ups), a.dest)
  {
    assert (ups + [a])[..|ups|] == ups;
  }

  lemma {:induction false} OlderPingsOk(my: Dest, s: Table)
    requires TableOk(my, s)
    ensures Sized(s) && PingsOk(OlderPings(s.pings))
  {
    hide TableOk;
    TableOkIs(my, s);
    assert Fewer(OlderPings(s.pings), s.pings);
    FewerPings(OlderPings(s.pings), s.pings);
  }

  // ---------------------------------------------------------------------------
  // New and earlier pings
  // ---------------------------------------------------------------------------

  /** The list without the live entries for all these destinations. */
  function ExceptAll(q: seq<Entry>, ups: seq<Addr>): (rest: seq<Entry>) {
    if ups == [] then q else Except(ExceptAll(q, ups[..|ups| - 1]), ups[|ups| - 1].dest)
  }

  lemma {:induction false} PushedSplit(q: seq<Entry>, ups: seq<Addr>)
    ensures Pushed(q, ups) == Pushed([], ups) + ExceptAll(q, ups)
    decreases |ups|
  {
    hide Except;
    if ups != [] {
      var a := ups[|ups| - 1];
      PushedSplit(q, ups[..|ups| - 1]);
      ExceptConcat(Pushed([], ups[..|ups| - 1]), ExceptAll(q, ups[..|ups| - 1]), a.dest);
    }
  }

  /** The ping list after an expiry: the peers put up in it, the last one first and each destination once, and behind
      them the earlier pings for other destinations, in order; as far as there are places. */
  lemma {:induction false} ExpiredPings(my: Dest, s: Table)
    requires TableOk(my, s)
    ensures var ups := PutUp(s, MAX_PEERS);
            var r := Pushed([], ups) + ExceptAll(OlderPings(s.pings), ups);
            |r| >= MAX_PINGS && PingsOk(r) && Expire(s).pings == r[..MAX_PINGS]
  {
    hide TableOk, PingsOk, Pushed, PutUp, ExceptAll;
    TableOkIs(my, s);
    var s0 := s.(pings := OlderPings(s.pings));
    assert ExpirePings(s.pings) == OlderPings(s.pings);
    TurnsPush(my, s, s0, MAX_PEERS);
    PushedSplit(OlderPings(s.pings), PutUp(s, MAX_PEERS));
  }

  // ---------------------------------------------------------------------------
  // Where a peer that leaves is in the list
  // ---------------------------------------------------------------------------

  function Dests(q: seq<Entry>): (ds: set<Dest>) {
    set e | e in q :: e.ai.dest
  }

  function DestsOf(ups: seq<Addr>): (ds: set<Dest>) {
    set a | a in ups :: a.dest
  }

  ghost predicate AllLive(ups: seq<Addr>) {
    forall a | a in ups :: a.nbits > 0
  }

  /** The destinations put up after this one was, the last time. */
  function Since(ups: seq<Addr>, d: Dest): (ds: set<Dest>)
    ensures d !in ds
  {
    if ups == [] then {}
    else
      var last := ups[|ups| - 1].dest;
      if last == d then {} else Since(ups[..|ups| - 1], d) + {last}
  }

  lemma {:induction false} DestsExcept(q: seq<Entry>, d: Dest)
    requires PingsOk(q) && forall e | e in q :: Live(e)
    ensures Dests(Except(q, d)) == Dests(q) - {d}
    ensures |Except(q, d)| == |q| - if d in Dests(q) then 1 else 0
    ensures PingsOk(Except(q, d)) && forall e | e in Except(q, d) :: Live(e)
  {
    forall x ensures x in Dests(Except(q, d)) <==> x in Dests(q) - {d} {
      if x in Dests(Except(q, d)) {
        var e :| e in Except(q, d) && e.ai.dest == x;
        ExceptHas(q, d, e);
      }
      if x in Dests(q) - {d} {
        var e :| e in q && e.ai.dest == x;
        ExceptHas(q, d, e);
        assert e in Except(q, d);
      }
    }
    forall e | e in Except(q, d) ensures Live(e) {
      ExceptHas(q, d, e);
    }
    ExceptPingsOk(q, d);
    if d in Dests(q) {
      var e :| e in q && e.ai.dest == d;
      var n :| 0 <= n < |q| && q[n] == e;
      ExceptOne(q, d, n);
    } else {
      ExceptNone(q, d);
    }
  }

  /** The list that the addresses put up make, cut at the entry for one of the destinations. */
  ghost predicate CutAt(ups: seq<Addr>, d: Dest, before: seq<Entry>, a: Addr, behind: seq<Entry>) {
    && Pushed([], ups) == before + [Entry(a, true, 0)] + behind
    && a in ups && a.dest == d && PingsOk(before) && (forall e | e in before :: Live(e))
    && Dests(before) == Since(ups, d) && |before| == |Since(ups, d)|
  }

  lemma {:induction false} CutFirst(ups: seq<Addr>)
    requires ups != []
    ensures CutAt(ups, ups[|ups| - 1].dest, [], ups[|ups| - 1], Except(Pushed([], ups[..|ups| - 1]), ups[|ups| - 1].dest))
  {
    hide Except;
    var none: seq<Entry> := [];
    assert none + [Entry(ups[|ups| - 1], true, 0)] == [Entry(ups[|ups| - 1], true, 0)];
  }

  lemma {:induction false} CutLater(ups: seq<Addr>, d: Dest, before: seq<Entry>, a: Addr, behind: seq<Entry>, last: Addr)
    requires CutAt(ups, d, before, a, behind) && last.dest != d && last.nbits > 0
    ensures CutAt(ups + [last], d, [Entry(last, true, 0)] + Except(before, last.dest), a, Except(behind, last.dest))
  {
    hide Except, Pushed, Dests, PingsOk;
    var e, x := Entry(a, true, 0), last.dest;
    var front := [Entry(last, true, 0)] + Except(before, x);
    PushedMore([], ups, last);
    ExceptConcat(before + [e], behind, x);
    ExceptConcat(before, [e], x);
    ExceptSingle(e, x);
    assert Pushed([], ups + [last]) == front + [e] + Except(behind, x);
    DestsExcept(before, x);
    FrontPingsOk(before, last);
    assert (ups + [last])[..|ups|] == ups;
    FrontDests(Entry(last, true, 0), Except(before, x));
    assert Dests(front) == Since(ups, d) + {x};
  }

  lemma {:induction false} FrontDests(e: Entry, q: seq<Entry>)
    ensures Dests([e] + q) == {e.ai.dest} + Dests(q)
  {
    forall x ensures x in Dests([e] + q) <==> x == e.ai.dest || x in Dests(q) {
      if x in Dests(q) {
        var f :| f in q && f.ai.dest == x;
        assert f in [e] + q;
      }
      assert ([e] + q)[0] == e;
    }
  }

  lemma {:induction false} Cut(ups: seq<Addr>, d: Dest) returns (before: seq<Entry>, a: Addr, behind: seq<Entry>)
    requires AllLive(ups) && d in DestsOf(ups)
    ensures CutAt(ups, d, before, a, behind)
    decreases |ups|
  {
    hide CutAt;
    var last := ups[|ups| - 1];
    assert ups == ups[..|ups| - 1] + [last];
    if last.dest == d {
      CutFirst(ups);
      before, a, behind := [], last, Except(Pushed([], ups[..|ups| - 1]), last.dest);
    } else {
      assert last in ups;
      before, a, behind := Cut(ups[..|ups| - 1], d);
      CutLater(ups[..|ups| - 1], d, before, a, behind, last);
      before, behind := [Entry(last, true, 0)] + Except(before, last.dest), Except(behind, last.dest);
    }
  }

  lemma {:induction false} PutUpLive(s: Table, n: nat)
    requires n <= |s.peers|
    ensures AllLive(PutUp(s, n))
    ensures forall i | 0 <= i < n && Leaves(s, i) && !HeldBack(s, i) :: s.peers[i].ai in PutUp(s, n)
    decreases n
  {
    hide HeldBack;
    if n > 0 {
      PutUpLive(s, n - 1);
    }
  }

  /** Some live entry of the list is for the destination. */
  ghost predicate Pinged(q: seq<Entry>, d: Dest) {
    exists k :: 0 <= k < |q| && Live(q[k]) && q[k].ai.dest == d
  }

  /** A list with one entry for a destination, cut off after some places. */
  lemma {:induction false} PingedIff(r: seq<Entry>, d: Dest, at: nat, n: nat)
    requires PingsOk(r) && at < |r| && n <= |r| && Live(r[at]) && r[at].ai.dest == d
    ensures Pinged(r[..n], d) <==> at < n
  {
    if at < n {
      assert r[..n][at] == r[at];
    }
    if k :| 0 <= k < |r[..n]| && Live(r[..n][k]) && r[..n][k].ai.dest == d {
      assert !PingedTwice(r, k, at);
    }
  }

  /** A peer that leaves in an expiry, and is not held back, is put up for pinging: it is in the ping list afterwards,
      refreshed, unless 128 other destinations were put up after it. */
  lemma {:induction false} LeavingIsPinged(my: Dest, s: Table, i: nat)
    requires TableOk(my, s) && Leaves(s, i) && !HeldBack(s, i)
    ensures var d, q := s.peers[i].ai.dest, Expire(s).pings;
            var place := |Since(PutUp(s, MAX_PEERS), d)|;
            && |s.peers| == 256
            && (Pinged(q, d) <==> place < 128)
            && (place < 128 ==> Live(q[place]) && q[place].refreshed && q[place].ai.dest == d && q[place].ai in PutUp(s, MAX_PEERS))
  {
    hide TableOk, PingsOk, Pushed, PutUp, ExceptAll, Expire, HeldBack, Dests, Since, Pinged;
    TableOkIs(my, s);
    var ups, d := PutUp(s, MAX_PEERS), s.peers[i].ai.dest;
    ExpiredPings(my, s);
    PutUpLive(s, MAX_PEERS);
    assert s.peers[i].ai in ups;
    var before, a, behind := Cut(ups, d);
    var r := Pushed([], ups) + ExceptAll(OlderPings(s.pings), ups);
    assert r[|before|] == Entry(a, true, 0);
    PingedIff(r, d, |before|, MAX_PINGS);
  }

  // ---------------------------------------------------------------------------
  // Earlier pings
  // ---------------------------------------------------------------------------

  lemma {:induction false} ExceptAllHas(q: seq<Entry>, ups: seq<Addr>, e: Entry)
    ensures e in ExceptAll(q, ups) <==> e in q && !(Live(e) && e.ai.dest in DestsOf(ups))
    decreases |ups|
  {
    hide Except, DestsOf;
    if ups == [] {
      NoDests();
    } else {
      ExceptAllHas(q, ups[..|ups| - 1], e);
      ExceptHas(ExceptAll(q, ups[..|ups| - 1]), ups[|ups| - 1].dest, e);
      DestsOfMore(ups);
    }
  }

  lemma {:induction false} PushedHas(ups: seq<Addr>, e: Entry)
    requires e in Pushed([], ups)
    ensures e.refreshed && e.age == 0 && e.ai in ups
    decreases |ups|
  {
    hide Except;
    if ups != [] {
      var last := ups[|ups| - 1];
      if e != Entry(last, true, 0) {
        ExceptHas(Pushed([], ups[..|ups| - 1]), last.dest, e);
        PushedHas(ups[..|ups| - 1], e);
      }
    }
  }

  /** The earlier ping that an entry is: it was added since the expiry before. */
  predicate Stays(s: Table, j: nat, e: Entry) {
    j < |s.pings| && Live(s.pings[j]) && s.pings[j].age == 0 && e.ai == s.pings[j].ai && !e.refreshed
  }

  /** Every ping after an expiry was put up in it, or was there before, added since the expiry before and for a
      destination that was not put up again. */
  lemma {:induction false} EarlierPings(my: Dest, s: Table, k: nat)
    requires TableOk(my, s) && k < MAX_PINGS && Live(Expire(s).pings[k])
    ensures var e, ups := Expire(s).pings[k], PutUp(s, MAX_PEERS);
            || (e.refreshed && e.ai in ups)
            || (e.ai.dest !in DestsOf(ups) && exists j: nat :: Stays(s, j, e))
  {
    hide TableOk, PingsOk, Pushed, PutUp, ExceptAll, Expire, DestsOf;
    TableOkIs(my, s);
    ExpiredPings(my, s);
    var e, ups := Expire(s).pings[k], PutUp(s, MAX_PEERS);
    var front, q := Pushed([], ups), OlderPings(s.pings);
    assert e == (front + ExceptAll(q, ups))[k];
    if e in front {
      PushedHas(ups, e);
    } else {
      assert e in ExceptAll(q, ups);
      ExceptAllHas(q, ups, e);
      var j :| 0 <= j < |q| && q[j] == e;
      assert e == Older(s.pings[j]);
      assert Stays(s, j, e);
    }
  }

  /** The earlier pings among the first `j` for destinations that were put up again. */
  function Replaced(s: Table, ds: set<Dest>, j: nat): (n: nat)
    requires j <= |s.pings|
    ensures n <= j
  {
    if j == 0 then 0
    else
      var e := s.pings[j - 1];
      Replaced(s, ds, j - 1) + if Live(e) && e.age == 0 && e.ai.dest in ds then 1 else 0
  }

  lemma {:induction false} ExceptAllConcat(p: seq<Entry>, q: seq<Entry>, ups: seq<Addr>)
    ensures ExceptAll(p + q, ups) == ExceptAll(p, ups) + ExceptAll(q, ups)
    decreases |ups|
  {
    hide Except;
    if ups != [] {
      ExceptAllConcat(p, q, ups[..|ups| - 1]);
      ExceptConcat(ExceptAll(p, ups[..|ups| - 1]), ExceptAll(q, ups[..|ups| - 1]), ups[|ups| - 1].dest);
    }
  }

  lemma {:induction false} ExceptSingle(e: Entry, d: Dest)
    ensures Except([e], d) == (if Live(e) && e.ai.dest == d then [] else [e]) && Except([], d) == []
  {
    assert [e][..0] == [];
  }

  lemma {:induction false} DestsOfMore(ups: seq<Addr>)
    requires ups != []
    ensures DestsOf(ups) == DestsOf(ups[..|ups| - 1]) + {ups[|ups| - 1].dest}
  {
    assert ups == ups[..|ups| - 1] + [ups[|ups| - 1]];
    assert ups[|ups| - 1] in ups;
  }

  lemma {:induction false} ExceptAllOne(e: Entry, ups: seq<Addr>)
    ensures ExceptAll([e], ups) == if Live(e) && e.ai.dest in DestsOf(ups) then [] else [e]
    decreases |ups|
  {
    hide Except, DestsOf;
    if ups == [] {
      assert DestsOf([]) == {} by {
        NoDests();
      }
    } else {
      ExceptAllOne(e, ups[..|ups| - 1]);
      ExceptSingle(e, ups[|ups| - 1].dest);
      DestsOfMore(ups);
    }
  }

  lemma {:induction false} NoDests()
    ensures DestsOf([]) == {}
  {
  }

  lemma {:induction false} EarlierSize(s: Table, ups: seq<Addr>, j: nat)
    requires j <= |s.pings| && AgesOk(s.pings)
    ensures |ExceptAll(OlderPings(s.pings)[..j], ups)| == j - Replaced(s, DestsOf(ups), j)
    decreases j
  {
    hide ExceptAll, DestsOf;
    var q := OlderPings(s.pings);
    if j == 0 {
      AllOfNone(ups);
    } else {
      EarlierSize(s, ups, j - 1);
      assert q[..j] == q[..j - 1] + [q[j - 1]];
      ExceptAllConcat(q[..j - 1], [q[j - 1]], ups);
      ExceptAllOne(q[j - 1], ups);
    }
  }

  lemma {:induction false} AllOfNone(ups: seq<Addr>)
    ensures ExceptAll([], ups) == []
    decreases |ups|
  {
    if ups != [] {
      AllOfNone(ups[..|ups| - 1]);
    }
  }

  lemma {:induction false} NoEntries()
    ensures Dests([]) == {} && PingsOk([])
  {
  }

  /** As many entries are put in front as there are destinations. */
  lemma {:induction false} FrontSize(ups: seq<Addr>)
    requires AllLive(ups)
    ensures var r := Pushed([], ups);
            |r| == |DestsOf(ups)| && Dests(r) == DestsOf(ups) && PingsOk(r) && forall e | e in r :: Live(e)
    decreases |ups|
  {
    hide Except, PingsOk, Dests, DestsOf;
    if ups == [] {
      NoDests();
      NoEntries();
    } else {
      var last := ups[|ups| - 1];
      var r := Pushed([], ups[..|ups| - 1]);
      assert last in ups;
      FrontSize(ups[..|ups| - 1]);
      DestsExcept(r, last.dest);
      FrontPingsOk(r, last);
      FrontDests(Entry(last, true, 0), Except(r, last.dest));
      DestsOfMore(ups);
    }
  }

  /** An earlier ping added since the expiry before stays if and only if there is a place for it behind the
      destinations that were put up. */
  lemma {:induction false} EarlierStaysIff(my: Dest, s: Table, j: nat)
    requires TableOk(my, s) && j < |s.pings| && Live(s.pings[j]) && s.pings[j].age == 0
    requires s.pings[j].ai.dest !in DestsOf(PutUp(s, |s.peers|))
    ensures var ds, q := DestsOf(PutUp(s, |s.peers|)), Expire(s).pings;
            var place := |ds| + j - Replaced(s, ds, j);
            && (Pinged(q, s.pings[j].ai.dest) <==> place < 128)
            && (place < 128 ==> Stays(s, j, q[place]))
  {
    hide TableOk, PingsOk, Pushed, PutUp, ExceptAll, Expire, DestsOf, Replaced, Pinged, Dests;
    TableOkIs(my, s);
    ExpiredPings(my, s);
    var ups, q := PutUp(s, MAX_PEERS), OlderPings(s.pings);
    PutUpLive(s, MAX_PEERS);
    FrontSize(ups);
    EarlierSize(s, ups, j);
    ExceptAllConcat(q[..j], [q[j]], ups);
    ExceptAllConcat(q[..j] + [q[j]], q[j + 1..], ups);
    ExceptAllOne(q[j], ups);
    assert q == q[..j] + [q[j]] + q[j + 1..];
    var r := Pushed([], ups) + ExceptAll(q, ups);
    var place := |Pushed([], ups)| + |ExceptAll(q[..j], ups)|;
    assert r[place] == q[j];
    PingedIff(r, s.pings[j].ai.dest, place, MAX_PINGS);
  }

  // ---------------------------------------------------------------------------
  // Runs
  // ---------------------------------------------------------------------------

  lemma {:induction false} FewerThanPutUp(ups: seq<Addr>, d: Dest)
    requires d in DestsOf(ups)
    ensures |Since(ups, d)| < |ups|
    decreases |ups|
  {
    var last := ups[|ups| - 1];
    assert ups == ups[..|ups| - 1] + [last];
    if last.dest != d {
      var a :| a in ups && a.dest == d;
      assert a in ups[..|ups| - 1];
      FewerThanPutUp(ups[..|ups| - 1], d);
      CardinalityOfInsert(Since(ups[..|ups| - 1], d), last.dest);
    }
  }

  /** In every run: a peer that leaves the table in an expiry is pinged from then on, unless another peer has its internet
      address, or 128 other destinations were put up after it in the same expiry; at most 128 peers leaving, or all
      internet addresses different, rules these out. */
  lemma {:induction false} RunLeavingIsPinged(my: Dest, evs: seq<Event>, k: nat, i: nat)
    requires k < |evs| && (forall ev | ev in evs :: Allowed(my, ev)) && i < MAX_PEERS && evs[k].ExpireEvent?
    requires Live(After(my, evs, k).peers[i]) && !Live(After(my, evs, k + 1).peers[i])
    ensures var s, s' := After(my, evs, k), After(my, evs, k + 1);
            var d, ups := s.peers[i].ai.dest, PutUp(s, MAX_PEERS);
            && (!HeldBack(s, i) ==> (Pinged(s'.pings, d) <==> |Since(ups, d)| < 128))
            && (!HeldBack(s, i) && |ups| <= 128 ==> Pinged(s'.pings, d))
            && (IpsUnique(s.peers) ==> !HeldBack(s, i))
  {
    hide TableOk, Expire, PutUp, Since, Pinged, DestsOf;
    var s := After(my, evs, k);
    var d, ups := s.peers[i].ai.dest, PutUp(s, MAX_PEERS);
    RunOk(my, evs, k);
    ExpireOk(my, s, i);
    UniqueIsNotHeld(s, i);
    if !HeldBack(s, i) {
      LeavingIsPinged(my, s, i);
      PutUpLive(s, MAX_PEERS);
      InDests(ups, s.peers[i].ai);
      FewerThanPutUp(ups, d);
    }
  }

  lemma {:induction false} InDests(ups: seq<Addr>, a: Addr)
    requires a in ups
    ensures a.dest in DestsOf(ups)
  {
  }

  lemma {:induction false} UniqueIsNotHeld(s: Table, i: nat)
    requires i < |s.peers| && Live(s.peers[i])
    ensures IpsUnique(s.peers) ==> !HeldBack(s, i)
  {
    if HeldBack(s, i) {
      var j :| 0 <= j < |s.peers| && j != i && Live(s.peers[j]) && s.peers[j].ai.ip == s.peers[i].ai.ip;
      assert SharesIp(s.peers, i, j);
    }
  }

  /** In every run: after an expiry only those pings are left that were put up in it, or added since the expiry before. */
  lemma {:induction false} RunEarlierPings(my: Dest, evs: seq<Event>, k: nat, p: nat)
    requires k < |evs| && (forall ev | ev in evs :: Allowed(my, ev)) && p < MAX_PINGS && evs[k].ExpireEvent?
    requires Live(After(my, evs, k + 1).pings[p])
    ensures var s, e := After(my, evs, k), After(my, evs, k + 1).pings[p];
            || (e.refreshed && e.ai in PutUp(s, MAX_PEERS))
            || exists j: nat :: Stays(s, j, e)
  {
    hide TableOk, Expire, PutUp, DestsOf;
    RunOk(my, evs, k);
    EarlierPings(my, After(my, evs, k), p);
  }
}
