/**
 How often and in which order the keysets of a contact are listed: once for every route by which membership leads from
 the contact to them.
 */
module KeyRoutes {
  import opened Base
  import opened Keysets

  /** A route from a name to a plain entry: the index of a group of that name, the index of one of its members, the
      index of a group with the name of that member, and so on; at the end the index of the plain entry. */
  type Route = seq<nat>

  /** The entry is that of a group, with a list of members. */
  predicate ListsMembers(e: Info) {
    e.group && e.members.Some?
  }

  /** The route is one from this name. */
  predicate Leads(kip: seq<Info>, n: Name, r: Route)
    decreases |r|
  {
    && r != [] && r[0] < |kip| && kip[r[0]].name == Some(n)
    && if |r| == 1 then !ListsMembers(kip[r[0]])
       else ListsMembers(kip[r[0]]) && r[1] < |kip[r[0]].members.value| && Leads(kip, kip[r[0]].members.value[r[1]], r[2..])
  }

  function End(r: Route): (x: nat)
    requires r != []
  {
    r[|r| - 1]
  }

  /** The routes differ first at a place where the one has the smaller number. */
  ghost predicate Precedes(a: Route, b: Route) {
    exists j :: 0 <= j < |a| && j < |b| && a[..j] == b[..j] && a[j] < b[j]
  }

  ghost predicate InOrder(routes: seq<Route>) {
    forall i, j | 0 <= i < j < |routes| :: Precedes(routes[i], routes[j])
  }

  /** The keysets are the ends of the routes. */
  ghost predicate Ends(keys: seq<nat>, routes: seq<Route>) {
    |routes| == |keys| && forall j | 0 <= j < |routes| :: routes[j] != [] && keys[j] == End(routes[j])
  }

  /** The keysets are the ends of all routes from the name, one for each route, in the order of the routes. */
  ghost predicate ListsRoutes(kip: seq<Info>, n: Name, keys: seq<nat>, routes: seq<Route>) {
    && Ends(keys, routes) && InOrder(routes)
    && forall r: Route :: r in routes <==> Leads(kip, n, r)
  }

  // ---------------------------------------------------------------------------
  // Lists of routes
  // ---------------------------------------------------------------------------

  /** One more step in front of each route. */
  function Prefixed(k: nat, routes: seq<Route>): (longer: seq<Route>)
    ensures |longer| == |routes|
  {
    seq(|routes|, j requires 0 <= j < |routes| => [k] + routes[j])
  }

  lemma {:induction false} PrefixedHas(k: nat, routes: seq<Route>, r: Route)
    ensures r in Prefixed(k, routes) <==> r != [] && r[0] == k && r[1..] in routes
  {
    if r in Prefixed(k, routes) {
      var j :| 0 <= j < |routes| && Prefixed(k, routes)[j] == r;
      assert r[1..] == routes[j];
    }
    if r != [] && r[0] == k && r[1..] in routes {
      var j :| 0 <= j < |routes| && routes[j] == r[1..];
      assert Prefixed(k, routes)[j] == r;
    }
  }

  lemma {:induction false} PrecedesLonger(k: nat, a: Route, b: Route)
    requires Precedes(a, b)
    ensures Precedes([k] + a, [k] + b)
  {
    var j :| 0 <= j < |a| && j < |b| && a[..j] == b[..j] && a[j] < b[j];
    assert ([k] + a)[..j + 1] == [k] + a[..j] && ([k] + b)[..j + 1] == [k] + b[..j];
    assert ([k] + a)[j + 1] == a[j] && ([k] + b)[j + 1] == b[j];
  }

  lemma {:induction false} PrefixedInOrder(k: nat, routes: seq<Route>)
    requires InOrder(routes)
    ensures InOrder(Prefixed(k, routes))
  {
    hide Precedes;
    forall i, j | 0 <= i < j < |routes| ensures Precedes(Prefixed(k, routes)[i], Prefixed(k, routes)[j]) {
      PrecedesLonger(k, routes[i], routes[j]);
    }
  }

  lemma {:induction false} PrefixedEnds(k: nat, keys: seq<nat>, routes: seq<Route>)
    requires Ends(keys, routes)
    ensures Ends(keys, Prefixed(k, routes))
  {
    forall j | 0 <= j < |routes| ensures keys[j] == End(Prefixed(k, routes)[j]) {
      assert Prefixed(k, routes)[j] == [k] + routes[j];
    }
  }

  /** All routes begin with a number below `n`. */
  ghost predicate StartBelow(routes: seq<Route>, n: nat) {
    forall j | 0 <= j < |routes| :: routes[j] != [] && routes[j][0] < n
  }

  ghost predicate StartWith(routes: seq<Route>, n: nat) {
    forall j | 0 <= j < |routes| :: routes[j] != [] && routes[j][0] == n
  }

  /** A list of routes that begin below `n`, followed by others that begin with `n`. */
  lemma {:induction false} Joined(keys: seq<nat>, routes: seq<Route>, more: seq<nat>, rest: seq<Route>, n: nat)
    requires Ends(keys, routes) && InOrder(routes) && StartBelow(routes, n)
    requires Ends(more, rest) && InOrder(rest) && StartWith(rest, n)
    ensures Ends(keys + more, routes + rest) && InOrder(routes + rest) && StartBelow(routes + rest, n + 1)
  {
    hide End;
    var all := routes + rest;
    forall i, j | 0 <= i < j < |all| ensures Precedes(all[i], all[j]) {
      if i < |routes| <= j {
        assert all[i][..0] == all[j][..0] && all[i][0] < n && all[j][0] == n;
      } else if j < |routes| {
        assert Precedes(routes[i], routes[j]);
      } else {
        assert Precedes(rest[i - |routes|], rest[j - |routes|]);
      }
    }
  }

  /** ... with one step in front of each of the others. */
  lemma {:induction false} JoinedBehind(keys: seq<nat>, routes: seq<Route>, more: seq<nat>, rest: seq<Route>, n: nat)
    requires Ends(keys, routes) && InOrder(routes) && StartBelow(routes, n)
    requires Ends(more, rest) && InOrder(rest)
    ensures var all := routes + Prefixed(n, rest);
            Ends(keys + more, all) && InOrder(all) && StartBelow(all, n + 1)
  {
    hide Ends, InOrder, StartBelow;
    PrefixedInOrder(n, rest);
    PrefixedEnds(n, more, rest);
    Joined(keys, routes, more, Prefixed(n, rest), n);
  }

  /** The route of a plain entry of the name itself. */
  lemma {:induction false} JoinedOne(keys: seq<nat>, routes: seq<Route>, n: nat)
    requires Ends(keys, routes) && InOrder(routes) && StartBelow(routes, n)
    ensures var all := routes + [[n]];
            Ends(keys + [n], all) && InOrder(all) && StartBelow(all, n + 1)
  {
    hide Precedes;
    Joined(keys, routes, [n], [[n]], n);
  }

  lemma {:induction false} StartsLess(routes: seq<Route>, n: nat)
    requires StartBelow(routes, n)
    ensures StartBelow(routes, n + 1)
  {
  }

  lemma {:induction false} NoRoutes()
    ensures Ends([], []) && InOrder([]) && forall n: nat :: StartBelow([], n)
  {
  }

  /** The first step of a route, seen from behind it. */
  lemma {:induction false} StepOf(kip: seq<Info>, contact: Name, r: Route)
    ensures Leads(kip, contact, r)
            <==> && r != [] && r[0] < |kip| && Named(kip[r[0]], contact)
                 && if Branches(kip[r[0]]) then MemberRoute(kip, kip[r[0]].members.value, |kip[r[0]].members.value|, r[1..])
                    else |r| == 1
  {
    if |r| > 1 {
      assert r[1..][1..] == r[2..];
    }
  }

  // ---------------------------------------------------------------------------
  // What the recursion lists
  // ---------------------------------------------------------------------------

  /** A route that begins with one of the first `n` entries. */
  ghost predicate EntryRoute(kip: seq<Info>, contact: Name, n: nat, r: Route) {
    r != [] && Leads(kip, contact, r) && r[0] < n
  }

  /** A route that begins with one of the first `n` members. */
  ghost predicate MemberRoute(kip: seq<Info>, members: seq<Name>, n: nat, r: Route)
    requires n <= |members|
  {
    r != [] && r[0] < n && Leads(kip, members[r[0]], r[1..])
  }

  ghost predicate ListsEntryRoutes(kip: seq<Info>, contact: Name, n: nat, keys: seq<nat>, routes: seq<Route>) {
    && Ends(keys, routes) && InOrder(routes) && StartBelow(routes, n)
    && forall r: Route :: r in routes <==> EntryRoute(kip, contact, n, r)
  }

  ghost predicate ListsMemberRoutes(kip: seq<Info>, members: seq<Name>, n: nat, keys: seq<nat>, routes: seq<Route>)
    requires n <= |members|
  {
    && Ends(keys, routes) && InOrder(routes) && StartBelow(routes, n)
    && forall r: Route :: r in routes <==> MemberRoute(kip, members, n, r)
  }

  lemma {:induction false} MemberRoutes(kip: seq<Info>, members: seq<Name>, depth: nat, n: nat) returns (routes: seq<Route>)
    requires n <= |members| && MemberKeys(kip, members, depth, n).Some?
    ensures ListsMemberRoutes(kip, members, n, MemberKeys(kip, members, depth, n).value, routes)
    decreases depth, |kip| + 2, n
  {
    hide Ends, InOrder, StartBelow, Leads, Prefixed;
    if n == 0 {
      NoRoutes();
      routes := [];
    } else {
      var before := MemberRoutes(kip, members, depth, n - 1);
      var rest := KeyRoutes(kip, members[n - 1], depth);
      var keys, more := MemberKeys(kip, members, depth, n - 1).value, Keys(kip, members[n - 1], depth).value;
      JoinedBehind(keys, before, more, rest, n - 1);
      routes := before + Prefixed(n - 1, rest);
      forall r: Route ensures r in routes <==> MemberRoute(kip, members, n, r) {
        PrefixedHas(n - 1, rest, r);
        assert r in before <==> MemberRoute(kip, members, n - 1, r);
      }
    }
  }

  lemma {:induction false} EntryRoutes(kip: seq<Info>, contact: Name, depth: nat, n: nat) returns (routes: seq<Route>)
    requires depth > 0 && n <= |kip| && EntryKeys(kip, contact, depth, n).Some?
    ensures ListsEntryRoutes(kip, contact, n, EntryKeys(kip, contact, depth, n).value, routes)
    decreases depth, n, 0
  {
    hide Ends, InOrder, StartBelow, Leads, Prefixed, MemberKeys, MemberRoute;
    if n == 0 {
      NoRoutes();
      routes := [];
    } else {
      var before := EntryRoutes(kip, contact, depth, n - 1);
      var keys := EntryKeys(kip, contact, depth, n - 1).value;
      var e := kip[n - 1];
      if !Named(e, contact) {
        routes := before;
        StartsLess(before, n - 1);
        forall r: Route ensures r in routes <==> EntryRoute(kip, contact, n, r) {
          StepOf(kip, contact, r);
          assert r in before <==> EntryRoute(kip, contact, n - 1, r);
        }
      } else if !Branches(e) {
        JoinedOne(keys, before, n - 1);
        routes := before + [[n - 1]];
        forall r: Route ensures r in routes <==> EntryRoute(kip, contact, n, r) {
          StepOf(kip, contact, r);
          assert r != [] && r[0] == n - 1 && |r| == 1 <==> r == [n - 1];
          assert r in before <==> EntryRoute(kip, contact, n - 1, r);
        }
      } else {
        var ms := e.members.value;
        var rest := MemberRoutes(kip, ms, depth - 1, |ms|);
        var more := MemberKeys(kip, ms, depth - 1, |ms|).value;
        JoinedBehind(keys, before, more, rest, n - 1);
        routes := before + Prefixed(n - 1, rest);
        forall r: Route ensures r in routes <==> EntryRoute(kip, contact, n, r) {
          PrefixedHas(n - 1, rest, r);
          StepOf(kip, contact, r);
        }
      }
    }
  }

  lemma {:induction false} KeyRoutes(kip: seq<Info>, contact: Name, depth: nat) returns (routes: seq<Route>)
    requires Keys(kip, contact, depth).Some?
    ensures ListsRoutes(kip, contact, Keys(kip, contact, depth).value, routes)
    decreases depth, |kip| + 1, 0
  {
    hide Ends, InOrder, StartBelow, EntryKeys;
    routes := EntryRoutes(kip, contact, depth, |kip|);
  }

  // ---------------------------------------------------------------------------
  // The keysets of a contact
  // ---------------------------------------------------------------------------

  /** Without a reachable cycle the list holds one keyset for every route from the contact, in the order of the
      routes. */
  lemma {:induction false} OneForEachRoute(kip: seq<Info>, contact: Name) returns (routes: seq<Route>)
    requires !CycleReachable(kip, contact)
    ensures Keys(kip, contact, |kip| + 1).Some?
    ensures ListsRoutes(kip, contact, Keys(kip, contact, |kip| + 1).value, routes)
  {
    hide Keys, ListsRoutes, CycleReachable;
    LoopIffCycle(kip, contact);
    routes := KeyRoutes(kip, contact, |kip| + 1);
  }

  /** No other list is like that. */
  lemma {:induction false} OnlyOneList(kip: seq<Info>, n: Name, keys: seq<nat>, routes: seq<Route>, keys': seq<nat>, routes': seq<Route>)
    requires ListsRoutes(kip, n, keys, routes) && ListsRoutes(kip, n, keys', routes')
    ensures keys == keys' && routes == routes'
  {
    SameSorted(routes, routes');
  }

  lemma {:induction false} SameBelow(a: Route, b: Route, j: nat)
    requires j <= |a| && j <= |b| && a[..j] == b[..j]
    ensures forall l | 0 <= l < j :: a[l] == b[l]
  {
    assert forall l | 0 <= l < j :: a[l] == a[..j][l] && b[l] == b[..j][l];
  }

  lemma {:induction false} PrecedesOnce(a: Route, b: Route)
    requires Precedes(a, b)
    ensures a != b && !Precedes(b, a)
  {
    var j :| 0 <= j < |a| && j < |b| && a[..j] == b[..j] && a[j] < b[j];
    SameBelow(a, b, j);
    if k :| 0 <= k < |b| && k < |a| && b[..k] == a[..k] && b[k] < a[k] {
      SameBelow(b, a, k);
      assert false;
    }
  }

  lemma {:induction false} SameSorted(a: seq<Route>, b: seq<Route>)
    requires InOrder(a) && InOrder(b) && forall r: Route :: r in a <==> r in b
    ensures a == b
    decreases |a|
  {
    hide Precedes;
    assert a != [] ==> a[0] in a && a[0] in b;
    assert b != [] ==> b[0] in b && b[0] in a;
    if a != [] {
      FirstsAgree(a, b);
      forall r: Route ensures r in a[1..] <==> r in b[1..] {
        InTail(a, r);
        InTail(b, r);
      }
      SameSorted(a[1..], b[1..]);
      assert a == [a[0]] + a[1..] && b == [b[0]] + b[1..];
    }
  }

  lemma {:induction false} FirstsAgree(a: seq<Route>, b: seq<Route>)
    requires a != [] && b != [] && InOrder(a) && InOrder(b) && forall r: Route :: r in a <==> r in b
    ensures a[0] == b[0]
  {
    hide Precedes;
    assert a[0] in b && b[0] in a;
    var i :| 0 <= i < |b| && b[i] == a[0];
    var j :| 0 <= j < |a| && a[j] == b[0];
    if i > 0 && j > 0 {
      assert Precedes(b[0], b[i]) && Precedes(a[0], a[j]);
      PrecedesOnce(a[0], b[0]);
      assert false;
    }
  }

  lemma {:induction false} InTail(a: seq<Route>, r: Route)
    requires a != [] && InOrder(a)
    ensures r in a[1..] <==> r in a && r != a[0]
  {
    hide Precedes;
    if i :| 0 <= i < |a| && a[i] == r {
      if i > 0 {
        assert Precedes(a[0], a[i]) && a[1..][i - 1] == r;
        PrecedesOnce(a[0], a[i]);
      }
    }
    if i :| 0 <= i < |a[1..]| && a[1..][i] == r {
      assert Precedes(a[0], a[i + 1]);
      PrecedesOnce(a[0], a[i + 1]);
    }
  }

  /** The routes in a list that end at one entry. */
  function EndingAt(routes: seq<Route>, keys: seq<nat>, x: nat): (found: set<Route>)
    requires |routes| == |keys|
    decreases |routes|
  {
    if routes == [] then {}
    else
      var last := |routes| - 1;
      EndingAt(routes[..last], keys[..last], x) + if keys[last] == x then {routes[last]} else {}
  }

  lemma {:induction false} EndingAtAre(routes: seq<Route>, keys: seq<nat>, x: nat, r: Route)
    requires Ends(keys, routes)
    ensures r in EndingAt(routes, keys, x) <==> r in routes && r != [] && End(r) == x
    decreases |routes|
  {
    hide End;
    if routes != [] {
      var last := |routes| - 1;
      EndingAtAre(routes[..last], keys[..last], x, r);
      assert routes == routes[..last] + [routes[last]];
    }
  }

  lemma {:induction false} EndingAtCount(routes: seq<Route>, keys: seq<nat>, x: nat)
    requires Ends(keys, routes) && InOrder(routes)
    ensures |EndingAt(routes, keys, x)| == multiset(keys)[x]
    decreases |routes|
  {
    hide End, Precedes;
    if routes != [] {
      var last := |routes| - 1;
      EndingAtCount(routes[..last], keys[..last], x);
      assert keys == keys[..last] + [keys[last]];
      EndingAtAre(routes[..last], keys[..last], x, routes[last]);
      if j :| 0 <= j < last && routes[j] == routes[last] {
        assert Precedes(routes[j], routes[last]);
        PrecedesOnce(routes[j], routes[last]);
        assert false;
      }
    }
  }

  /** How often an entry is listed: as often as there are routes to it, which for a group or an entry whose name
      cannot be reached is never. */
  lemma {:induction false} CountIsRoutes(kip: seq<Info>, contact: Name, x: nat) returns (found: set<Route>)
    requires !CycleReachable(kip, contact)
    ensures forall r: Route :: r in found <==> Leads(kip, contact, r) && End(r) == x
    ensures Keys(kip, contact, |kip| + 1).Some? && multiset(Keys(kip, contact, |kip| + 1).value)[x] == |found|
  {
    hide Keys, CycleReachable, End, Leads, InOrder;
    var routes := OneForEachRoute(kip, contact);
    var keys := Keys(kip, contact, |kip| + 1).value;
    found := EndingAt(routes, keys, x);
    EndingAtCount(routes, keys, x);
    forall r: Route ensures r in found <==> Leads(kip, contact, r) && End(r) == x {
      EndingAtAre(routes, keys, x, r);
      assert r in routes <==> Leads(kip, contact, r);
      NotEmpty(kip, contact, r);
    }
  }

  lemma {:induction false} NotEmpty(kip: seq<Info>, contact: Name, r: Route)
    ensures Leads(kip, contact, r) ==> r != []
  {
  }

  /** The entries with the name are all plain. */
  ghost predicate PlainName(kip: seq<Info>, contact: Name) {
    forall i | 0 <= i < |kip| && kip[i].name == Some(contact) :: !ListsMembers(kip[i])
  }

  ghost predicate Ascending(keys: seq<nat>) {
    forall i, j | 0 <= i < j < |keys| :: keys[i] < keys[j]
  }

  lemma {:induction false} PlainIsNotDeep(kip: seq<Info>, contact: Name, depth: nat)
    requires depth > 0 && PlainName(kip, contact)
    ensures !Deep(kip, contact, depth)
  {
    assert forall m :: !Edge(kip, contact, m);
  }

  lemma {:induction false} PlainRoute(kip: seq<Info>, contact: Name, r: Route)
    requires PlainName(kip, contact)
    ensures Leads(kip, contact, r) <==> |r| == 1 && r[0] < |kip| && Named(kip[r[0]], contact)
  {
  }

  /** A name with plain entries only gives exactly their indices, in ascending order and each once. */
  lemma {:induction false} PlainNameKeys(kip: seq<Info>, contact: Name, depth: nat)
    requires depth > 0 && PlainName(kip, contact)
    ensures var r := Keys(kip, contact, depth);
            && r.Some? && Ascending(r.value)
            && forall x: nat :: x in r.value <==> x < |kip| && kip[x].name == Some(contact)
  {
    hide Keys, Deep, Leads, PlainName;
    KeysNone(kip, contact, depth);
    PlainIsNotDeep(kip, contact, depth);
    var keys := Keys(kip, contact, depth).value;
    var routes := KeyRoutes(kip, contact, depth);
    forall j | 0 <= j < |keys| ensures routes[j] == [keys[j]] {
      assert routes[j] in routes;
      PlainRoute(kip, contact, routes[j]);
    }
    forall i, j | 0 <= i < j < |keys| ensures keys[i] < keys[j] {
      assert Precedes(routes[i], routes[j]);
    }
    forall x: nat ensures x in keys <==> x < |kip| && kip[x].name == Some(contact) {
      PlainRoute(kip, contact, [x]);
      assert [x] in routes <==> Leads(kip, contact, [x]);
      if x in keys {
        var j :| 0 <= j < |keys| && keys[j] == x;
        assert routes[j] == [x];
      }
      if [x] in routes {
        var j :| 0 <= j < |routes| && routes[j] == [x];
        assert keys[j] == x;
      }
    }
  }
}
