/**
 The table of contacts, in which a group lists its members by name, and the keysets of a contact: its
 own entries, or those of all members when it is a group.  Membership may be cyclic.
 */
module Keysets {
  import opened Base

  type Name = string

  /** The parts of a key_info that matter here; a negative member count is no member list. */
  datatype Info = Info(name: Option<Name>, group: bool, deleted: bool, members: Option<seq<Name>>)

  /** The entry is that of a group with a member list. */
  predicate Branches(e: Info) {
    e.group && e.members.Some?
  }

  predicate Named(e: Info, n: Name) {
    e.name == Some(n)
  }

  // ---------------------------------------------------------------------------
  // Contact names
  // ---------------------------------------------------------------------------

  /** generate_contacts: each name once, in the order of first appearance, among the first `n` entries. */
  function Contacts(kip: seq<Info>, n: nat): (names: seq<Name>)
    requires n <= |kip|
  {
    if n == 0 then []
    else
      var names := Contacts(kip, n - 1);
      if kip[n - 1].name.Some? && kip[n - 1].name.value !in names then names + [kip[n - 1].name.value] else names
  }

  /** contact_exists, less one: the index of the name, or -1. */
  function ContactIndex(names: seq<Name>, contact: Name): (i: int)
    ensures -1 <= i < |names|
    ensures i >= 0 ==> names[i] == contact && contact !in names[..i]
    ensures i < 0 ==> contact !in names
    decreases |names|
  {
    if names == [] then -1
    else
      var i := ContactIndex(names[..|names| - 1], contact);
      if i >= 0 then i else if names[|names| - 1] == contact then |names| - 1 else -1
  }

  /** The entry is the first one with its name. */
  ghost predicate First(kip: seq<Info>, i: nat) {
    i < |kip| && kip[i].name.Some? && forall k | 0 <= k < i :: kip[k].name != kip[i].name
  }

  /** All of the first `n` entries have names, and all of them differ. */
  ghost predicate AllNew(kip: seq<Info>, n: nat)
    requires n <= |kip|
  {
    forall k | 0 <= k < n :: First(kip, k)
  }

  lemma {:induction false} ContactsAre(kip: seq<Info>, n: nat)
    requires n <= |kip|
    ensures |Contacts(kip, n)| <= n
    ensures |Contacts(kip, n)| == n <==> AllNew(kip, n)
    ensures forall x | x in Contacts(kip, n) :: exists k | 0 <= k < n :: Named(kip[k], x)
    ensures forall k | 0 <= k < n && kip[k].name.Some? :: kip[k].name.value in Contacts(kip, n)
    decreases n
  {
    if n > 0 {
      ContactsAre(kip, n - 1);
      var names := Contacts(kip, n - 1);
      forall x | x in Contacts(kip, n) ensures exists k | 0 <= k < n :: Named(kip[k], x) {
        if x in names {
          var k :| 0 <= k < n - 1 && Named(kip[k], x);
        } else {
          assert Named(kip[n - 1], x);
        }
      }
      assert AllNew(kip, n) <==> AllNew(kip, n - 1) && First(kip, n - 1);
      if kip[n - 1].name.Some? && kip[n - 1].name.value in names {
        var k :| 0 <= k < n - 1 && Named(kip[k], kip[n - 1].name.value);
        assert !First(kip, n - 1);
      }
    }
  }

  lemma {:induction false} ContactsGrow(kip: seq<Info>, m: nat, n: nat)
    requires m <= n <= |kip|
    ensures Contacts(kip, m) <= Contacts(kip, n)
    decreases n
  {
    if m < n {
      ContactsGrow(kip, m, n - 1);
    }
  }

  lemma {:induction false} IndexOfPrefix(names: seq<Name>, more: seq<Name>, contact: Name)
    requires names <= more && contact in names
    ensures ContactIndex(more, contact) == ContactIndex(names, contact)
  {
    var i, j := ContactIndex(names, contact), ContactIndex(more, contact);
  }

  /** The index found in the list of names belongs to the name's own entry exactly when all entries
      before the name's first one have names and no name occurs twice among them. */
  lemma {:induction false} IndexAlignedIff(kip: seq<Info>, i: nat)
    requires First(kip, i)
    ensures var k := ContactIndex(Contacts(kip, |kip|), kip[i].name.value);
            0 <= k <= i && (Named(kip[k], kip[i].name.value) <==> AllNew(kip, i))
  {
    var x := kip[i].name.value;
    ContactsAre(kip, i);
    var names := Contacts(kip, i);
    assert x !in names;
    assert Contacts(kip, i + 1) == names + [x];
    ContactsGrow(kip, i + 1, |kip|);
    IndexOfPrefix(names + [x], Contacts(kip, |kip|), x);
    var k := ContactIndex(names + [x], x);
  }

  // ---------------------------------------------------------------------------
  // The keysets of a contact
  // ---------------------------------------------------------------------------

  /** recursive_num_keysets: the entries in the order in which it counts or fills them in; None when the
      depth is used up. */
  function Keys(kip: seq<Info>, contact: Name, depth: nat): (r: Option<seq<nat>>)
    decreases depth, |kip| + 1, 0
  {
    if depth == 0 then None else EntryKeys(kip, contact, depth, |kip|)
  }

  /** The part of the first `n` entries. */
  function EntryKeys(kip: seq<Info>, contact: Name, depth: nat, n: nat): (r: Option<seq<nat>>)
    requires depth > 0 && n <= |kip|
    decreases depth, n, 0
  {
    if n == 0 then Some([])
    else
      var before := EntryKeys(kip, contact, depth, n - 1);
      if before.None? || !Named(kip[n - 1], contact) then before
      else if !Branches(kip[n - 1]) then Some(before.value + [n - 1])
      else
        Append(before, MemberKeys(kip, kip[n - 1].members.value, depth - 1, |kip[n - 1].members.value|))
  }

  /** The part of the first `n` members of a group. */
  function MemberKeys(kip: seq<Info>, members: seq<Name>, depth: nat, n: nat): (r: Option<seq<nat>>)
    requires n <= |members|
    decreases depth, |kip| + 2, n
  {
    if n == 0 then Some([])
    else Append(MemberKeys(kip, members, depth, n - 1), Keys(kip, members[n - 1], depth))
  }

  function Append(a: Option<seq<nat>>, b: Option<seq<nat>>): (r: Option<seq<nat>>) {
    if a.None? || b.None? then None else Some(a.value + b.value)
  }

  /** `m` is a member of a group called `n`. */
  ghost predicate Edge(kip: seq<Info>, n: Name, m: Name) {
    exists i | 0 <= i < |kip| :: Lists(kip[i], n, m)
  }

  predicate Lists(e: Info, n: Name, m: Name) {
    Named(e, n) && Branches(e) && m in e.members.value
  }

  ghost predicate Walk(kip: seq<Info>, p: seq<Name>) {
    p != [] && forall k | 0 <= k < |p| - 1 :: Edge(kip, p[k], p[k + 1])
  }

  /** Membership can be followed down `d` times. */
  ghost predicate Deep(kip: seq<Info>, n: Name, d: nat)
    decreases d
  {
    d == 0 || exists m :: Edge(kip, n, m) && Deep(kip, m, d - 1)
  }

  ghost predicate DeepMember(kip: seq<Info>, members: seq<Name>, d: nat, n: nat)
    requires n <= |members|
  {
    exists k | 0 <= k < n :: Deep(kip, members[k], d)
  }

  lemma {:induction false} MembersNone(kip: seq<Info>, members: seq<Name>, depth: nat, n: nat)
    requires n <= |members|
    ensures MemberKeys(kip, members, depth, n).None? <==> DeepMember(kip, members, depth, n)
    decreases depth, |kip| + 2, n
  {
    if n > 0 {
      MembersNone(kip, members, depth, n - 1);
      KeysNone(kip, members[n - 1], depth);
    }
  }

  /** One of the first `n` entries is a group of that name with a deep member. */
  ghost predicate DeepEntry(kip: seq<Info>, contact: Name, depth: nat, n: nat)
    requires depth > 0 && n <= |kip|
  {
    exists i | 0 <= i < n :: Named(kip[i], contact) && Branches(kip[i])
      && DeepMember(kip, kip[i].members.value, depth - 1, |kip[i].members.value|)
  }

  lemma {:induction false} EntriesNone(kip: seq<Info>, contact: Name, depth: nat, n: nat)
    requires depth > 0 && n <= |kip|
    ensures EntryKeys(kip, contact, depth, n).None? <==> DeepEntry(kip, contact, depth, n)
    decreases depth, n, 0
  {
    hide DeepMember;
    if n > 0 {
      EntriesNone(kip, contact, depth, n - 1);
      if Named(kip[n - 1], contact) && Branches(kip[n - 1]) {
        MembersNone(kip, kip[n - 1].members.value, depth - 1, |kip[n - 1].members.value|);
      }
    }
  }

  /** The recursion fails exactly when membership can be followed down as often as its depth. */
  lemma {:induction false} KeysNone(kip: seq<Info>, contact: Name, depth: nat)
    ensures Keys(kip, contact, depth).None? <==> Deep(kip, contact, depth)
    decreases depth, |kip| + 1, 0
  {
    if depth > 0 {
      EntriesNone(kip, contact, depth, |kip|);
      if DeepEntry(kip, contact, depth, |kip|) {
        var i :| 0 <= i < |kip| && Named(kip[i], contact) && Branches(kip[i])
          && DeepMember(kip, kip[i].members.value, depth - 1, |kip[i].members.value|);
        var k :| 0 <= k < |kip[i].members.value| && Deep(kip, kip[i].members.value[k], depth - 1);
        assert Lists(kip[i], contact, kip[i].members.value[k]);
        assert Edge(kip, contact, kip[i].members.value[k]);
      }
      if Deep(kip, contact, depth) {
        var m :| Edge(kip, contact, m) && Deep(kip, m, depth - 1);
        var i :| 0 <= i < |kip| && Lists(kip[i], contact, m);
        var k :| 0 <= k < |kip[i].members.value| && kip[i].members.value[k] == m;
        assert DeepMember(kip, kip[i].members.value, depth - 1, |kip[i].members.value|);
      }
    }
  }

  // ---------------------------------------------------------------------------
  // Cycles
  // ---------------------------------------------------------------------------

  ghost predicate StartsAt(p: seq<Name>, n: Name) {
    p != [] && p[0] == n
  }

  /** Two positions of the walk have the same name. */
  ghost predicate Repeats(p: seq<Name>, i: nat, j: nat) {
    i < j < |p| && p[i] == p[j]
  }

  /** Following memberships down from the contact one can come to some name twice. */
  ghost predicate CycleReachable(kip: seq<Info>, contact: Name) {
    exists p, i, j :: Walk(kip, p) && StartsAt(p, contact) && Repeats(p, i, j)
  }

  lemma {:induction false} DeepWalk(kip: seq<Info>, n: Name, d: nat) returns (p: seq<Name>)
    requires Deep(kip, n, d)
    ensures Walk(kip, p) && StartsAt(p, n) && |p| == d + 1
    decreases d
  {
    hide Edge;
    if d == 0 {
      p := [n];
    } else {
      var m :| Edge(kip, n, m) && Deep(kip, m, d - 1);
      var rest := DeepWalk(kip, m, d - 1);
      p := [n] + rest;
    }
  }

  lemma {:induction false} WalkDeep(kip: seq<Info>, p: seq<Name>, d: nat)
    requires Walk(kip, p) && |p| > d
    ensures Deep(kip, p[0], d)
    decreases d
  {
    hide Edge;
    if d > 0 {
      forall k | 0 <= k < |p[1..]| - 1 ensures Edge(kip, p[1..][k], p[1..][k + 1]) {
        var l := k + 1;
        assert Edge(kip, p[l], p[l + 1]);
      }
      WalkDeep(kip, p[1..], d - 1);
    }
  }

  /** A walk around a cycle can be made as long as one likes. */
  lemma {:induction false} Pump(kip: seq<Info>, p: seq<Name>, i: nat, j: nat, d: nat)
    requires Walk(kip, p) && Repeats(p, i, j)
    ensures Deep(kip, p[0], d)
    decreases d + j - |p|
  {
    hide Edge, Deep;
    if |p| > d {
      WalkDeep(kip, p, d);
    } else {
      var q := p[..j + 1] + p[i + 1..];
      forall k | 0 <= k < |q| - 1 ensures Edge(kip, q[k], q[k + 1]) {
        if k > j {
          assert q[k] == p[k - (j - i)] && q[k + 1] == p[k - (j - i) + 1];
        }
      }
      Pump(kip, q, i, j, d);
    }
  }

  ghost function GroupNames(kip: seq<Info>, n: nat): (names: set<Name>)
    requires n <= |kip|
    ensures |names| <= n
  {
    if n == 0 then {}
    else
      var names := GroupNames(kip, n - 1);
      if kip[n - 1].name.None? then names
      else
        CardinalityOfInsert(names, kip[n - 1].name.value);
        names + {kip[n - 1].name.value}
  }

  lemma {:induction false} GroupNamesHas(kip: seq<Info>, n: nat, i: nat)
    requires i < n <= |kip| && kip[i].name.Some?
    ensures kip[i].name.value in GroupNames(kip, n)
    decreases n
  {
    if i < n - 1 {
      GroupNamesHas(kip, n - 1, i);
    }
  }

  /** More places than names: some name occurs twice. */
  lemma {:induction false} Pigeonhole(p: seq<Name>, names: set<Name>) returns (i: nat, j: nat)
    requires |p| > |names| && forall k | 0 <= k < |p| :: p[k] in names
    ensures Repeats(p, i, j)
    decreases |p|
  {
    var last := p[|p| - 1];
    if k :| 0 <= k < |p| - 1 && p[k] == last {
      i, j := k, |p| - 1;
    } else {
      i, j := Pigeonhole(p[..|p| - 1], names - {last});
    }
  }

  /** Started with one more than the number of entries, the recursion reports a loop exactly when a
      membership cycle can be reached from the contact. */
  lemma {:induction false} LoopIffCycle(kip: seq<Info>, contact: Name)
    ensures Keys(kip, contact, |kip| + 1).None? <==> CycleReachable(kip, contact)
  {
    hide Keys, Deep, Edge;
    KeysNone(kip, contact, |kip| + 1);
    if CycleReachable(kip, contact) {
      var p, i, j :| Walk(kip, p) && StartsAt(p, contact) && Repeats(p, i, j);
      Pump(kip, p, i, j, |kip| + 1);
    }
    if Deep(kip, contact, |kip| + 1) {
      var p := DeepWalk(kip, contact, |kip| + 1);
      var q := p[..|kip| + 1];
      forall k | 0 <= k < |q| ensures q[k] in GroupNames(kip, |kip|) {
        EdgeFromGroup(kip, p[k], p[k + 1]);
      }
      var i, j := Pigeonhole(q, GroupNames(kip, |kip|));
      assert Repeats(p, i, j);
    }
  }

  lemma {:induction false} EdgeFromGroup(kip: seq<Info>, n: Name, m: Name)
    requires Edge(kip, n, m)
    ensures n in GroupNames(kip, |kip|)
  {
    var i :| 0 <= i < |kip| && Lists(kip[i], n, m);
    GroupNamesHas(kip, |kip|, i);
  }

  // ---------------------------------------------------------------------------
  // Which keysets these are
  // ---------------------------------------------------------------------------

  /** The entry is a plain contact whose name can be reached from `n`. */
  ghost predicate ReachesKey(kip: seq<Info>, n: Name, i: nat) {
    && i < |kip| && !Branches(kip[i])
    && exists p :: Walk(kip, p) && StartsAt(p, n) && Named(kip[i], p[|p| - 1])
  }

  lemma {:induction false} ReachesBelow(kip: seq<Info>, n: Name, m: Name, i: nat)
    requires Edge(kip, n, m) && ReachesKey(kip, m, i)
    ensures ReachesKey(kip, n, i)
  {
    hide Edge;
    var p :| Walk(kip, p) && StartsAt(p, m) && Named(kip[i], p[|p| - 1]);
    var q := [n] + p;
    assert Walk(kip, q) && StartsAt(q, n) && q[|q| - 1] == p[|p| - 1];
  }

  /** The first `n` members only lead to the keysets that some of them reach, for a group called `contact`. */
  lemma {:induction false} MemberKeysReach(kip: seq<Info>, contact: Name, members: seq<Name>, depth: nat, n: nat, x: nat)
    requires n <= |members| && MemberKeys(kip, members, depth, n).Some? && x in MemberKeys(kip, members, depth, n).value
    requires forall k | 0 <= k < |members| :: Edge(kip, contact, members[k])
    ensures ReachesKey(kip, contact, x)
    decreases depth, |kip| + 2, n
  {
    hide Edge, ReachesKey;
    if x in MemberKeys(kip, members, depth, n - 1).value {
      MemberKeysReach(kip, contact, members, depth, n - 1, x);
    } else {
      KeysReach(kip, members[n - 1], depth, x);
      ReachesBelow(kip, contact, members[n - 1], x);
    }
  }

  lemma {:induction false} EntryKeysReach(kip: seq<Info>, contact: Name, depth: nat, n: nat, x: nat)
    requires depth > 0 && n <= |kip|
    requires EntryKeys(kip, contact, depth, n).Some? && x in EntryKeys(kip, contact, depth, n).value
    ensures ReachesKey(kip, contact, x)
    decreases depth, n, 0
  {
    hide Edge, ReachesKey;
    if x in EntryKeys(kip, contact, depth, n - 1).value {
      EntryKeysReach(kip, contact, depth, n - 1, x);
    } else if Branches(kip[n - 1]) {
      var members := kip[n - 1].members.value;
      forall k | 0 <= k < |members| ensures Edge(kip, contact, members[k]) {
        ListsEdge(kip, n - 1, contact, members[k]);
      }
      MemberKeysReach(kip, contact, members, depth - 1, |members|, x);
    } else {
      OwnKey(kip, contact, x);
    }
  }

  lemma {:induction false} ListsEdge(kip: seq<Info>, i: nat, n: Name, m: Name)
    requires i < |kip| && Lists(kip[i], n, m)
    ensures Edge(kip, n, m)
  {
  }

  lemma {:induction false} OwnKey(kip: seq<Info>, contact: Name, x: nat)
    requires x < |kip| && Named(kip[x], contact) && !Branches(kip[x])
    ensures ReachesKey(kip, contact, x)
  {
    assert Walk(kip, [contact]) && StartsAt([contact], contact);
  }

  lemma {:induction false} KeysReach(kip: seq<Info>, contact: Name, depth: nat, x: nat)
    requires Keys(kip, contact, depth).Some? && x in Keys(kip, contact, depth).value
    ensures ReachesKey(kip, contact, x)
    decreases depth, |kip| + 1, 0
  {
    EntryKeysReach(kip, contact, depth, |kip|, x);
  }

  lemma {:induction false} MemberKeysHas(kip: seq<Info>, members: seq<Name>, depth: nat, n: nat, k: nat)
    requires k < n <= |members| && MemberKeys(kip, members, depth, n).Some?
    ensures Keys(kip, members[k], depth).Some?
    ensures forall x | x in Keys(kip, members[k], depth).value :: x in MemberKeys(kip, members, depth, n).value
    decreases n
  {
    hide Keys;
    if k < n - 1 {
      MemberKeysHas(kip, members, depth, n - 1, k);
    }
  }

  lemma {:induction false} EntryKeysHas(kip: seq<Info>, contact: Name, depth: nat, n: nat, i: nat)
    requires depth > 0 && i < n <= |kip| && Named(kip[i], contact) && EntryKeys(kip, contact, depth, n).Some?
    ensures !Branches(kip[i]) ==> i in EntryKeys(kip, contact, depth, n).value
    ensures Branches(kip[i]) ==>
              var ms := kip[i].members.value;
              && MemberKeys(kip, ms, depth - 1, |ms|).Some?
              && forall x | x in MemberKeys(kip, ms, depth - 1, |ms|).value :: x in EntryKeys(kip, contact, depth, n).value
    decreases n
  {
    hide MemberKeys;
    if i < n - 1 {
      EntryKeysHas(kip, contact, depth, n - 1, i);
    }
  }

  lemma {:induction false} KeysHas(kip: seq<Info>, p: seq<Name>, depth: nat, x: nat)
    requires Walk(kip, p) && x < |kip| && !Branches(kip[x]) && Named(kip[x], p[|p| - 1])
    requires Keys(kip, p[0], depth).Some?
    ensures x in Keys(kip, p[0], depth).value
    decreases |p|
  {
    hide MemberKeys, EntryKeys;
    if |p| == 1 {
      EntryKeysHas(kip, p[0], depth, |kip|, x);
    } else {
      assert Edge(kip, p[0], p[0 + 1]);
      var i :| 0 <= i < |kip| && Lists(kip[i], p[0], p[1]);
      var ms := kip[i].members.value;
      var k :| 0 <= k < |ms| && ms[k] == p[1];
      EntryKeysHas(kip, p[0], depth, |kip|, i);
      MemberKeysHas(kip, ms, depth - 1, |ms|, k);
      WalkTail(kip, p);
      KeysHas(kip, p[1..], depth - 1, x);
    }
  }

  lemma {:induction false} WalkTail(kip: seq<Info>, p: seq<Name>)
    requires Walk(kip, p) && |p| > 1
    ensures Walk(kip, p[1..])
  {
    hide Edge;
    forall k | 0 <= k < |p[1..]| - 1 ensures Edge(kip, p[1..][k], p[1..][k + 1]) {
      var l := k + 1;
      assert Edge(kip, p[l], p[l + 1]);
    }
  }

  /** Without a loop, exactly the plain entries whose names can be reached are listed. */
  lemma {:induction false} KeysAreReachable(kip: seq<Info>, contact: Name, x: nat)
    requires !CycleReachable(kip, contact)
    ensures Keys(kip, contact, |kip| + 1).Some?
    ensures x in Keys(kip, contact, |kip| + 1).value <==> ReachesKey(kip, contact, x)
  {
    hide Keys, Walk;
    LoopIffCycle(kip, contact);
    if x in Keys(kip, contact, |kip| + 1).value {
      KeysReach(kip, contact, |kip| + 1, x);
    }
    if ReachesKey(kip, contact, x) {
      var p :| Walk(kip, p) && StartsAt(p, contact) && Named(kip[x], p[|p| - 1]);
      KeysHas(kip, p, |kip| + 1, x);
    }
  }

  // ---------------------------------------------------------------------------
  // The program's recursion
  // ---------------------------------------------------------------------------

  /** The keysets found so far fill the caller's array, as far as it goes. */
  ghost predicate Filled(keysets: array?<nat>, at: nat, num: int, keys: seq<nat>)
    reads keysets
  {
    keysets != null && num > 0 ==>
      && at + num <= keysets.Length
      && forall k | 0 <= k < |keys| && k < num :: keysets[at + k] == keys[k]
  }

  function Depth(d: int): (n: nat) {
    if d < 0 then 0 else d
  }

  predicate Fits(keysets: array?<nat>, at: nat, num: int) {
    num > 0 ==> keysets != null && at + num <= keysets.Length
  }

  /** recursive_num_keysets; the array it fills starts at index `at` of the caller's. */
  method RecursiveNumKeysets(kip: seq<Info>, contact: Name, maxDepth: int, keysets: array?<nat>, at: nat, num: int)
    returns (count: int)
    requires Fits(keysets, at, num)
    modifies keysets
    ensures match Keys(kip, contact, Depth(maxDepth)) case None => count == -1 case Some(keys) => count == |keys|
    ensures count >= 0 ==> Filled(keysets, at, num, Keys(kip, contact, Depth(maxDepth)).value)
    ensures keysets != null ==> forall k | 0 <= k < keysets.Length && !(at <= k < at + num) :: keysets[k] == old(keysets[k])
    decreases maxDepth
  {
    if maxDepth <= 0 {
      return -1;
    }
    count := 0;
    ghost var keys: seq<nat> := [];
    for i := 0 to |kip|
      invariant EntryKeys(kip, contact, maxDepth, i) == Some(keys) && count == |keys|
      invariant Filled(keysets, at, num, keys)
      invariant keysets != null ==> forall k | 0 <= k < keysets.Length && !(at <= k < at + num) :: keysets[k] == old(keysets[k])
    {
      if kip[i].name == Some(contact) {
        if !kip[i].group || kip[i].members.None? {
          if keysets != null && num > count {
            keysets[at + count] := i;
          }
          count := count + 1;
          keys := keys + [i];
        } else {
          var members := kip[i].members.value;
          ghost var more: seq<nat> := [];
          for m := 0 to |members|
            invariant MemberKeys(kip, members, maxDepth - 1, m) == Some(more) && count == |keys + more|
            invariant Filled(keysets, at, num, keys + more)
            invariant keysets != null ==> forall k | 0 <= k < keysets.Length && !(at <= k < at + num) :: keysets[k] == old(keysets[k])
          {
            ghost var found := Keys(kip, members[m], maxDepth - 1);
            var result := RecursiveNumKeysets(kip, members[m], maxDepth - 1, keysets, at + count, num - count);
            if result < 0 {
              LoopsUp(kip, contact, maxDepth, i, m);
              return result;
            }
            assert keys + (more + found.value) == keys + more + found.value;
            count := count + result;
            more := more + found.value;
          }
          keys := keys + more;
        }
      }
    }
  }

  /** A loop met below one member is a loop of the whole. */
  lemma {:induction false} LoopsUp(kip: seq<Info>, contact: Name, depth: nat, i: nat, m: nat)
    requires depth > 0 && i < |kip| && Named(kip[i], contact) && Branches(kip[i]) && m < |kip[i].members.value|
    requires Keys(kip, kip[i].members.value[m], depth - 1).None?
    ensures Keys(kip, contact, depth).None?
  {
    var ms := kip[i].members.value;
    KeysNone(kip, ms[m], depth - 1);
    assert DeepMember(kip, ms, depth - 1, |ms|);
    assert DeepEntry(kip, contact, depth, |kip|);
    EntriesNone(kip, contact, depth, |kip|);
  }

  /** all_keys: the second pass fills exactly what the first one counted. */
  method AllKeys(kip: seq<Info>, contact: Name) returns (count: int, keysets: array?<nat>)
    ensures contact !in Contacts(kip, |kip|) ==> count == -1 && keysets == null
    ensures contact in Contacts(kip, |kip|) ==>
              match Keys(kip, contact, |kip| + 1)
              case None => count == -1 && keysets == null
              case Some(keys) =>
                && count == |keys|
                && if keys == [] then keysets == null else keysets != null && fresh(keysets) && keysets[..] == keys
  {
    keysets := null;
    if ContactIndex(Contacts(kip, |kip|), contact) < 0 {
      return -1, null;
    }
    count := RecursiveNumKeysets(kip, contact, |kip| + 1, null, 0, 0);
    if count <= 0 {
      return count, null;
    }
    keysets := new nat[count];
    var copied := RecursiveNumKeysets(kip, contact, |kip| + 1, keysets, 0, count);
    assert copied == count;
  }
}
