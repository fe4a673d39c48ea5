/** Searches through nested groups, downward to the contacts and upward to the enclosing groups. */
module Groups {
  import opened Base
  import opened Keysets

  // ---------------------------------------------------------------------------
  // Lists of names without repetition
  // ---------------------------------------------------------------------------

  ghost predicate Distinct(a: seq<Name>) {
    forall i, j | 0 <= i < j < |a| :: a[i] != a[j]
  }

  /** remove_from_array: the last name is put in the place of one that is removed. */
  method RemoveFromArray(a: array<Name>, count0: nat, x: Name) returns (count: nat)
    requires count0 <= a.Length
    modifies a
    ensures count <= count0
    ensures multiset(a[..count]) == multiset(old(a[..count0]))[x := 0]
    ensures a[count0..] == old(a[count0..])
  {
    hide SameBut;
    count := count0;
    var i := 0;
    ghost var a0 := a[..count0];
    SameButSelf(a0, x);
    while i < count
      invariant i <= count <= count0
      invariant SameBut(a[..count], a0, x)
      invariant x !in a[..i]
      invariant a[count0..] == old(a[count0..])
      decreases count - i
    {
      ghost var before := a[..count];
      if a[i] == x {
        count := count - 1;
        a[i] := a[count];
        SwapOutSame(before, i, a[..count], a0, x);
      } else {
        i := i + 1;
      }
    }
    SameButGone(a[..count], a0, x);
  }

  /** The same names as often, except for one. */
  ghost predicate SameBut(a: seq<Name>, b: seq<Name>, x: Name) {
    multiset(a)[x := 0] == multiset(b)[x := 0]
  }

  lemma {:induction false} SameButSelf(a: seq<Name>, x: Name)
    ensures SameBut(a, a, x)
  {
  }

  lemma {:induction false} SameButGone(a: seq<Name>, b: seq<Name>, x: Name)
    requires SameBut(a, b, x) && x !in a
    ensures multiset(a) == multiset(b)[x := 0]
  {
    assert x !in multiset(a);
  }

  lemma {:induction false} SwapOutSame(b: seq<Name>, i: nat, c: seq<Name>, a0: seq<Name>, x: Name)
    requires i < |b| && |c| == |b| - 1 && b[i] == x && SameBut(b, a0, x)
    requires forall k | 0 <= k < |c| :: c[k] == if k == i then b[|b| - 1] else b[k]
    ensures SameBut(c, a0, x)
  {
    SwapOut(b, i, c);
  }

  /** Replacing a name by the last one and shortening the list removes one occurrence. */
  lemma {:induction false} SwapOut(b: seq<Name>, i: nat, c: seq<Name>)
    requires i < |b| && |c| == |b| - 1
    requires forall k | 0 <= k < |c| :: c[k] == if k == i then b[|b| - 1] else b[k]
    ensures multiset(b) == multiset(c) + multiset{b[i]}
  {
    var last := b[|b| - 1];
    assert b == b[..|b| - 1] + [last];
    if i < |c| {
      assert c == b[..|b| - 1][i := last];
      assert multiset(c) == multiset(b[..|b| - 1]) - multiset{b[i]} + multiset{last};
    } else {
      assert c == b[..|b| - 1];
    }
  }

  ghost predicate SameNames(a: seq<Name>, b: seq<Name>) {
    forall x :: x in a <==> x in b
  }

  /** Different from each other, and from all names after them. */
  ghost predicate Settled(a: seq<Name>, i: nat) {
    forall j, k | 0 <= j < i && j < k < |a| :: a[j] != a[k]
  }

  /** eliminate_duplicates */
  method EliminateDuplicates(a: array<Name>, count0: nat) returns (count: nat)
    requires count0 <= a.Length
    modifies a
    ensures count <= count0 && Distinct(a[..count])
    ensures SameNames(a[..count], old(a[..count0]))
    ensures a[count0..] == old(a[count0..])
  {
    hide SameNames, Settled;
    count := count0;
    var i := 0;
    SameNamesStart(a[..count]);
    while i < count
      invariant i <= count <= count0
      invariant SameNames(a[..count], old(a[..count0])) && Settled(a[..count], i)
      invariant a[count0..] == old(a[count0..])
      decreases count, count - i
    {
      ghost var before := a[..count];
      var j := FindAgain(a, i, count);
      if j < count {
        count := count - 1;
        a[j] := a[count];
        DropAgain(before, i, j, a[..count], old(a[..count0]));
      } else {
        SettleOne(before, i);
        i := i + 1;
      }
    }
    AllSettled(a[..count], i);
  }

  lemma {:induction false} SameNamesStart(a: seq<Name>)
    ensures SameNames(a, a) && Settled(a, 0)
  {
  }

  lemma {:induction false} SettleOne(a: seq<Name>, i: nat)
    requires Settled(a, i) && i < |a| && forall k | i < k < |a| :: a[k] != a[i]
    ensures Settled(a, i + 1)
  {
  }

  lemma {:induction false} AllSettled(a: seq<Name>, i: nat)
    requires Settled(a, i) && i >= |a|
    ensures Distinct(a)
  {
  }

  method FindAgain(a: array<Name>, i: nat, count: nat) returns (j: nat)
    requires i < count <= a.Length
    ensures i < j <= count
    ensures j < count ==> a[j] == a[i]
    ensures forall k | i < k < j :: a[k] != a[i]
  {
    j := i + 1;
    while j < count && a[j] != a[i]
      invariant i < j <= count
      invariant forall k | i < k < j :: a[k] != a[i]
    {
      j := j + 1;
    }
  }

  lemma {:induction false} DropAgain(b: seq<Name>, i: nat, j: nat, c: seq<Name>, all: seq<Name>)
    requires i < j < |b| && b[i] == b[j] && |c| == |b| - 1
    requires forall k | 0 <= k < |c| :: c[k] == if k == j then b[|b| - 1] else b[k]
    requires SameNames(b, all) && Settled(b, i)
    ensures SameNames(c, all) && Settled(c, i)
  {
    forall x | x in b ensures x in c {
      var k :| 0 <= k < |b| && b[k] == x;
      var l := if k == |b| - 1 && j < |c| then j else if k == j || k == |b| - 1 then i else k;
      assert c[l] == x;
    }
  }

  /** string_in_array */
  method StringInArray(a: seq<Name>, x: Name) returns (found: bool)
    ensures found <==> x in a
  {
    for i := 0 to |a|
      invariant x !in a[..i]
    {
      if a[i] == x {
        return true;
      }
    }
    return false;
  }

  /** What merge_no_duplicates appends: the names of the list that are new, each once. */
  method AppendNew(a: seq<Name>, b: seq<Name>) returns (r: seq<Name>)
    requires Distinct(a)
    ensures Distinct(r) && a <= r
    ensures forall x :: x in r <==> x in a || x in b
  {
    r := a;
    for i := 0 to |b|
      invariant Distinct(r) && a <= r
      invariant forall x :: x in r <==> x in a || x in b[..i]
    {
      var found := StringInArray(r, b[i]);
      if !found {
        r := r + [b[i]];
      }
    }
  }

  /** merge_no_duplicates */
  method MergeNoDuplicates(a: seq<Name>, b: seq<Name>) returns (r: seq<Name>)
    ensures Distinct(r)
    ensures forall x :: x in r <==> x in a || x in b
    ensures Distinct(a) ==> a <= r
  {
    r := [];
    for i := 0 to |a|
      invariant Distinct(r)
      invariant forall x :: x in r <==> x in a[..i]
      invariant Distinct(a) ==> r == a[..i]
    {
      var found := StringInArray(r, a[i]);
      if !found {
        r := r + [a[i]];
      }
    }
    r := AppendNew(r, b);
  }

  // ---------------------------------------------------------------------------
  // Closures
  // ---------------------------------------------------------------------------

  /** A relation on names, as the names one step away. */
  ghost predicate Path(next: Name -> seq<Name>, p: seq<Name>) {
    p != [] && forall k | 0 <= k < |p| - 1 :: p[k + 1] in next(p[k])
  }

  ghost predicate Reaches(next: Name -> seq<Name>, x: Name, y: Name) {
    exists p :: Path(next, p) && p[0] == x && p[|p| - 1] == y
  }

  lemma {:induction false} ReachesSelf(next: Name -> seq<Name>, x: Name)
    ensures Reaches(next, x, x)
  {
    assert Path(next, [x]);
  }

  lemma {:induction false} ReachesOneMore(next: Name -> seq<Name>, x: Name, y: Name, z: Name)
    requires Reaches(next, x, y) && z in next(y)
    ensures Reaches(next, x, z)
  {
    var p :| Path(next, p) && p[0] == x && p[|p| - 1] == y;
    assert Path(next, p + [z]);
  }

  /** A set of names that is closed contains all that its members reach. */
  ghost predicate Closed(next: Name -> seq<Name>, names: seq<Name>) {
    forall x, y | x in names && y in next(x) :: y in names
  }

  lemma {:induction false} ClosedHasReached(next: Name -> seq<Name>, names: seq<Name>, x: Name, y: Name)
    requires Closed(next, names) && x in names && Reaches(next, x, y)
    ensures y in names
  {
    var p :| Path(next, p) && p[0] == x && p[|p| - 1] == y;
    ClosedAlong(next, names, p, |p| - 1);
  }

  lemma {:induction false} ClosedAlong(next: Name -> seq<Name>, names: seq<Name>, p: seq<Name>, k: nat)
    requires Closed(next, names) && Path(next, p) && p[0] in names && k < |p|
    ensures p[k] in names
    decreases k
  {
    if k > 0 {
      ClosedAlong(next, names, p, k - 1);
      var l := k - 1;
      assert p[l + 1] in next(p[l]);
    }
  }

  /** A list of different names from a set is no longer than the set. */
  lemma {:induction false} DistinctFits(a: seq<Name>, names: set<Name>)
    requires Distinct(a) && forall x | x in a :: x in names
    ensures |a| <= |names|
    decreases |a|
  {
    if a != [] {
      var last := a[|a| - 1];
      forall x | x in a[..|a| - 1] ensures x in names - {last} {
      }
      DistinctFits(a[..|a| - 1], names - {last});
    }
  }

  // ---------------------------------------------------------------------------
  // Downward: the contacts of a group
  // ---------------------------------------------------------------------------

  /** is_group */
  function IsGroup(kip: seq<Info>, x: Name): (b: bool)
    ensures b <==> exists k | 0 <= k < |kip| :: !kip[k].deleted && kip[k].group && Named(kip[k], x)
  {
    exists k | 0 <= k < |kip| :: !kip[k].deleted && kip[k].group && Named(kip[k], x)
  }

  /** group_membership: the members listed in the entry whose index is found for the name. */
  function GroupMembers(kip: seq<Info>, group: Name): (ms: seq<Name>) {
    var i := ContactIndex(Contacts(kip, |kip|), group);
    if !IsGroup(kip, group) || i < 0 || i >= |kip| then []
    else if Branches(kip[i]) then kip[i].members.value else []
  }

  /** Each name is in the list of names once. */
  lemma {:induction false} ContactsDistinct(kip: seq<Info>, n: nat)
    requires n <= |kip|
    ensures Distinct(Contacts(kip, n))
    decreases n
  {
    if n > 0 {
      ContactsDistinct(kip, n - 1);
    }
  }

  /** Which members a group has for the program: those of the entry whose index is the number of different names in front of
      the first entry of that name, provided that it is a group with members. */
  lemma {:induction false} GroupMembersAre(kip: seq<Info>, g: Name, i: nat)
    requires First(kip, i) && Named(kip[i], g)
    ensures var k := |Contacts(kip, i)|;
            && k <= i && (k == i <==> AllNew(kip, i))
            && ((exists e :: e in kip && !e.deleted && e.group && e.name == Some(g)) && kip[k].group && kip[k].members.Some? ==>
                  GroupMembers(kip, g) == kip[k].members.value)
            && (!((exists e :: e in kip && !e.deleted && e.group && e.name == Some(g)) && kip[k].group && kip[k].members.Some?) ==>
                  GroupMembers(kip, g) == [])
  {
    hide Contacts;
    ContactsAre(kip, i);
    IndexIs(kip, g, i);
    if e :| e in kip && !e.deleted && e.group && e.name == Some(g) {
      var k :| 0 <= k < |kip| && kip[k] == e;
      assert Named(kip[k], g);
    }
    if k :| 0 <= k < |kip| && !kip[k].deleted && kip[k].group && Named(kip[k], g) {
      assert kip[k] in kip;
    }
  }

  lemma {:induction false} IndexIs(kip: seq<Info>, g: Name, i: nat)
    requires First(kip, i) && Named(kip[i], g)
    ensures ContactIndex(Contacts(kip, |kip|), g) == |Contacts(kip, i)|
  {
    ContactsAre(kip, i);
    var names := Contacts(kip, i);
    assert g !in names;
    assert Contacts(kip, i + 1) == names + [g];
    ContactsGrow(kip, i + 1, |kip|);
    IndexOfPrefix(names + [g], Contacts(kip, |kip|), g);
    assert (names + [g])[..|names|] == names;
  }

  /** A name that no entry has has no members. */
  lemma {:induction false} NoNameNoMembers(kip: seq<Info>, g: Name)
    requires forall i | 0 <= i < |kip| :: !Named(kip[i], g)
    ensures GroupMembers(kip, g) == []
  {
  }

  /** The subgroups listed in a group. */
  ghost function Subgroups(kip: seq<Info>): (next: Name -> seq<Name>) {
    x => OnlyGroups(kip, GroupMembers(kip, x))
  }

  function OnlyGroups(kip: seq<Info>, ms: seq<Name>): (gs: seq<Name>)
    ensures forall x :: x in gs <==> x in ms && IsGroup(kip, x)
  {
    if ms == [] then []
    else OnlyGroups(kip, ms[..|ms| - 1]) + if IsGroup(kip, ms[|ms| - 1]) then [ms[|ms| - 1]] else []
  }

  /** A contact that is listed in the group itself or in some group nested in it. */
  ghost predicate ContactOf(kip: seq<Info>, group: Name, x: Name) {
    !IsGroup(kip, x) && exists g :: Reaches(Subgroups(kip), group, g) && x in GroupMembers(kip, g)
  }

  ghost function NameSet(a: seq<Name>): (names: set<Name>)
    ensures forall x :: x in names <==> x in a
  {
    if a == [] then {} else NameSet(a[..|a| - 1]) + {a[|a| - 1]}
  }

  ghost function AllMembers(kip: seq<Info>, n: nat): (names: set<Name>)
    requires n <= |kip|
    ensures forall i, x | 0 <= i < n && Branches(kip[i]) && x in kip[i].members.value :: x in names
  {
    if n == 0 then {}
    else AllMembers(kip, n - 1) + if Branches(kip[n - 1]) then NameSet(kip[n - 1].members.value) else {}
  }

  /** The groups found so far, and the contacts, when the first `i` groups were searched. */
  ghost predicate Searching(kip: seq<Info>, group: Name, subgroups: seq<Name>, all: seq<Name>) {
    && Distinct(subgroups) && Distinct(all) && group in subgroups
    && (forall g | g in subgroups :: Reaches(Subgroups(kip), group, g) && (g == group || g in AllMembers(kip, |kip|)))
    && (forall x | x in all :: ContactOf(kip, group, x))
  }

  /** All that the group lists was taken over. */
  ghost predicate Searched(kip: seq<Info>, g: Name, ms: seq<Name>, subgroups: seq<Name>, all: seq<Name>) {
    forall x | x in ms :: if IsGroup(kip, x) then x in subgroups else x in all
  }

  lemma {:induction false} MemberInAll(kip: seq<Info>, g: Name, x: Name)
    requires x in GroupMembers(kip, g)
    ensures x in AllMembers(kip, |kip|)
  {
    hide IsGroup, Contacts, NameSet;
    var i := ContactIndex(Contacts(kip, |kip|), g);
    assert Branches(kip[i]) && x in kip[i].members.value;
  }

  lemma {:induction false} SubgroupFound(kip: seq<Info>, group: Name, subgroups: seq<Name>, all: seq<Name>, g: Name, x: Name)
    requires Searching(kip, group, subgroups, all) && g in subgroups && x in GroupMembers(kip, g)
    requires IsGroup(kip, x) && x !in subgroups
    ensures Searching(kip, group, subgroups + [x], all)
  {
    hide IsGroup, Reaches, GroupMembers, AllMembers, ContactOf, OnlyGroups;
    MemberInAll(kip, g, x);
    OnlyGroupsAre(kip, GroupMembers(kip, g), x);
    ReachesOneMore(Subgroups(kip), group, g, x);
  }

  lemma {:induction false} ContactFound(kip: seq<Info>, group: Name, subgroups: seq<Name>, all: seq<Name>, g: Name, x: Name)
    requires Searching(kip, group, subgroups, all) && g in subgroups && x in GroupMembers(kip, g)
    requires !IsGroup(kip, x) && x !in all
    ensures Searching(kip, group, subgroups, all + [x])
  {
    hide IsGroup, Reaches, GroupMembers, AllMembers, OnlyGroups;
    assert ContactOf(kip, group, x);
  }

  lemma {:induction false} SubgroupsFit(kip: seq<Info>, group: Name, subgroups: seq<Name>, all: seq<Name>)
    requires Searching(kip, group, subgroups, all)
    ensures |subgroups| <= |AllMembers(kip, |kip|)| + 1
  {
    CardinalityOfInsert(AllMembers(kip, |kip|), group);
    DistinctFits(subgroups, AllMembers(kip, |kip|) + {group});
  }

  /** When all groups found were searched, all contacts were found. */
  lemma {:induction false} SearchComplete(kip: seq<Info>, group: Name, subgroups: seq<Name>, all: seq<Name>, x: Name)
    requires Searching(kip, group, subgroups, all)
    requires forall g | g in subgroups :: Searched(kip, g, GroupMembers(kip, g), subgroups, all)
    requires ContactOf(kip, group, x)
    ensures x in all
  {
    hide IsGroup, Reaches, GroupMembers, OnlyGroups;
    var g :| Reaches(Subgroups(kip), group, g) && x in GroupMembers(kip, g);
    forall a, b | a in subgroups && b in Subgroups(kip)(a) ensures b in subgroups {
      assert Searched(kip, a, GroupMembers(kip, a), subgroups, all);
      OnlyGroupsAre(kip, GroupMembers(kip, a), b);
    }
    ClosedHasReached(Subgroups(kip), subgroups, group, g);
    assert Searched(kip, g, GroupMembers(kip, g), subgroups, all);
  }

  lemma {:induction false} OnlyGroupsAre(kip: seq<Info>, ms: seq<Name>, x: Name)
    ensures x in OnlyGroups(kip, ms) <==> x in ms && IsGroup(kip, x)
  {
  }

  lemma {:induction false} NothingInside(kip: seq<Info>, group: Name)
    requires !IsGroup(kip, group)
    ensures GroupMembers(kip, group) == [] && Closed(Subgroups(kip), [group])
  {
    hide IsGroup;
    assert GroupMembers(kip, group) == [];
    assert OnlyGroups(kip, []) == [];
  }

  /** A name that is not a group has no contacts. */
  lemma {:induction false} NoGroupNoContacts(kip: seq<Info>, group: Name, x: Name)
    requires !IsGroup(kip, group)
    ensures !ContactOf(kip, group, x)
  {
    hide IsGroup, Reaches, OnlyGroups;
    if ContactOf(kip, group, x) {
      NothingInside(kip, group);
      var g :| Reaches(Subgroups(kip), group, g) && x in GroupMembers(kip, g);
      ClosedHasReached(Subgroups(kip), [group], group, g);
    }
  }

  /** One turn of the outer loop of group_contacts. */
  method SearchGroup(kip: seq<Info>, ghost group: Name, g: Name, subgroups0: seq<Name>, all0: seq<Name>)
    returns (subgroups: seq<Name>, all: seq<Name>)
    requires Searching(kip, group, subgroups0, all0) && g in subgroups0
    ensures Searching(kip, group, subgroups, all) && subgroups0 <= subgroups && all0 <= all
    ensures Searched(kip, g, GroupMembers(kip, g), subgroups, all)
  {
    hide IsGroup, Searching, GroupMembers;
    var ms := GroupMembers(kip, g);
    subgroups, all := subgroups0, all0;
    for j := 0 to |ms|
      invariant Searching(kip, group, subgroups, all) && subgroups0 <= subgroups && all0 <= all
      invariant Searched(kip, g, ms[..j], subgroups, all)
    {
      InPrefix(subgroups0, subgroups, g);
      if IsGroup(kip, ms[j]) {
        var found := StringInArray(subgroups, ms[j]);
        if !found {
          SubgroupFound(kip, group, subgroups, all, g, ms[j]);
          subgroups := subgroups + [ms[j]];
        }
      } else {
        var found := StringInArray(all, ms[j]);
        if !found {
          ContactFound(kip, group, subgroups, all, g, ms[j]);
          all := all + [ms[j]];
        }
      }
    }
    assert ms[..|ms|] == ms;
  }

  /** group_contacts: it ends on every membership graph, cycles included, and finds each contact in the
      group or in a group nested in it exactly once. */
  method GroupContacts(kip: seq<Info>, group: Name) returns (nmembers: nat, members: seq<Name>)
    ensures nmembers == |members| && Distinct(members)
    ensures forall x :: x in members <==> ContactOf(kip, group, x)
  {
    hide IsGroup, GroupMembers, ContactOf, Searching, Searched;
    members := [];
    if !IsGroup(kip, group) {
      forall x ensures !ContactOf(kip, group, x) {
        NoGroupNoContacts(kip, group, x);
      }
      return 0, [];
    }
    var subgroups := [group];
    SearchStarts(kip, group);
    var i := 0;
    while i < |subgroups|
      invariant Searching(kip, group, subgroups, members) && i <= |subgroups|
      invariant forall k | 0 <= k < i :: Searched(kip, subgroups[k], GroupMembers(kip, subgroups[k]), subgroups, members)
      decreases |AllMembers(kip, |kip|)| + 1 - i
    {
      SubgroupsFit(kip, group, subgroups, members);
      ghost var s0, m0 := subgroups, members;
      subgroups, members := SearchGroup(kip, group, subgroups[i], subgroups, members);
      forall k | 0 <= k < i ensures Searched(kip, subgroups[k], GroupMembers(kip, subgroups[k]), subgroups, members) {
        StaysSearched(kip, s0[k], GroupMembers(kip, s0[k]), s0, m0, subgroups, members);
      }
      i := i + 1;
    }
    nmembers := |members|;
    AllAreContacts(kip, group, subgroups, members);
    forall x ensures x in members <==> ContactOf(kip, group, x) {
      if ContactOf(kip, group, x) {
        SearchComplete(kip, group, subgroups, members, x);
      }
    }
  }

  lemma {:induction false} SearchStarts(kip: seq<Info>, group: Name)
    ensures Searching(kip, group, [group], [])
  {
    ReachesSelf(Subgroups(kip), group);
  }

  lemma {:induction false} StaysSearched(kip: seq<Info>, g: Name, ms: seq<Name>, s0: seq<Name>, m0: seq<Name>, s: seq<Name>, m: seq<Name>)
    requires Searched(kip, g, ms, s0, m0) && s0 <= s && m0 <= m
    ensures Searched(kip, g, ms, s, m)
  {
    hide IsGroup;
    forall x | x in ms ensures if IsGroup(kip, x) then x in s else x in m {
      if IsGroup(kip, x) {
        InPrefix(s0, s, x);
      } else {
        InPrefix(m0, m, x);
      }
    }
  }

  lemma {:induction false} InPrefix(a: seq<Name>, b: seq<Name>, x: Name)
    requires a <= b && x in a
    ensures x in b
  {
    var k :| 0 <= k < |a| && a[k] == x;
    assert b[k] == x;
  }

  lemma {:induction false} AllAreContacts(kip: seq<Info>, group: Name, subgroups: seq<Name>, all: seq<Name>)
    requires Searching(kip, group, subgroups, all)
    ensures Distinct(all) && forall x | x in all :: ContactOf(kip, group, x)
  {
  }

  // ---------------------------------------------------------------------------
  // Upward: the groups around a contact
  // ---------------------------------------------------------------------------

  /** A group in which the name is listed. */
  predicate GroupWith(e: Info, x: Name) {
    e.name.Some? && Branches(e) && x in e.members.value
  }

  /** The groups that list a name, in the order of the table, each as often as it lists the name. */
  function ListedIn(kip: seq<Info>, x: Name, n: nat): (names: seq<Name>)
    requires n <= |kip|
  {
    if n == 0 then []
    else
      ListedIn(kip, x, n - 1)
      + if kip[n - 1].name.Some? && Branches(kip[n - 1]) then
          Repeated(kip[n - 1].name.value, multiset(kip[n - 1].members.value)[x])
        else []
  }

  function Repeated(g: Name, n: nat): (names: seq<Name>) {
    seq(n, _ => g)
  }

  lemma {:induction false} RepeatedNext(names: seq<Name>, g: Name, n: nat)
    ensures names + Repeated(g, n + 1) == names + Repeated(g, n) + [g] && names + Repeated(g, 0) == names
  {
  }

  lemma {:induction false} RepeatedHas(x: Name, n: nat, g: Name)
    ensures g in Repeated(x, n) <==> n > 0 && g == x
  {
    if n > 0 {
      assert Repeated(x, n)[0] == x;
    }
  }

  /** The list says which groups have the name as a member. */
  lemma {:induction false} ListedInHas(kip: seq<Info>, x: Name, n: nat, g: Name)
    requires n <= |kip|
    ensures g in ListedIn(kip, x, n) <==> exists i | 0 <= i < n :: GroupWith(kip[i], x) && kip[i].name.value == g
    decreases n
  {
    hide Repeated;
    if n > 0 {
      ListedInHas(kip, x, n - 1, g);
      var k := kip[n - 1];
      if k.name.Some? && Branches(k) {
        RepeatedHas(k.name.value, multiset(k.members.value)[x], g);
        assert x in multiset(k.members.value) <==> x in k.members.value;
      }
    }
  }

  /** member_of_groups: the names of the groups that list this one, in table order. */
  method MemberOfGroups(kip: seq<Info>, x: Name) returns (names: seq<Name>)
    ensures names == ListedIn(kip, x, |kip|)
    ensures forall g :: g in names <==> exists i | 0 <= i < |kip| :: GroupWith(kip[i], x) && kip[i].name.value == g
  {
    hide Repeated;
    names := [];
    for i := 0 to |kip|
      invariant names == ListedIn(kip, x, i)
    {
      if kip[i].name.Some? && Branches(kip[i]) {
        var ms, g := kip[i].members.value, kip[i].name.value;
        ghost var before := names;
        RepeatedNext(before, g, 0);
        assert multiset(ms[..0]) == multiset{};
        for m := 0 to |ms|
          invariant names == before + Repeated(g, multiset(ms[..m])[x])
        {
          assert ms[..m + 1] == ms[..m] + [ms[m]];
          if ms[m] == x {
            RepeatedNext(before, g, multiset(ms[..m])[x]);
            names := names + [g];
          }
        }
        assert ms[..|ms|] == ms;
      }
    }
    forall g ensures g in names <==> exists i | 0 <= i < |kip| :: GroupWith(kip[i], x) && kip[i].name.value == g {
      ListedInHas(kip, x, |kip|, g);
    }
  }

  /** The names of the groups that list a name. */
  ghost function Above(kip: seq<Info>): (next: Name -> seq<Name>) {
    x => ListedIn(kip, x, |kip|)
  }

  lemma {:induction false} AboveAreGroups(kip: seq<Info>, x: Name, g: Name)
    requires g in Above(kip)(x)
    ensures g in GroupNames(kip, |kip|)
  {
    hide GroupNames, ListedIn;
    ListedInHas(kip, x, |kip|, g);
    var i :| 0 <= i < |kip| && GroupWith(kip[i], x) && kip[i].name.value == g;
    GroupNamesHas(kip, |kip|, i);
  }

  /** A group around the contact: one of the groups that list it, other than itself, or one around that. */
  ghost predicate GroupAround(kip: seq<Info>, contact: Name, y: Name) {
    exists g :: DirectGroup(kip, contact, g) && Reaches(Above(kip), g, y)
  }

  ghost predicate DirectGroup(kip: seq<Info>, contact: Name, g: Name) {
    g != contact && g in Above(kip)(contact)
  }

  ghost predicate Climbing(kip: seq<Info>, contact: Name, found: seq<Name>) {
    && Distinct(found)
    && (forall g | DirectGroup(kip, contact, g) :: g in found)
    && (forall y | y in found :: GroupAround(kip, contact, y) && y in GroupNames(kip, |kip|))
  }

  /** All groups that list the name were found. */
  ghost predicate Climbed(kip: seq<Info>, g: Name, found: seq<Name>) {
    forall y | y in Above(kip)(g) :: y in found
  }

  lemma {:induction false} ClimbStarts(kip: seq<Info>, contact: Name, found: seq<Name>)
    requires Distinct(found) && forall g :: g in found <==> DirectGroup(kip, contact, g)
    ensures Climbing(kip, contact, found)
  {
    hide ListedIn;
    forall y | y in found ensures GroupAround(kip, contact, y) && y in GroupNames(kip, |kip|) {
      AboveAreGroups(kip, contact, y);
      ReachesSelf(Above(kip), y);
    }
  }

  lemma {:induction false} AroundOneMore(kip: seq<Info>, contact: Name, g: Name, y: Name)
    requires GroupAround(kip, contact, g) && y in Above(kip)(g)
    ensures GroupAround(kip, contact, y) && y in GroupNames(kip, |kip|)
  {
    hide ListedIn, Reaches, DirectGroup, GroupNames;
    AboveAreGroups(kip, g, y);
    var d :| DirectGroup(kip, contact, d) && Reaches(Above(kip), d, g);
    ReachesOneMore(Above(kip), d, g, y);
  }

  lemma {:induction false} ClimbOn(kip: seq<Info>, contact: Name, found: seq<Name>, g: Name, more: seq<Name>)
    requires Climbing(kip, contact, found) && g in found && found <= more && Distinct(more)
    requires forall y :: y in more <==> y in found || y in Above(kip)(g)
    ensures Climbing(kip, contact, more)
  {
    hide ListedIn, DirectGroup, GroupAround, GroupNames;
    forall y | y in more ensures GroupAround(kip, contact, y) && y in GroupNames(kip, |kip|) {
      if y !in found {
        AroundOneMore(kip, contact, g, y);
      }
    }
  }

  lemma {:induction false} ClimbComplete(kip: seq<Info>, contact: Name, found: seq<Name>, y: Name)
    requires Climbing(kip, contact, found) && forall g | g in found :: Climbed(kip, g, found)
    requires GroupAround(kip, contact, y)
    ensures y in found
  {
    hide ListedIn, Reaches, DirectGroup;
    var g :| DirectGroup(kip, contact, g) && Reaches(Above(kip), g, y);
    forall a, b | a in found && b in Above(kip)(a) ensures b in found {
      assert Climbed(kip, a, found);
    }
    ClosedHasReached(Above(kip), found, g, y);
  }

  lemma {:induction false} ClimbFits(kip: seq<Info>, contact: Name, found: seq<Name>)
    requires Climbing(kip, contact, found)
    ensures |found| <= |GroupNames(kip, |kip|)|
  {
    DistinctFits(found, GroupNames(kip, |kip|));
  }

  lemma {:induction false} SameNamesHas(a: seq<Name>, b: seq<Name>, x: Name)
    requires SameNames(a, b)
    ensures x in a <==> x in b
  {
  }

  lemma {:induction false} OnlyRemoved(a: seq<Name>, b: seq<Name>, x: Name, y: Name)
    requires multiset(b) == multiset(a)[x := 0]
    ensures y in b <==> y in a && y != x
  {
    assert y in b <==> y in multiset(b);
    assert y in a <==> y in multiset(a);
  }

  /** The direct groups of the contact, each once and without itself. */
  method DirectGroups(kip: seq<Info>, contact: Name) returns (found: seq<Name>)
    ensures Distinct(found) && forall g :: g in found <==> DirectGroup(kip, contact, g)
  {
    hide ListedIn, GroupWith, SameNames;
    var first := MemberOfGroups(kip, contact);
    var a := new Name[|first|](i requires 0 <= i < |first| => first[i]);
    assert a[..|first|] == first;
    var count := RemoveFromArray(a, |first|, contact);
    ghost var kept := a[..count];
    assert multiset(kept) == multiset(first)[contact := 0];
    count := EliminateDuplicates(a, count);
    found := a[..count];
    forall g ensures g in found <==> DirectGroup(kip, contact, g) {
      ListedInHas(kip, contact, |kip|, g);
      SameNamesHas(found, kept, g);
      OnlyRemoved(first, kept, contact, g);
    }
  }

  /** member_of_groups_recursive: it ends on every membership graph, and finds each group around the
      contact exactly once. */
  method MemberOfGroupsRecursive(kip: seq<Info>, contact: Name) returns (count: nat, groups: seq<Name>)
    ensures count == |groups| && Distinct(groups)
    ensures forall y :: y in groups <==> GroupAround(kip, contact, y)
  {
    hide ListedIn, GroupWith, Climbing, Climbed, DirectGroup, GroupAround;
    groups := DirectGroups(kip, contact);
    ClimbStarts(kip, contact, groups);
    var i := 0;
    while i < |groups|
      invariant Climbing(kip, contact, groups) && i <= |groups|
      invariant forall k | 0 <= k < i :: Climbed(kip, groups[k], groups)
      decreases |GroupNames(kip, |kip|)| - i
    {
      ClimbFits(kip, contact, groups);
      ghost var g0 := groups;
      groups := ClimbOne(kip, contact, groups, i);
      forall k | 0 <= k < i ensures Climbed(kip, groups[k], groups) {
        StaysClimbed(kip, g0[k], g0, groups);
      }
      i := i + 1;
    }
    count := |groups|;
    AllAround(kip, contact, groups);
    forall y ensures y in groups <==> GroupAround(kip, contact, y) {
      if GroupAround(kip, contact, y) {
        ClimbComplete(kip, contact, groups, y);
      }
    }
  }

  /** One turn of that loop: the list is replaced only when it has grown. */
  method ClimbOne(kip: seq<Info>, ghost contact: Name, groups0: seq<Name>, i: nat) returns (groups: seq<Name>)
    requires Climbing(kip, contact, groups0) && i < |groups0|
    ensures Climbing(kip, contact, groups) && groups0 <= groups && Climbed(kip, groups0[i], groups)
  {
    hide ListedIn, GroupWith, Climbing;
    groups := groups0;
    AllAround(kip, contact, groups0);
    var local := MemberOfGroups(kip, groups[i]);
    forall y ensures y in local <==> y in Above(kip)(groups0[i]) {
      ListedInHas(kip, groups0[i], |kip|, y);
    }
    if |local| > 0 {
      var merged := MergeNoDuplicates(groups, local);
      if |merged| > |groups| {
        groups := merged;
        ClimbOn(kip, contact, groups0, groups0[i], groups);
      } else {
        assert merged == groups0;
      }
    }
  }

  lemma {:induction false} StaysClimbed(kip: seq<Info>, g: Name, found: seq<Name>, more: seq<Name>)
    requires Climbed(kip, g, found) && found <= more
    ensures Climbed(kip, g, more)
  {
    hide ListedIn;
    forall y | y in Above(kip)(g) ensures y in more {
      InPrefix(found, more, y);
    }
  }

  lemma {:induction false} AllAround(kip: seq<Info>, contact: Name, found: seq<Name>)
    requires Climbing(kip, contact, found)
    ensures Distinct(found) && forall y | y in found :: GroupAround(kip, contact, y)
  {
  }
}
