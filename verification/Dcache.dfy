/** The data cache: a list kept in order of last use, of which the least recently used entry makes room. */
module Dcache {
  /** Pointers to the data of the callers; 0 is NULL. */
  type Data = nat

  const NULL: Data := 0

  // ---------------------------------------------------------------------------
  // The list
  // ---------------------------------------------------------------------------

  /** find_data: the first place of a pointer among the first `n`, never of NULL. */
  function FindData(s: seq<Data>, x: Data, n: nat): (i: int)
    requires n <= |s|
    ensures -1 <= i < n
    ensures i >= 0 ==> s[i] == x && x !in s[..i]
    ensures i < 0 && x != NULL ==> x !in s[..n]
  {
    if n == 0 || x == NULL then -1
    else
      var i := FindData(s, x, n - 1);
      if i >= 0 then i else if s[n - 1] == x then n - 1 else -1
  }

  function Next(k: nat): (n: nat) {
    k + 1
  }

  function Without(s: seq<Data>, i: nat): (r: seq<Data>)
    requires i < |s|
  {
    s[..i] + s[i + 1..]
  }

  /** record_usage */
  function ToFront(s: seq<Data>, i: nat): (r: seq<Data>)
    requires i < |s|
  {
    [s[i]] + Without(s, i)
  }

  /** What cache_add leaves in a cache for at most `max` entries. */
  function Added(s: seq<Data>, max: nat, x: Data): (r: seq<Data>)
    requires |s| <= max && max > 0
    ensures |r| <= max
  {
    var i := FindData(s, x, |s|);
    if i >= 0 then ToFront(s, i)
    else if |s| == max then [x] + s[..|s| - 1]
    else [x] + s
  }

  /** What it releases. */
  function ReleasedBy(s: seq<Data>, max: nat, x: Data): (r: seq<Data>)
    requires |s| <= max && max > 0
  {
    if FindData(s, x, |s|) < 0 && |s| == max then [s[|s| - 1]] else []
  }

  // ---------------------------------------------------------------------------
  // The stack property
  // ---------------------------------------------------------------------------

  function Trace(max: nat, xs: seq<Data>): (s: seq<Data>)
    requires max > 0
    ensures |s| <= max
  {
    if xs == [] then [] else Added(Trace(max, xs[..|xs| - 1]), max, xs[|xs| - 1])
  }

  /** All that was ever added, the most recent first: the last one, then the others as they were before. */
  function Recent(xs: seq<Data>): (s: seq<Data>) {
    if xs == [] then []
    else
      var s, x := Recent(xs[..|xs| - 1]), xs[|xs| - 1];
      var i := FindData(s, x, |s|);
      [x] + if i >= 0 then Without(s, i) else s
  }

  function Cut(s: seq<Data>, n: nat): (r: seq<Data>) {
    if |s| <= n then s else s[..n]
  }

  ghost predicate Distinct(s: seq<Data>) {
    forall i, j | 0 <= i < j < |s| :: s[i] != s[j]
  }

  ghost predicate NoNull(xs: seq<Data>) {
    NULL !in xs
  }

  lemma {:induction false} WithoutDistinct(s: seq<Data>, i: nat)
    requires i < |s| && Distinct(s)
    ensures Distinct(Without(s, i)) && s[i] !in Without(s, i)
    ensures forall x :: x in Without(s, i) <==> x in s && x != s[i]
  {
    forall x | x in s && x != s[i] ensures x in Without(s, i) {
      var k :| 0 <= k < |s| && s[k] == x;
      assert Without(s, i)[if k < i then k else k - 1] == x;
    }
  }

  /** The list of recent entries has each added pointer once. */
  lemma {:induction false} RecentIsExact(xs: seq<Data>)
    requires NoNull(xs)
    ensures Distinct(Recent(xs)) && NoNull(Recent(xs))
    ensures forall x :: x in Recent(xs) <==> x in xs
    decreases |xs|
  {
    if xs != [] {
      var s, x := Recent(xs[..|xs| - 1]), xs[|xs| - 1];
      RecentIsExact(xs[..|xs| - 1]);
      assert xs == xs[..|xs| - 1] + [x];
      var i := FindData(s, x, |s|);
      if i >= 0 {
        WithoutDistinct(s, i);
      }
    }
  }

  lemma {:induction false} FindInCut(s: seq<Data>, x: Data, m: nat)
    requires Distinct(s) && x != NULL
    ensures var i, c := FindData(s, x, |s|), Cut(s, m);
            FindData(c, x, |c|) == if i < m then i else -1
  {
    var i, c := FindData(s, x, |s|), Cut(s, m);
    var j := FindData(c, x, |c|);
    assert j >= 0 ==> c[j] == s[j];
    assert 0 <= i < m ==> c[i] == s[i];
  }

  lemma {:induction false} AddedToCut(s: seq<Data>, x: Data, m: nat)
    requires Distinct(s) && x != NULL && m > 0
    ensures var i := FindData(s, x, |s|);
            Added(Cut(s, m), m, x) == Cut([x] + if i >= 0 then Without(s, i) else s, m)
  {
    hide FindData, Distinct;
    FindInCut(s, x, m);
    var i := FindData(s, x, |s|);
    if 0 <= i < m {
      CutFound(s, i, m);
    } else {
      CutNotFound(s, if i >= 0 then Without(s, i) else s, m);
      CutAdd(x, if i >= 0 then Without(s, i) else s, m);
    }
  }

  lemma {:induction false} CutFound(s: seq<Data>, i: nat, m: nat)
    requires i < |s| && i < m
    ensures ToFront(Cut(s, m), i) == Cut(ToFront(s, i), m)
  {
  }

  /** Beyond the cut, a removal makes no difference to the first places. */
  lemma {:induction false} CutNotFound(s: seq<Data>, r: seq<Data>, m: nat)
    requires m > 0 && (r == s || (exists i | m <= i < |s| :: r == Without(s, i)))
    ensures Cut(r, m - 1) == if |Cut(s, m)| == m then Cut(s, m)[..m - 1] else Cut(s, m)
  {
  }

  lemma {:induction false} CutAdd(x: Data, r: seq<Data>, m: nat)
    requires m > 0
    ensures Cut([x] + r, m) == [x] + Cut(r, m - 1)
  {
  }

  /** A cache holds exactly the most recent entries that it has room for. */
  lemma {:induction false} TraceIsRecent(max: nat, xs: seq<Data>)
    requires max > 0 && NoNull(xs)
    ensures Trace(max, xs) == Cut(Recent(xs), max)
    decreases |xs|
  {
    if xs != [] {
      var before := xs[..|xs| - 1];
      TraceIsRecent(max, before);
      RecentIsExact(before);
      AddedToCut(Recent(before), xs[|xs| - 1], max);
    }
  }

  /** The stack property: of two caches that were given the same entries the smaller one holds the first
      entries of the larger one, and no cache holds an entry twice. */
  lemma {:induction false} StackProperty(m: nat, n: nat, xs: seq<Data>)
    requires 0 < m <= n && NoNull(xs)
    ensures Trace(m, xs) == Cut(Trace(n, xs), m)
    ensures Distinct(Trace(m, xs))
  {
    TraceIsRecent(m, xs);
    TraceIsRecent(n, xs);
    RecentIsExact(xs);
  }

  /** NULL is never found, and so it is added again and again. */
  lemma {:induction false} NullIsAddedTwice(max: nat)
    requires max >= 2
    ensures Trace(max, [NULL, NULL]) == [NULL, NULL]
  {
    assert [NULL, NULL][..1] == [NULL] && [NULL][..0] == [];
    assert Trace(max, [NULL]) == [NULL] by {
      assert Trace(max, []) == [];
    }
  }

  // ---------------------------------------------------------------------------
  // Every entry is released exactly once
  // ---------------------------------------------------------------------------

  datatype Op = AddOp(x: Data) | UseOp(x: Data) | RemoveOp(x: Data)

  /** The entries, what was released and what was inserted so far. */
  datatype State = State(entries: seq<Data>, released: multiset<Data>, inserted: multiset<Data>)

  function Apply(max: nat, s: State, op: Op): (s': State)
    requires |s.entries| <= max && max > 0
    ensures |s'.entries| <= max
  {
    var i := FindData(s.entries, op.x, |s.entries|);
    match op
    case AddOp(x) =>
      State(Added(s.entries, max, x), s.released + multiset(ReleasedBy(s.entries, max, x)),
            if i >= 0 then s.inserted else s.inserted + multiset{x})
    case UseOp(x) => if i >= 0 then s.(entries := ToFront(s.entries, i)) else s
    case RemoveOp(x) =>
      if i >= 0 then State(Without(s.entries, i), s.released + multiset{x}, s.inserted) else s
  }

  function Run(max: nat, s: State, ops: seq<Op>): (s': State)
    requires |s.entries| <= max && max > 0
    ensures |s'.entries| <= max
  {
    if ops == [] then s else Apply(max, Run(max, s, ops[..|ops| - 1]), ops[|ops| - 1])
  }

  ghost predicate Accounted(s: State) {
    s.inserted == s.released + multiset(s.entries)
  }

  lemma {:induction false} WithoutCounts(s: seq<Data>, i: nat)
    requires i < |s|
    ensures multiset(s) == multiset(Without(s, i)) + multiset{s[i]}
    ensures multiset(ToFront(s, i)) == multiset(s)
  {
    assert s == s[..i] + [s[i]] + s[i + 1..];
  }

  lemma {:induction false} ApplyAccounts(max: nat, s: State, op: Op)
    requires |s.entries| <= max && max > 0 && Accounted(s)
    ensures Accounted(Apply(max, s, op))
  {
    hide Added, ReleasedBy, ToFront, Without, FindData;
    var e := s.entries;
    var i := FindData(e, op.x, |e|);
    if op.AddOp? {
      AddCounts(e, max, op.x);
      var a, r := multiset(Added(e, max, op.x)), multiset(ReleasedBy(e, max, op.x));
      assert s.released + r + a == s.released + (a + r);
      assert s.released + (multiset(e) + multiset{op.x}) == s.released + multiset(e) + multiset{op.x};
    } else if i >= 0 {
      WithoutCounts(e, i);
    }
  }

  lemma {:induction false} AddCounts(s: seq<Data>, max: nat, x: Data)
    requires |s| <= max && max > 0
    ensures multiset(Added(s, max, x)) + multiset(ReleasedBy(s, max, x))
            == if FindData(s, x, |s|) >= 0 then multiset(s) else multiset(s) + multiset{x}
  {
    hide FindData, ToFront, Without;
    var i := FindData(s, x, |s|);
    if i >= 0 {
      WithoutCounts(s, i);
      assert multiset(ReleasedBy(s, max, x)) == multiset{};
    } else {
      FrontCounts(s, x);
    }
  }

  lemma {:induction false} FrontCounts(s: seq<Data>, x: Data)
    ensures multiset([x] + s) == multiset(s) + multiset{x}
    ensures s != [] ==> multiset([x] + s[..|s| - 1]) + multiset([s[|s| - 1]]) == multiset(s) + multiset{x}
  {
    if s != [] {
      assert s == s[..|s| - 1] + [s[|s| - 1]];
    }
  }

  /** Over every run of additions, uses and removals, NULL or not: what was inserted is either still
      there or was released, once for every insertion. */
  lemma {:induction false} RunAccounts(max: nat, s: State, ops: seq<Op>)
    requires |s.entries| <= max && max > 0 && Accounted(s)
    ensures Accounted(Run(max, s, ops))
    decreases |ops|
  {
    if ops != [] {
      RunAccounts(max, s, ops[..|ops| - 1]);
      ApplyAccounts(max, Run(max, s, ops[..|ops| - 1]), ops[|ops| - 1]);
    }
  }

  // ---------------------------------------------------------------------------
  // The cache as the program keeps it
  // ---------------------------------------------------------------------------

  class Cache {
    const entries: array<Data>
    var numEntries: nat
    ghost var released: seq<Data>

    ghost predicate Valid()
      reads this
    {
      numEntries <= entries.Length && entries.Length > 0
    }

    ghost function Contents(): (s: seq<Data>)
      requires Valid()
      reads this, entries
    {
      entries[..numEntries]
    }

    /** cache_init */
    constructor (maxEntries: nat)
      requires maxEntries > 0
      ensures Valid() && fresh(entries) && entries.Length == maxEntries && Contents() == [] && released == []
    {
      entries := new Data[maxEntries](_ => NULL);
      numEntries := 0;
      released := [];
    }

    method Find(x: Data) returns (i: int)
      requires Valid()
      ensures i == FindData(Contents(), x, |Contents()|)
    {
      if x == NULL {
        return -1;
      }
      for k := 0 to numEntries
        invariant FindData(Contents(), x, k) == -1
      {
        if entries[k] == x {
          FoundAt(Contents(), x, k, numEntries);
          return k;
        }
      }
      return -1;
    }

    /** record_usage: the entries before it move up by one. */
    method RecordUsage(index: nat)
      requires Valid() && index < numEntries
      modifies entries
      ensures Contents() == ToFront(old(Contents()), index)
    {
      ghost var s := Contents();
      var ce := entries[index];
      var i := index;
      while i > 0
        invariant 0 <= i <= index && |s| == numEntries
        invariant forall k | 0 <= k <= i :: entries[k] == s[k]
        invariant forall k | i < k <= index :: entries[k] == s[k - 1]
        invariant forall k | index < k < numEntries :: entries[k] == s[k]
      {
        entries[i] := entries[i - 1];
        i := i - 1;
      }
      entries[0] := ce;
      MovedToFront(s, index, Contents());
    }

    /** release_entry */
    method ReleaseEntry(index: nat)
      requires Valid() && index < numEntries
      modifies entries, this`released
      ensures released == old(released) + [old(Contents())[index]]
      ensures Contents() == old(Contents())[index := NULL]
    {
      released := released + [entries[index]];
      entries[index] := NULL;
    }

    /** cache_add */
    method Add(x: Data)
      requires Valid()
      modifies this, entries
      ensures Valid() && Contents() == Added(old(Contents()), entries.Length, x)
      ensures released == old(released) + ReleasedBy(old(Contents()), entries.Length, x)
    {
      var found := Find(x);
      if found != -1 {
        RecordUsage(found);
        return;
      }
      ghost var s := Contents();
      var index := numEntries;
      if index == entries.Length {
        index := index - 1;
        ReleaseEntry(index);
      } else {
        numEntries := numEntries + 1;
      }
      entries[index] := x;
      assert Contents() == s[..index] + [x];
      RecordUsage(index);
    }

    /** cache_record_usage */
    method Use(x: Data)
      requires Valid()
      modifies entries
      ensures Valid()
      ensures var i := FindData(old(Contents()), x, |old(Contents())|);
              Contents() == if i >= 0 then ToFront(old(Contents()), i) else old(Contents())
    {
      var i := Find(x);
      if i != -1 {
        RecordUsage(i);
      }
    }

    /** cache_remove with actual_remove */
    method Remove(x: Data) returns (removed: bool)
      requires Valid()
      modifies this, entries
      ensures Valid()
      ensures var i := FindData(old(Contents()), x, |old(Contents())|);
              && (removed <==> i >= 0)
              && Contents() == (if removed then Without(old(Contents()), i) else old(Contents()))
              && released == old(released) + if removed then [x] else []
    {
      var index := Find(x);
      removed := index != -1;
      if removed {
        ghost var s := Contents();
        assert s[index] == x;
        ReleaseEntry(index);
        numEntries := numEntries - 1;
        var i: nat := index;
        while i < numEntries
          modifies entries
          invariant index <= i <= numEntries == |s| - 1
          invariant forall k | 0 <= k < index :: entries[k] == s[k]
          invariant forall k | index <= k < i :: entries[k] == s[Next(k)]
          invariant forall k | i < k <= numEntries :: entries[k] == s[k]
        {
          entries[i] := entries[i + 1];
          i := i + 1;
        }
        ClosedUp(s, index, Contents());
      }
    }
  }

  lemma {:induction false} MovedToFront(s: seq<Data>, index: nat, c: seq<Data>)
    requires index < |s| == |c| && c[0] == s[index]
    requires forall k | 0 < k <= index :: c[k] == s[k - 1]
    requires forall k | index < k < |c| :: c[k] == s[k]
    ensures c == ToFront(s, index)
  {
    assert c[1..index + 1] == s[..index] && c[index + 1..] == s[index + 1..];
    assert c == [c[0]] + c[1..index + 1] + c[index + 1..];
  }

  lemma {:induction false} ClosedUp(s: seq<Data>, index: nat, c: seq<Data>)
    requires index < |s| == |c| + 1
    requires forall k | 0 <= k < index :: c[k] == s[k]
    requires forall k | index <= k < |c| :: c[k] == s[Next(k)]
    ensures c == Without(s, index)
  {
    assert c[..index] == s[..index] && c[index..] == s[index + 1..];
  }

  lemma {:induction false} FoundAt(s: seq<Data>, x: Data, k: nat, n: nat)
    requires k < n <= |s| && x != NULL && s[k] == x && FindData(s, x, k) == -1
    ensures FindData(s, x, n) == k
    decreases n
  {
    if k < n - 1 {
      FoundAt(s, x, k, n - 1);
    }
  }
}
