/**
 The routing table of the distributed hash table: four places for each number of address bits that a
 peer shares with this node, and a list of addresses to ping.
 */
module Routing {
  import opened Base

  const ADDRESS_BITS := 64
  const PEERS_PER_BIT := 4
  const MAX_PEERS := 256
  const MAX_PINGS := 128

  type Dest = s: seq<bool> | |s| == ADDRESS_BITS witness seq(ADDRESS_BITS, _ => false)

  /** An addr_info; one with no bits is an unused entry. */
  datatype Addr = Addr(dest: Dest, version: nat, ip: seq<Byte>, port: nat, nbits: nat, dht: bool)

  /** An entry.  `age` is history only: the number of expiries since the address was last added. */
  datatype Entry = Entry(ai: Addr, refreshed: bool, age: nat)

  predicate Live(e: Entry) {
    e.ai.nbits > 0
  }

  function Deleted(e: Entry): (e': Entry) {
    e.(ai := e.ai.(nbits := 0))
  }

  /** The addresses that may not be in the table twice. */
  predicate Same(a: Addr, b: Addr) {
    a.dest == b.dest && a.version == b.version
  }

  // ---------------------------------------------------------------------------
  // Searches
  // ---------------------------------------------------------------------------

  /** matching_bits, from bit `i` on: the first bit in which two addresses differ, or 64. */
  function MatchFrom(a: Dest, b: Dest, i: nat): (n: nat)
    requires i <= ADDRESS_BITS
    ensures i <= n <= ADDRESS_BITS && a[i..n] == b[i..n]
    ensures n < ADDRESS_BITS ==> a[n] != b[n]
    decreases ADDRESS_BITS - i
  {
    if i == ADDRESS_BITS || a[i] != b[i] then i else MatchFrom(a, b, i + 1)
  }

  function Matching(a: Dest, b: Dest): (n: nat)
    ensures n <= ADDRESS_BITS && (n == ADDRESS_BITS <==> a == b)
  {
    MatchFrom(a, b, 0)
  }

  /** find_peer on the places from `lo` to `hi`: the first live entry that is the same, or -1. */
  function FindPeer(t: seq<Entry>, lo: nat, hi: nat, a: Addr): (i: int)
    requires lo <= hi <= |t|
    ensures i == -1 || (lo <= i < hi && Live(t[i]) && Same(t[i].ai, a))
    ensures i == -1 ==> forall k | lo <= k < hi :: !(Live(t[k]) && Same(t[k].ai, a))
    decreases hi - lo
  {
    if lo == hi then -1
    else if Live(t[lo]) && Same(t[lo].ai, a) then lo
    else FindPeer(t, lo + 1, hi, a)
  }

  /** find_ip */
  function FindIp(t: seq<Entry>, lo: nat, a: Addr): (i: int)
    requires lo <= |t|
    ensures i == -1 || (lo <= i < |t| && Live(t[i]) && t[i].ai.ip == a.ip)
    ensures i == -1 ==> forall k | lo <= k < |t| :: !(Live(t[k]) && t[k].ai.ip == a.ip)
    decreases |t| - lo
  {
    if lo == |t| then -1
    else if Live(t[lo]) && t[lo].ai.ip == a.ip then lo
    else FindIp(t, lo + 1, a)
  }

  /** find_ping: the first live entry with the destination, whatever its IP version. */
  function FindPing(q: seq<Entry>, lo: nat, a: Addr): (i: int)
    requires lo <= |q|
    ensures i == -1 || (lo <= i < |q| && Live(q[i]) && q[i].ai.dest == a.dest)
    ensures i == -1 ==> forall k | lo <= k < |q| :: !(Live(q[k]) && q[k].ai.dest == a.dest)
    ensures i != -1 ==> forall k | lo <= k < i :: !(Live(q[k]) && q[k].ai.dest == a.dest)
    decreases |q| - lo
  {
    if lo == |q| then -1
    else if Live(q[lo]) && q[lo].ai.dest == a.dest then lo
    else FindPing(q, lo + 1, a)
  }

  // ---------------------------------------------------------------------------
  // The operations
  // ---------------------------------------------------------------------------

  /** Where the entry at `k` was before the entries from `first` were moved back by one place to `last`. */
  function From(first: nat, last: nat, k: nat): (j: int) {
    if first < k <= last then k - 1 else k
  }

  /** Put an entry at `first` and move those from there back by one place, up to and over `last`. */
  function Insert(t: seq<Entry>, first: nat, last: nat, e: Entry): (t': seq<Entry>)
    requires first <= last < |t|
    ensures |t'| == |t|
  {
    seq(|t|, k requires 0 <= k < |t| => if k == first then e else t[From(first, last, k)])
  }

  /** delete_ping */
  function DeletePing(q: seq<Entry>, a: Addr): (q': seq<Entry>)
    ensures |q'| == |q|
  {
    seq(|q|, k requires 0 <= k < |q| => if Live(q[k]) && q[k].ai.dest == a.dest then Deleted(q[k]) else q[k])
  }

  datatype Table = Table(peers: seq<Entry>, pings: seq<Entry>)

  predicate Sized(s: Table) {
    |s.peers| == MAX_PEERS && |s.pings| == MAX_PINGS
  }

  /** Only full addresses of the right type go into the table. */
  predicate Addable(a: Addr) {
    a.nbits == ADDRESS_BITS && a.dht
  }

  function Bucket(my: Dest, a: Addr): (index: nat) {
    Matching(a.dest, my) * PEERS_PER_BIT
  }

  /** The bucket is inside the table for every address but the node's own. */
  lemma {:induction false} BucketFitsIff(my: Dest, a: Addr)
    ensures Bucket(my, a) + PEERS_PER_BIT <= MAX_PEERS <==> a.dest != my
  {
  }

  /** routing_add_dht for an address other than the node's own: the new state and the result. */
  function AddDht(my: Dest, s: Table, a: Addr): (r: (Table, int))
    requires Sized(s) && (Addable(a) ==> a.dest != my)
    ensures Sized(r.0)
  {
    if !Addable(a) then (s, -1)
    else
      BucketFitsIff(my, a);
      var index := Bucket(my, a);
      var found := FindPeer(s.peers, index, index + PEERS_PER_BIT, a);
      if found >= 0 then (s.(peers := Insert(s.peers, index, found, Entry(a, true, 0))), 0)
      else
        var ip := FindIp(s.peers, 0, a);
        var peers := if ip >= 0 then s.peers[ip := Deleted(s.peers[ip])] else s.peers;
        (Table(Insert(peers, index, index + PEERS_PER_BIT - 1, Entry(a, true, 0)), DeletePing(s.pings, a)), 1)
  }

  /** routing_add_ping_locked */
  function AddPing(s: Table, a: Addr): (r: (Table, int))
    requires Sized(s)
    ensures Sized(r.0) && r.0.peers == s.peers
  {
    if FindPeer(s.peers, 0, MAX_PEERS, a) >= 0 || FindIp(s.peers, 0, a) >= 0 then (s, -1)
    else
      var n := FindPing(s.pings, 0, a);
      (s.(pings := Insert(s.pings, 0, if n == -1 then MAX_PINGS - 1 else n, Entry(a, true, 0))), if n == -1 then 1 else 0)
  }

  /** The first loop of routing_expire_dht. */
  function ExpirePings(q: seq<Entry>): (q': seq<Entry>)
    ensures |q'| == |q|
  {
    seq(|q|, k requires 0 <= k < |q| =>
      var e := if Live(q[k]) && !q[k].refreshed then Deleted(q[k]) else q[k];
      e.(refreshed := false, age := e.age + 1))
  }

  /** One turn of the second loop: an entry that was not refreshed is deleted and put up for pinging. */
  function ExpirePeer(s: Table, i: nat): (s': Table)
    requires Sized(s) && i < MAX_PEERS
    ensures Sized(s')
  {
    var e := s.peers[i];
    if Live(e) && !e.refreshed then
      AddPing(s.(peers := s.peers[i := Deleted(e).(refreshed := false, age := e.age + 1)]), e.ai).0
    else
      s.(peers := s.peers[i := e.(refreshed := false, age := e.age + 1)])
  }

  /** The first `n` turns of the second loop. */
  function ExpirePeers(s: Table, n: nat): (s': Table)
    requires Sized(s) && n <= MAX_PEERS
    ensures Sized(s')
  {
    if n == 0 then s else ExpirePeer(ExpirePeers(s, n - 1), n - 1)
  }

  /** routing_expire_dht */
  function Expire(s: Table): (s': Table)
    requires Sized(s)
    ensures Sized(s')
  {
    ExpirePeers(s.(pings := ExpirePings(s.pings)), MAX_PEERS)
  }

  // ---------------------------------------------------------------------------
  // The invariant
  // ---------------------------------------------------------------------------

  /** A live entry is in the row of the number of bits that it shares with this node. */
  predicate InRow(my: Dest, t: seq<Entry>, i: nat)
    requires i < |t|
  {
    Live(t[i]) ==> Addable(t[i].ai) && Matching(t[i].ai.dest, my) == i / PEERS_PER_BIT
  }

  predicate Clash(t: seq<Entry>, i: nat, j: nat)
    requires i < |t| && j < |t|
  {
    i != j && Live(t[i]) && Live(t[j]) && Same(t[i].ai, t[j].ai)
  }

  predicate AlsoPinged(s: Table, i: nat, j: nat)
    requires i < |s.peers| && j < |s.pings|
  {
    Live(s.peers[i]) && Live(s.pings[j]) && Same(s.peers[i].ai, s.pings[j].ai)
  }

  predicate PingedTwice(q: seq<Entry>, i: nat, j: nat)
    requires i < |q| && j < |q|
  {
    i != j && Live(q[i]) && Live(q[j]) && q[i].ai.dest == q[j].ai.dest
  }

  /** An entry counts as refreshed until the first expiry after it was added. */
  ghost predicate AgesOk(t: seq<Entry>) {
    forall i | 0 <= i < |t| && Live(t[i]) :: t[i].refreshed <==> t[i].age == 0
  }

  ghost predicate TableOk(my: Dest, s: Table) {
    && Sized(s)
    && (forall i | 0 <= i < MAX_PEERS :: InRow(my, s.peers, i))
    && (forall i, j | 0 <= i < MAX_PEERS && 0 <= j < MAX_PEERS :: !Clash(s.peers, i, j))
    && (forall i, j | 0 <= i < MAX_PEERS && 0 <= j < MAX_PINGS :: !AlsoPinged(s, i, j))
    && (forall i, j | 0 <= i < MAX_PINGS && 0 <= j < MAX_PINGS :: !PingedTwice(s.pings, i, j))
    && AgesOk(s.peers) && AgesOk(s.pings)
  }

  // ---------------------------------------------------------------------------
  // Every operation keeps it
  // ---------------------------------------------------------------------------

  ghost predicate RowsOk(my: Dest, t: seq<Entry>) {
    forall i | 0 <= i < |t| :: InRow(my, t, i)
  }

  ghost predicate Unique(t: seq<Entry>) {
    forall i, j | 0 <= i < |t| && 0 <= j < |t| :: !Clash(t, i, j)
  }

  ghost predicate Apart(s: Table) {
    forall i, j | 0 <= i < |s.peers| && 0 <= j < |s.pings| :: !AlsoPinged(s, i, j)
  }

  ghost predicate PingsOk(q: seq<Entry>) {
    forall i, j | 0 <= i < |q| && 0 <= j < |q| :: !PingedTwice(q, i, j)
  }

  lemma {:induction false} TableOkIs(my: Dest, s: Table)
    ensures TableOk(my, s) <==>
              Sized(s) && RowsOk(my, s.peers) && Unique(s.peers) && Apart(s) && PingsOk(s.pings) && AgesOk(s.peers) && AgesOk(s.pings)
  {
    hide InRow, Clash, AlsoPinged, PingedTwice;
  }

  /** The entry, if live, is one of another table. */
  predicate Kept(e: Entry, e0: Entry) {
    Live(e) ==> Live(e0) && e.ai == e0.ai
  }

  /** The table has the entries of another one in their places, or less. */
  ghost predicate Fewer(t: seq<Entry>, t0: seq<Entry>) {
    |t| == |t0| && forall i | 0 <= i < |t| :: Kept(t[i], t0[i])
  }

  lemma {:induction false} FewerOk(my: Dest, t: seq<Entry>, t0: seq<Entry>)
    requires Fewer(t, t0) && RowsOk(my, t0) && Unique(t0)
    ensures RowsOk(my, t) && Unique(t)
  {
    forall i | 0 <= i < |t| ensures InRow(my, t, i) {
      assert InRow(my, t0, i) && Kept(t[i], t0[i]);
    }
    forall i, j | 0 <= i < |t| && 0 <= j < |t| ensures !Clash(t, i, j) {
      assert !Clash(t0, i, j) && Kept(t[i], t0[i]) && Kept(t[j], t0[j]);
    }
  }

  lemma {:induction false} FewerApart(s: Table, s0: Table)
    requires Fewer(s.peers, s0.peers) && Fewer(s.pings, s0.pings) && Apart(s0)
    ensures Apart(s)
  {
    forall i, j | 0 <= i < |s.peers| && 0 <= j < |s.pings| ensures !AlsoPinged(s, i, j) {
      assert !AlsoPinged(s0, i, j) && Kept(s.peers[i], s0.peers[i]) && Kept(s.pings[j], s0.pings[j]);
    }
  }

  lemma {:induction false} FewerPings(q: seq<Entry>, q0: seq<Entry>)
    requires Fewer(q, q0) && PingsOk(q0)
    ensures PingsOk(q)
  {
    forall i, j | 0 <= i < |q| && 0 <= j < |q| ensures !PingedTwice(q, i, j) {
      assert !PingedTwice(q0, i, j) && Kept(q[i], q0[i]) && Kept(q[j], q0[j]);
    }
  }

  /** No live entry, except perhaps the one that is overwritten, is the same address. */
  ghost predicate NotElsewhere(t: seq<Entry>, last: nat, a: Addr) {
    forall k | 0 <= k < |t| && k != last :: !(Live(t[k]) && Same(t[k].ai, a))
  }

  lemma {:induction false} InsertOk(my: Dest, t: seq<Entry>, first: nat, last: nat, e: Entry)
    requires RowsOk(my, t) && Unique(t) && first <= last < first + PEERS_PER_BIT && last < |t|
    requires first == Matching(e.ai.dest, my) * PEERS_PER_BIT && Addable(e.ai) && NotElsewhere(t, last, e.ai)
    ensures RowsOk(my, Insert(t, first, last, e)) && Unique(Insert(t, first, last, e))
  {
    hide Matching;
    var t' := Insert(t, first, last, e);
    forall i | 0 <= i < |t'| ensures InRow(my, t', i) {
      if i != first {
        assert InRow(my, t, From(first, last, i)) && From(first, last, i) / PEERS_PER_BIT == i / PEERS_PER_BIT;
      }
    }
    forall i, j | 0 <= i < |t'| && 0 <= j < |t'| ensures !Clash(t', i, j) {
      var i0, j0 := From(first, last, i), From(first, last, j);
      if i != first && j != first {
        assert !Clash(t, i0, j0);
      } else if i != j {
        assert i == first ==> j0 != last && !(Live(t[j0]) && Same(t[j0].ai, e.ai));
        assert j == first ==> i0 != last && !(Live(t[i0]) && Same(t[i0].ai, e.ai));
      }
    }
  }

  /** In a table in order a peer can only be in its own bucket, so that searching these four places is as
      good as searching the whole table. */
  lemma {:induction false} BucketSearchIsWhole(my: Dest, s: Table, a: Addr)
    requires TableOk(my, s) && a.dest != my
    ensures Bucket(my, a) + PEERS_PER_BIT <= MAX_PEERS
    ensures FindPeer(s.peers, Bucket(my, a), Bucket(my, a) + PEERS_PER_BIT, a) == FindPeer(s.peers, 0, MAX_PEERS, a)
  {
    hide FindPeer, Matching;
    BucketFitsIff(my, a);
    var index := Bucket(my, a);
    var i, j := FindPeer(s.peers, index, index + PEERS_PER_BIT, a), FindPeer(s.peers, 0, MAX_PEERS, a);
    if j >= 0 {
      assert InRow(my, s.peers, j);
      assert index <= j < index + PEERS_PER_BIT;
      assert i >= 0 ==> !Clash(s.peers, i, j);
    }
  }

  lemma {:induction false} AddDhtOk(my: Dest, s: Table, a: Addr)
    requires TableOk(my, s) && (Addable(a) ==> a.dest != my)
    ensures TableOk(my, AddDht(my, s, a).0)
    ensures Addable(a) ==> AddDht(my, s, a).0.peers[Bucket(my, a)] == Entry(a, true, 0)
    ensures AddDht(my, s, a).1 == 0 <==> Addable(a) && FindPeer(s.peers, 0, MAX_PEERS, a) >= 0
  {
    hide FindPeer, FindIp, Matching, TableOk, Insert, DeletePing;
    TableOkIs(my, s);
    if Addable(a) {
      BucketFitsIff(my, a);
      BucketSearchIsWhole(my, s, a);
      var index := Bucket(my, a);
      var found := FindPeer(s.peers, index, index + PEERS_PER_BIT, a);
      var ip := FindIp(s.peers, 0, a);
      var peers := if found < 0 && ip >= 0 then s.peers[ip := Deleted(s.peers[ip])] else s.peers;
      var last := if found >= 0 then found else index + PEERS_PER_BIT - 1;
      var s' := AddDht(my, s, a).0;
      assert Fewer(peers, s.peers);
      FewerOk(my, peers, s.peers);
      FoundIsOnly(s.peers, peers, a, found, last);
      InsertOk(my, peers, index, last, Entry(a, true, 0));
      InsertAges(peers, index, last, Entry(a, true, 0));
      InsertFirst(peers, index, last, Entry(a, true, 0));
      DeletePingOk(s.pings, a);
      InsertApart(s, s', peers, index, last, a, found);
      TableOkIs(my, s');
    }
  }

  lemma {:induction false} InsertFirst(t: seq<Entry>, first: nat, last: nat, e: Entry)
    requires first <= last < |t|
    ensures Insert(t, first, last, e)[first] == e
  {
  }

  lemma {:induction false} FoundIsOnly(t: seq<Entry>, t': seq<Entry>, a: Addr, found: int, last: nat)
    requires |t| == MAX_PEERS && Unique(t) && Fewer(t', t)
    requires found >= 0 ==> found == last < |t| && Live(t[found]) && Same(t[found].ai, a)
    requires found < 0 ==> FindPeer(t, 0, MAX_PEERS, a) == -1
    ensures NotElsewhere(t', last, a)
  {
    hide FindPeer;
    forall k | 0 <= k < |t'| && k != last ensures !(Live(t'[k]) && Same(t'[k].ai, a)) {
      assert Kept(t'[k], t[k]);
      assert found >= 0 ==> !Clash(t, k, found);
    }
  }

  lemma {:induction false} InsertAges(t: seq<Entry>, first: nat, last: nat, e: Entry)
    requires AgesOk(t) && first <= last < |t| && (e.refreshed <==> e.age == 0)
    ensures AgesOk(Insert(t, first, last, e))
  {
  }

  lemma {:induction false} DeletePingOk(q: seq<Entry>, a: Addr)
    requires PingsOk(q) && AgesOk(q)
    ensures PingsOk(DeletePing(q, a)) && AgesOk(DeletePing(q, a)) && Fewer(DeletePing(q, a), q)
    ensures forall k | 0 <= k < |q| :: !(Live(DeletePing(q, a)[k]) && DeletePing(q, a)[k].ai.dest == a.dest)
  {
    assert Fewer(DeletePing(q, a), q);
    FewerPings(DeletePing(q, a), q);
  }

  lemma {:induction false} InsertApart(s: Table, s': Table, t: seq<Entry>, first: nat, last: nat, a: Addr, found: int)
    requires Apart(s) && Fewer(t, s.peers) && first <= last < |t|
    requires s'.peers == Insert(t, first, last, Entry(a, true, 0)) && Fewer(s'.pings, s.pings)
    requires found >= 0 ==> found < |s.peers| && Live(s.peers[found]) && Same(s.peers[found].ai, a)
    requires found < 0 ==> forall k | 0 <= k < |s'.pings| :: !(Live(s'.pings[k]) && s'.pings[k].ai.dest == a.dest)
    ensures Apart(s')
  {
    forall i, j | 0 <= i < |s'.peers| && 0 <= j < |s'.pings| ensures !AlsoPinged(s', i, j) {
      assert Kept(s'.pings[j], s.pings[j]);
      if i == first {
        assert found >= 0 ==> !AlsoPinged(s, found, j);
      } else {
        var i0 := From(first, last, i);
        assert Kept(t[i0], s.peers[i0]) && !AlsoPinged(s, i0, j);
      }
    }
  }

  lemma {:induction false} AddPingOk(my: Dest, s: Table, a: Addr)
    requires TableOk(my, s)
    ensures TableOk(my, AddPing(s, a).0)
    ensures AddPing(s, a).1 >= 0 ==> AddPing(s, a).0.pings[0] == Entry(a, true, 0)
  {
    hide FindPeer, FindIp, FindPing, TableOk, Insert;
    TableOkIs(my, s);
    if FindPeer(s.peers, 0, MAX_PEERS, a) < 0 && FindIp(s.peers, 0, a) < 0 {
      var n := FindPing(s.pings, 0, a);
      var last := if n == -1 then MAX_PINGS - 1 else n;
      InsertAges(s.pings, 0, last, Entry(a, true, 0));
      InsertFirst(s.pings, 0, last, Entry(a, true, 0));
      InsertPing(s, n, last, a);
      TableOkIs(my, AddPing(s, a).0);
    }
  }

  lemma {:induction false} InsertPing(s: Table, n: int, last: nat, a: Addr)
    requires Sized(s) && Apart(s) && PingsOk(s.pings) && FindPeer(s.peers, 0, MAX_PEERS, a) == -1
    requires n == FindPing(s.pings, 0, a) && last == if n == -1 then MAX_PINGS - 1 else n
    ensures PingsOk(Insert(s.pings, 0, last, Entry(a, true, 0)))
    ensures Apart(s.(pings := Insert(s.pings, 0, last, Entry(a, true, 0))))
  {
    hide FindPeer, FindPing;
    var q, s' := s.pings, s.(pings := Insert(s.pings, 0, last, Entry(a, true, 0)));
    forall i, j | 0 <= i < |s'.pings| && 0 <= j < |s'.pings| ensures !PingedTwice(s'.pings, i, j) {
      var i0, j0 := From(0, last, i), From(0, last, j);
      if i != 0 && j != 0 {
        assert !PingedTwice(q, i0, j0);
      } else if i != j {
        assert i == 0 && n >= 0 ==> j0 != n && !PingedTwice(q, n, j0);
        assert j == 0 && n >= 0 ==> i0 != n && !PingedTwice(q, i0, n);
      }
    }
    forall i, j | 0 <= i < |s'.peers| && 0 <= j < |s'.pings| ensures !AlsoPinged(s', i, j) {
      if j != 0 {
        assert !AlsoPinged(s, i, From(0, last, j));
      }
    }
  }

  /** The table at one turn of the second loop, before the entry is put up for pinging. */
  function Aged(s: Table, i: nat): (s': Table)
    requires Sized(s) && i < MAX_PEERS
    ensures Sized(s')
  {
    var e := s.peers[i];
    var d := if Live(e) && !e.refreshed then Deleted(e) else e;
    s.(peers := s.peers[i := d.(refreshed := false, age := e.age + 1)])
  }

  lemma {:induction false} AgedOk(my: Dest, s: Table, i: nat)
    requires TableOk(my, s) && i < MAX_PEERS
    ensures TableOk(my, Aged(s, i))
  {
    hide TableOk;
    TableOkIs(my, s);
    var s' := Aged(s, i);
    assert Fewer(s'.peers, s.peers) && Fewer(s.pings, s.pings);
    FewerOk(my, s'.peers, s.peers);
    FewerApart(s', s);
    TableOkIs(my, s');
  }

  lemma {:induction false} ExpirePeerOk(my: Dest, s: Table, i: nat)
    requires TableOk(my, s) && i < MAX_PEERS
    ensures TableOk(my, ExpirePeer(s, i)) && ExpirePeer(s, i).peers == Aged(s, i).peers
  {
    hide TableOk, AddPing;
    TableOkIs(my, s);
    AgedOk(my, s, i);
    AddPingOk(my, Aged(s, i), s.peers[i].ai);
  }

  lemma {:induction false} ExpirePingsOk(my: Dest, s: Table)
    requires TableOk(my, s)
    ensures TableOk(my, s.(pings := ExpirePings(s.pings)))
  {
    hide TableOk;
    TableOkIs(my, s);
    var s' := s.(pings := ExpirePings(s.pings));
    assert Fewer(s'.pings, s.pings) && Fewer(s.peers, s.peers);
    FewerPings(s'.pings, s.pings);
    FewerApart(s', s);
    TableOkIs(my, s');
  }

  /** What an expiry does to the entry of a peer. */
  function Older(e: Entry): (e': Entry) {
    var d := if Live(e) && !e.refreshed then Deleted(e) else e;
    d.(refreshed := false, age := e.age + 1)
  }

  lemma {:induction false} ExpirePeersOk(my: Dest, s: Table, n: nat)
    requires TableOk(my, s) && n <= MAX_PEERS
    ensures TableOk(my, ExpirePeers(s, n))
    ensures forall i | 0 <= i < MAX_PEERS :: ExpirePeers(s, n).peers[i] == if i < n then Older(s.peers[i]) else s.peers[i]
    decreases n
  {
    hide TableOk, ExpirePeer;
    TableOkIs(my, s);
    if n > 0 {
      ExpirePeersOk(my, s, n - 1);
      ExpirePeerOk(my, ExpirePeers(s, n - 1), n - 1);
    }
  }

  /** An expiry removes exactly the peers that have not been added since the one before. */
  lemma {:induction false} ExpireOk(my: Dest, s: Table, i: nat)
    requires TableOk(my, s) && i < MAX_PEERS
    ensures TableOk(my, Expire(s))
    ensures Expire(s).peers[i] == Older(s.peers[i])
    ensures Live(Expire(s).peers[i]) <==> Live(s.peers[i]) && s.peers[i].age == 0
  {
    hide TableOk, ExpirePeers, ExpirePings;
    ExpirePingsOk(my, s);
    ExpirePeersOk(my, s.(pings := ExpirePings(s.pings)), MAX_PEERS);
    TableOkIs(my, s);
  }

  // ---------------------------------------------------------------------------
  // Runs
  // ---------------------------------------------------------------------------

  datatype Event = AddEvent(a: Addr) | PingEvent(a: Addr) | ExpireEvent

  /** The node's own address is never added: the program would write behind the table. */
  predicate Allowed(my: Dest, ev: Event) {
    ev.AddEvent? && Addable(ev.a) ==> ev.a.dest != my
  }

  function Step(my: Dest, s: Table, ev: Event): (s': Table)
    requires Sized(s) && Allowed(my, ev)
    ensures Sized(s')
  {
    match ev
    case AddEvent(a) => AddDht(my, s, a).0
    case PingEvent(a) => AddPing(s, a).0
    case ExpireEvent => Expire(s)
  }

  /** An entry of the cleared table; what is in its unused parts does not matter. */
  function Unused(d: Dest): (e: Entry) {
    Entry(Addr(d, 0, [], 0, 0, false), false, 0)
  }

  function Empty(d: Dest): (s: Table)
    ensures Sized(s)
  {
    Table(seq(MAX_PEERS, _ => Unused(d)), seq(MAX_PINGS, _ => Unused(d)))
  }

  lemma {:induction false} EmptyOk(my: Dest)
    ensures TableOk(my, Empty(my))
  {
  }

  function After(my: Dest, evs: seq<Event>, k: nat): (s: Table)
    requires k <= |evs| && forall ev | ev in evs :: Allowed(my, ev)
    ensures Sized(s)
  {
    if k == 0 then Empty(my) else Step(my, After(my, evs, k - 1), evs[k - 1])
  }

  lemma {:induction false} StepOk(my: Dest, s: Table, ev: Event)
    requires TableOk(my, s) && Allowed(my, ev)
    ensures TableOk(my, Step(my, s, ev))
  {
    hide TableOk, AddDht, AddPing, Expire;
    match ev
    case AddEvent(a) => AddDhtOk(my, s, a);
    case PingEvent(a) => AddPingOk(my, s, a);
    case ExpireEvent => ExpireOk(my, s, 0);
  }

  /** In every run from the empty table, after every operation: each live peer is in its row, no address
      is there twice or also in the ping list, and no destination is pinged twice. */
  lemma {:induction false} RunOk(my: Dest, evs: seq<Event>, k: nat)
    requires k <= |evs| && forall ev | ev in evs :: Allowed(my, ev)
    ensures TableOk(my, After(my, evs, k))
    decreases k
  {
    hide TableOk, Step, Empty;
    if k == 0 {
      EmptyOk(my);
    } else {
      RunOk(my, evs, k - 1);
      StepOk(my, After(my, evs, k - 1), evs[k - 1]);
    }
  }

  /** The expiries among the events from `j` up to `k`. */
  function Expiries(evs: seq<Event>, j: nat, k: nat): (n: nat)
    requires j <= k <= |evs|
  {
    if j == k then 0 else Expiries(evs, j, k - 1) + if evs[k - 1].ExpireEvent? then 1 else 0
  }

  predicate Refreshes(ev: Event, a: Addr) {
    ev.AddEvent? && Addable(ev.a) && Same(ev.a, a)
  }

  /** The address was last added by event `j`. */
  ghost predicate LastAdded(evs: seq<Event>, j: nat, k: nat, a: Addr) {
    && j < k <= |evs| && evs[j] == AddEvent(a)
    && forall l | j < l < k :: !Refreshes(evs[l], a)
  }

  ghost predicate AddedAgo(evs: seq<Event>, k: nat, a: Addr, n: nat) {
    exists j: nat :: LastAdded(evs, j, k, a) && Expiries(evs, j + 1, k) == n
  }

  lemma {:induction false} AddedAgoNext(evs: seq<Event>, k: nat, a: Addr, n: nat)
    requires k < |evs| && AddedAgo(evs, k, a, n) && !Refreshes(evs[k], a)
    ensures AddedAgo(evs, k + 1, a, n + if evs[k].ExpireEvent? then 1 else 0)
  {
    var j: nat :| LastAdded(evs, j, k, a) && Expiries(evs, j + 1, k) == n;
    assert LastAdded(evs, j, k + 1, a);
  }

  /** Where an entry of the table after an addition comes from. */
  lemma {:induction false} AddSource(my: Dest, s: Table, a: Addr, i: nat)
    requires Sized(s) && (Addable(a) ==> a.dest != my) && i < MAX_PEERS && Live(AddDht(my, s, a).0.peers[i])
    ensures var e := AddDht(my, s, a).0.peers[i];
            (Addable(a) && i == Bucket(my, a) && e == Entry(a, true, 0)) || exists k | 0 <= k < MAX_PEERS :: s.peers[k] == e
  {
    hide FindPeer, FindIp, Matching;
    if Addable(a) {
      BucketFitsIff(my, a);
      var index := Bucket(my, a);
      var found := FindPeer(s.peers, index, index + PEERS_PER_BIT, a);
      var ip := FindIp(s.peers, 0, a);
      var last := if found >= 0 then found else index + PEERS_PER_BIT - 1;
      if i != index {
        var k := From(index, last, i);
        assert s.peers[k] == AddDht(my, s, a).0.peers[i];
      }
    }
  }

  /** In every run: a peer's age is the number of expiries since its address was last added. */
  lemma {:induction false} AgeIsExpiries(my: Dest, evs: seq<Event>, k: nat, i: nat)
    requires k <= |evs| && (forall ev | ev in evs :: Allowed(my, ev)) && i < MAX_PEERS
    requires Live(After(my, evs, k).peers[i])
    ensures AddedAgo(evs, k, After(my, evs, k).peers[i].ai, After(my, evs, k).peers[i].age)
    decreases k
  {
    hide TableOk, AddDht, AddPing, Expire, AddedAgo, Same;
    RunOk(my, evs, k);
    if k > 0 {
      var s, s' := After(my, evs, k - 1), After(my, evs, k);
      RunOk(my, evs, k - 1);
      match evs[k - 1]
      case PingEvent(_) =>
        AgeIsExpiries(my, evs, k - 1, i);
        AddedAgoNext(evs, k - 1, s.peers[i].ai, s.peers[i].age);
      case ExpireEvent =>
        ExpireOk(my, s, i);
        AgeIsExpiries(my, evs, k - 1, i);
        AddedAgoNext(evs, k - 1, s.peers[i].ai, s.peers[i].age);
      case AddEvent(a) =>
        assert Allowed(my, evs[k - 1]);
        AddSource(my, s, a, i);
        AddDhtOk(my, s, a);
        var e := s'.peers[i];
        if Addable(a) && i == Bucket(my, a) {
          JustAdded(evs, k, a);
        } else {
          var h :| 0 <= h < MAX_PEERS && s.peers[h] == e;
          AgeIsExpiries(my, evs, k - 1, h);
          NotRefreshed(my, s, a, i);
          AddedAgoNext(evs, k - 1, e.ai, e.age);
        }
    }
  }

  lemma {:induction false} JustAdded(evs: seq<Event>, k: nat, a: Addr)
    requires 0 < k <= |evs| && evs[k - 1] == AddEvent(a)
    ensures AddedAgo(evs, k, a, 0)
  {
    assert LastAdded(evs, k - 1, k, a) && Expiries(evs, k - 1 + 1, k) == 0;
  }

  lemma {:induction false} NotRefreshed(my: Dest, s: Table, a: Addr, i: nat)
    requires TableOk(my, s) && (Addable(a) ==> a.dest != my) && i < MAX_PEERS
    requires Live(AddDht(my, s, a).0.peers[i]) && (Addable(a) ==> i != Bucket(my, a))
    ensures !Refreshes(AddEvent(a), AddDht(my, s, a).0.peers[i].ai)
  {
    hide AddDht, Matching;
    AddDhtOk(my, s, a);
    if Addable(a) {
      BucketFitsIff(my, a);
      assert !Clash(AddDht(my, s, a).0.peers, Bucket(my, a), i);
    }
  }

  /** A peer leaves the table in an expiry only when there was another one since it was last added. */
  lemma {:induction false} LeavesAfterTwoExpiries(my: Dest, evs: seq<Event>, k: nat, i: nat)
    requires k < |evs| && (forall ev | ev in evs :: Allowed(my, ev)) && i < MAX_PEERS && evs[k].ExpireEvent?
    requires var s := After(my, evs, k); Live(s.peers[i]) && !Live(After(my, evs, k + 1).peers[i])
    ensures exists j: nat :: LastAdded(evs, j, k, After(my, evs, k).peers[i].ai) && Expiries(evs, j + 1, k + 1) >= 2
  {
    hide TableOk, Expire;
    var s := After(my, evs, k);
    RunOk(my, evs, k);
    ExpireOk(my, s, i);
    AgeIsExpiries(my, evs, k, i);
    var j: nat :| LastAdded(evs, j, k, s.peers[i].ai) && Expiries(evs, j + 1, k) == s.peers[i].age;
    assert Expiries(evs, j + 1, k + 1) == Expiries(evs, j + 1, k) + 1;
  }

  // ---------------------------------------------------------------------------
  // Internet addresses
  // ---------------------------------------------------------------------------

  predicate SharesIp(t: seq<Entry>, i: nat, j: nat)
    requires i < |t| && j < |t|
  {
    i != j && Live(t[i]) && Live(t[j]) && t[i].ai.ip == t[j].ai.ip
  }

  /** No two live peers have the same internet address, as the comment in routing_add_dht expects. */
  ghost predicate IpsUnique(t: seq<Entry>) {
    forall i, j | 0 <= i < |t| && 0 <= j < |t| :: !SharesIp(t, i, j)
  }

  /** The operation brings a known destination with the internet address of another peer. */
  ghost predicate TakesIp(s: Table, ev: Event)
    requires Sized(s)
  {
    && ev.AddEvent? && Addable(ev.a)
    && var found := FindPeer(s.peers, 0, MAX_PEERS, ev.a);
       found >= 0 && OtherHasIp(s.peers, found, ev.a)
  }

  ghost predicate OtherHasIp(t: seq<Entry>, at: int, a: Addr) {
    exists k :: 0 <= k < |t| && k != at && Live(t[k]) && t[k].ai.ip == a.ip
  }

  lemma {:induction false} InsertIps(t: seq<Entry>, first: nat, last: nat, a: Addr)
    requires IpsUnique(t) && first <= last < |t| && Addable(a)
    ensures IpsUnique(Insert(t, first, last, Entry(a, true, 0))) <==> !OtherHasIp(t, last, a)
  {
    var t' := Insert(t, first, last, Entry(a, true, 0));
    if k :| 0 <= k < |t| && k != last && Live(t[k]) && t[k].ai.ip == a.ip {
      var k' := if first <= k < last then k + 1 else k;
      assert From(first, last, k') == k && t'[k'] == t[k];
      assert SharesIp(t', first, k');
    } else {
      forall i, j | 0 <= i < |t'| && 0 <= j < |t'| ensures !SharesIp(t', i, j) {
        if i != first && j != first {
          assert !SharesIp(t, From(first, last, i), From(first, last, j));
        }
      }
    }
  }

  lemma {:induction false} FewerIps(t: seq<Entry>, t0: seq<Entry>)
    requires Fewer(t, t0) && IpsUnique(t0)
    ensures IpsUnique(t)
  {
    forall i, j | 0 <= i < |t| && 0 <= j < |t| ensures !SharesIp(t, i, j) {
      assert !SharesIp(t0, i, j) && Kept(t[i], t0[i]) && Kept(t[j], t0[j]);
    }
  }

  /** The peer with the address is deleted, and then no other has it. */
  lemma {:induction false} DeletedIp(t: seq<Entry>, a: Addr)
    requires IpsUnique(t)
    ensures var ip := FindIp(t, 0, a);
            var t' := if ip >= 0 then t[ip := Deleted(t[ip])] else t;
            Fewer(t', t) && IpsUnique(t') && forall at :: !OtherHasIp(t', at, a)
  {
    hide FindIp;
    var ip := FindIp(t, 0, a);
    var t' := if ip >= 0 then t[ip := Deleted(t[ip])] else t;
    FewerIps(t', t);
    forall k | 0 <= k < |t| && ip >= 0 ensures !(Live(t'[k]) && t'[k].ai.ip == a.ip) {
      assert !SharesIp(t, k, ip);
    }
  }

  /** One operation on a table in order keeps internet addresses unique if and only if it does not bring a known
      destination with the address of another peer. */
  lemma {:induction false} StepIpsIff(my: Dest, s: Table, ev: Event)
    requires TableOk(my, s) && IpsUnique(s.peers) && Allowed(my, ev)
    ensures IpsUnique(Step(my, s, ev).peers) <==> !TakesIp(s, ev)
  {
    hide TableOk, FindPeer, FindIp, Matching, Insert, DeletePing, IpsUnique, OtherHasIp, Expire;
    TableOkIs(my, s);
    match ev
    case PingEvent(_) =>
    case ExpireEvent =>
      forall i | 0 <= i < MAX_PEERS ensures Kept(Expire(s).peers[i], s.peers[i]) {
        ExpireOk(my, s, i);
      }
      FewerIps(Expire(s).peers, s.peers);
    case AddEvent(a) =>
      if Addable(a) {
        BucketSearchIsWhole(my, s, a);
        var index := Bucket(my, a);
        var found := FindPeer(s.peers, index, index + PEERS_PER_BIT, a);
        if found >= 0 {
          InsertIps(s.peers, index, found, a);
        } else {
          var ip := FindIp(s.peers, 0, a);
          DeletedIp(s.peers, a);
          InsertIps(if ip >= 0 then s.peers[ip := Deleted(s.peers[ip])] else s.peers, index, index + PEERS_PER_BIT - 1, a);
        }
      }
  }

  ghost predicate IpsUniqueUntil(my: Dest, evs: seq<Event>, n: nat)
    requires n <= |evs| && forall ev | ev in evs :: Allowed(my, ev)
  {
    forall k | 0 <= k <= n :: IpsUnique(After(my, evs, k).peers)
  }

  ghost predicate NoneTakesIp(my: Dest, evs: seq<Event>, n: nat)
    requires n <= |evs| && forall ev | ev in evs :: Allowed(my, ev)
  {
    forall k | 0 <= k < n :: !TakesIp(After(my, evs, k), evs[k])
  }

  lemma {:induction false} OneMoreState(my: Dest, evs: seq<Event>, n: nat)
    requires n < |evs| && forall ev | ev in evs :: Allowed(my, ev)
    ensures IpsUniqueUntil(my, evs, n) ==> IpsUnique(After(my, evs, n).peers)
    ensures IpsUniqueUntil(my, evs, n + 1) <==> IpsUniqueUntil(my, evs, n) && IpsUnique(After(my, evs, n + 1).peers)
    ensures NoneTakesIp(my, evs, n + 1) <==> NoneTakesIp(my, evs, n) && !TakesIp(After(my, evs, n), evs[n])
  {
    hide After, IpsUnique, TakesIp;
    if IpsUniqueUntil(my, evs, n) && IpsUnique(After(my, evs, n + 1).peers) {
      forall k | 0 <= k <= n + 1 ensures IpsUnique(After(my, evs, k).peers) {
        assert k <= n || k == n + 1;
      }
    }
  }

  lemma {:induction false} NextState(my: Dest, evs: seq<Event>, n: nat)
    requires n < |evs| && forall ev | ev in evs :: Allowed(my, ev)
    ensures Allowed(my, evs[n]) && After(my, evs, n + 1) == Step(my, After(my, evs, n), evs[n])
  {
    hide Step;
  }

  lemma {:induction false} FirstState(my: Dest, evs: seq<Event>)
    requires forall ev | ev in evs :: Allowed(my, ev)
    ensures IpsUniqueUntil(my, evs, 0) && NoneTakesIp(my, evs, 0)
  {
    hide Empty, IpsUnique;
    EmptyIps(my);
    assert After(my, evs, 0) == Empty(my);
  }

  /** In every run: internet addresses are unique in all states exactly if no operation so far brought a known
      destination with the address of another peer. */
  lemma {:induction false} RunIpsIff(my: Dest, evs: seq<Event>, n: nat)
    requires n <= |evs| && forall ev | ev in evs :: Allowed(my, ev)
    ensures IpsUniqueUntil(my, evs, n) <==> NoneTakesIp(my, evs, n)
    decreases n
  {
    hide *;
    if n == 0 {
      FirstState(my, evs);
    } else {
      RunIpsIff(my, evs, n - 1);
      OneMoreState(my, evs, n - 1);
      NextState(my, evs, n - 1);
      RunOk(my, evs, n - 1);
      if IpsUnique(After(my, evs, n - 1).peers) {
        StepIpsIff(my, After(my, evs, n - 1), evs[n - 1]);
      }
    }
  }

  lemma {:induction false} EmptyIps(my: Dest)
    ensures IpsUnique(Empty(my).peers)
  {
  }

  /** Three additions: two destinations, and then the first one with the internet address of the second. */
  function Moves(x: Dest, y: Dest): (evs: seq<Event>) {
    [AddEvent(At(x, [1])), AddEvent(At(y, [2])), AddEvent(At(x, [2]))]
  }

  function At(d: Dest, ip: seq<Byte>): (a: Addr) {
    Addr(d, 4, ip, 0, ADDRESS_BITS, true)
  }

  /** The table knows neither the address nor its internet address. */
  ghost predicate NewTo(t: seq<Entry>, a: Addr) {
    forall k | 0 <= k < |t| && Live(t[k]) :: !Same(t[k].ai, a) && t[k].ai.ip != a.ip
  }

  lemma {:induction false} AddNew(my: Dest, s: Table, a: Addr)
    requires Sized(s) && Addable(a) && a.dest != my && NewTo(s.peers, a)
    ensures Bucket(my, a) + PEERS_PER_BIT <= MAX_PEERS
    ensures AddDht(my, s, a).0.peers == Insert(s.peers, Bucket(my, a), Bucket(my, a) + PEERS_PER_BIT - 1, Entry(a, true, 0))
  {
    hide FindPeer, FindIp, Matching, Insert;
    BucketFitsIff(my, a);
  }

  lemma {:induction false} FirstTwo(my: Dest, t: seq<Entry>, first: nat, second: nat, a: Entry, b: Entry)
    requires |t| == MAX_PEERS && first % PEERS_PER_BIT == 0 == second % PEERS_PER_BIT
    requires first + PEERS_PER_BIT <= MAX_PEERS && second + PEERS_PER_BIT <= MAX_PEERS
    ensures var t1 := Insert(t, first, first + PEERS_PER_BIT - 1, a);
            var t2 := Insert(t1, second, second + PEERS_PER_BIT - 1, b);
            t2[second] == b && t2[if first == second then first + 1 else first] == a
  {
    if first != second {
      assert first < second ==> first + PEERS_PER_BIT <= second;
      assert From(second, second + PEERS_PER_BIT - 1, first) == first;
    }
  }

  lemma {:induction false} NewToEmpty(my: Dest, a: Addr)
    ensures NewTo(Empty(my).peers, a)
  {
  }

  lemma {:induction false} NewAfter(t: seq<Entry>, first: nat, a: Addr, b: Addr)
    requires first + PEERS_PER_BIT <= |t| && NewTo(t, b) && !Same(a, b) && a.ip != b.ip
    ensures NewTo(Insert(t, first, first + PEERS_PER_BIT - 1, Entry(a, true, 0)), b)
  {
  }

  /** After the second addition both are there. */
  lemma {:induction false} BothThere(my: Dest, x: Dest, y: Dest) returns (i: nat, j: nat)
    requires my != x && my != y && x != y
    ensures forall ev | ev in Moves(x, y) :: Allowed(my, ev)
    ensures var t := After(my, Moves(x, y), 2).peers;
            i < |t| && j < |t| && t[i] == Entry(At(x, [1]), true, 0) && t[j] == Entry(At(y, [2]), true, 0)
  {
    hide AddDht, Matching, Insert, Empty, NewTo;
    var evs, a, b := Moves(x, y), At(x, [1]), At(y, [2]);
    assert forall ev | ev in evs :: ev == evs[0] || ev == evs[1] || ev == evs[2];
    var s0 := After(my, evs, 0);
    var s1 := Step(my, s0, evs[0]);
    assert s1 == After(my, evs, 1) && Step(my, s1, evs[1]) == After(my, evs, 2);
    NewToEmpty(my, a);
    NewToEmpty(my, b);
    AddNew(my, s0, a);
    NewAfter(s0.peers, Bucket(my, a), a, b);
    AddNew(my, s1, b);
    FirstTwo(my, s0.peers, Bucket(my, a), Bucket(my, b), Entry(a, true, 0), Entry(b, true, 0));
    i, j := if Bucket(my, a) == Bucket(my, b) then Bucket(my, a) + 1 else Bucket(my, a), Bucket(my, b);
  }

  /** The run ends with two peers that have the same internet address. */
  lemma {:induction false} MovedTwice(my: Dest, x: Dest, y: Dest)
    requires my != x && my != y && x != y
    ensures forall ev | ev in Moves(x, y) :: Allowed(my, ev)
    ensures !IpsUniqueUntil(my, Moves(x, y), 3)
  {
    hide Step, TableOk, FindPeer, IpsUniqueUntil;
    var i, j := BothThere(my, x, y);
    var evs := Moves(x, y);
    var s := After(my, evs, 2);
    var found := FindPeer(s.peers, 0, MAX_PEERS, At(x, [2]));
    assert Same(s.peers[i].ai, At(x, [2])) && found != j;
    assert TakesIp(s, evs[2]);
    RunIpsIff(my, evs, 3);
  }

  // ---------------------------------------------------------------------------
  // The table as the program keeps it
  // ---------------------------------------------------------------------------

  class RoutingTable {
    const my: Dest
    const peers: array<Entry>
    const pings: array<Entry>

    ghost predicate Valid() {
      peers.Length == MAX_PEERS && pings.Length == MAX_PINGS && peers != pings
    }

    ghost function View(): (s: Table)
      requires Valid()
      reads peers, pings
      ensures Sized(s)
    {
      Table(peers[..], pings[..])
    }

    constructor (my: Dest)
      ensures Valid() && this.my == my && View() == Empty(my) && fresh(peers) && fresh(pings)
    {
      this.my := my;
      peers := new Entry[MAX_PEERS](_ => Unused(my));
      pings := new Entry[MAX_PINGS](_ => Unused(my));
      new;
      assert peers[..] == Empty(my).peers && pings[..] == Empty(my).pings;
    }

    /** find_peer */
    method FindPeerIn(lo: nat, hi: nat, a: Addr) returns (i: int)
      requires Valid() && lo <= hi <= MAX_PEERS
      ensures i == FindPeer(peers[..], lo, hi, a)
    {
      for k := lo to hi
        invariant FindPeer(peers[..], lo, hi, a) == FindPeer(peers[..], k, hi, a)
      {
        if Live(peers[k]) && Same(peers[k].ai, a) {
          return k;
        }
      }
      return -1;
    }

    /** find_ip */
    method FindIpIn(a: Addr) returns (i: int)
      requires Valid()
      ensures i == FindIp(peers[..], 0, a)
    {
      for k := 0 to MAX_PEERS
        invariant FindIp(peers[..], 0, a) == FindIp(peers[..], k, a)
      {
        if Live(peers[k]) && peers[k].ai.ip == a.ip {
          return k;
        }
      }
      return -1;
    }

    /** find_ping */
    method FindPingIn(a: Addr) returns (i: int)
      requires Valid()
      ensures i == FindPing(pings[..], 0, a)
    {
      for k := 0 to MAX_PINGS
        invariant FindPing(pings[..], 0, a) == FindPing(pings[..], k, a)
      {
        if Live(pings[k]) && pings[k].ai.dest == a.dest {
          return k;
        }
      }
      return -1;
    }

    /** Move entries back by one place and put a new one in front, as both lists do. */
    static method InsertInto(t: array<Entry>, first: nat, last: nat, e: Entry)
      requires first <= last < t.Length
      modifies t
      ensures t[..] == Insert(old(t[..]), first, last, e)
    {
      ghost var t0 := t[..];
      var i := last;
      while i > first
        invariant first <= i <= last
        invariant forall k | 0 <= k < t.Length :: t[k] == if i < k <= last then t0[From(first, last, k)] else t0[k]
      {
        t[i] := t[i - 1];
        assert From(first, last, i) == i - 1;
        i := i - 1;
      }
      t[first] := e;
      assert t[..] == Insert(t0, first, last, e);
    }

    /** delete_ping */
    method DeletePingOf(a: Addr)
      requires Valid()
      modifies pings
      ensures pings[..] == DeletePing(old(pings[..]), a)
    {
      for i := 0 to MAX_PINGS
        modifies pings
        invariant forall k | 0 <= k < MAX_PINGS ::
                    pings[k] == if k < i then DeletePing(old(pings[..]), a)[k] else old(pings[..])[k]
      {
        if Live(pings[i]) && pings[i].ai.dest == a.dest {
          pings[i] := Deleted(pings[i]);
        }
      }
    }

    /** routing_add_dht.  Not inside where the program would use the places behind the table. */
    method Add(a: Addr) returns (inside: bool, result: int)
      requires Valid()
      modifies peers, pings
      ensures inside <==> (Addable(a) ==> Bucket(my, a) + PEERS_PER_BIT <= MAX_PEERS)
      ensures inside ==> (Addable(a) ==> a.dest != my) && (View(), result) == AddDht(my, old(View()), a)
    {
      hide FindPeer, FindIp, Matching, Insert, DeletePing;
      if a.nbits > ADDRESS_BITS {
        return true, -1;
      }
      inside, result := true, -1;
      if a.nbits == ADDRESS_BITS && a.dht {
        BucketFitsIff(my, a);
        var index := Matching(a.dest, my) * PEERS_PER_BIT;
        if index + PEERS_PER_BIT > MAX_PEERS {
          return false, -1;
        }
        var found := FindPeerIn(index, index + PEERS_PER_BIT, a);
        var ipIndex := FindIpIn(a);
        if found < 0 && ipIndex >= 0 {
          peers[ipIndex] := Deleted(peers[ipIndex]);
        }
        var last := PEERS_PER_BIT - 1;
        result := 1;
        if found >= 0 {
          result := 0;
          last := found - index;
        }
        InsertInto(peers, index, index + last, Entry(a, true, 0));
        if found < 0 {
          DeletePingOf(a);
        }
      }
    }

    /** routing_add_ping_locked */
    method AddToPings(a: Addr) returns (result: int)
      requires Valid()
      modifies pings
      ensures (View(), result) == AddPing(old(View()), a)
    {
      hide FindPeer, FindIp, FindPing, Insert;
      var p := FindPeerIn(0, MAX_PEERS, a);
      if p >= 0 {
        return -1;
      }
      var ip := FindIpIn(a);
      if ip >= 0 {
        return -1;
      }
      var n := FindPingIn(a);
      InsertInto(pings, 0, if n == -1 then MAX_PINGS - 1 else n, Entry(a, true, 0));
      result := if n == -1 then 1 else 0;
    }

    /** The first loop of routing_expire_dht. */
    method ExpireAllPings()
      requires Valid()
      modifies pings
      ensures pings[..] == ExpirePings(old(pings[..]))
    {
      for i := 0 to MAX_PINGS
        modifies pings
        invariant forall k | 0 <= k < MAX_PINGS ::
                    pings[k] == if k < i then ExpirePings(old(pings[..]))[k] else old(pings[..])[k]
      {
        var e := pings[i];
        if Live(e) && !e.refreshed {
          e := Deleted(e);
        }
        pings[i] := e.(refreshed := false, age := e.age + 1);
      }
    }

    /** routing_expire_dht */
    method ExpireAll()
      requires Valid()
      modifies peers, pings
      ensures View() == Expire(old(View()))
    {
      hide AddPing, ExpirePings;
      ExpireAllPings();
      ghost var s := View();
      for i := 0 to MAX_PEERS
        invariant View() == ExpirePeers(s, i)
      {
        var e := peers[i];
        if Live(e) && !e.refreshed {
          peers[i] := Deleted(e).(refreshed := false, age := e.age + 1);
          var _ := AddToPings(e.ai);
        } else {
          peers[i] := e.(refreshed := false, age := e.age + 1);
        }
      }
    }
  }
}
