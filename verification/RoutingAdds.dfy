/** What an addition does to every place of the routing table and of the ping list. */
module RoutingAdds {
  import opened Routing

  /** The row of an address: it has as many leading bits in common with the node's own. */
  ghost predicate RowOf(my: Dest, d: Dest, row: nat) {
    exists n: nat :: n < ADDRESS_BITS && row == 4 * n && d[..n] == my[..n] && d[n] != my[n]
  }

  lemma {:induction false} BucketIsRow(my: Dest, a: Addr)
    requires a.dest != my
    ensures RowOf(my, a.dest, Bucket(my, a)) && Bucket(my, a) + 4 <= MAX_PEERS
  {
    BucketFitsIff(my, a);
    var n := Matching(a.dest, my);
    assert a.dest[0..n] == a.dest[..n] && my[0..n] == my[..n];
  }

  lemma {:induction false} EqualBelow(d: Dest, my: Dest, n: nat)
    requires n <= ADDRESS_BITS && d[..n] == my[..n]
    ensures forall l | 0 <= l < n :: d[l] == my[l]
  {
    assert forall l | 0 <= l < n :: d[l] == d[..n][l] && my[l] == my[..n][l];
  }

  lemma {:induction false} RowIsUnique(my: Dest, d: Dest, row: nat, row': nat)
    requires RowOf(my, d, row) && RowOf(my, d, row')
    ensures row == row'
  {
    var n: nat :| n < ADDRESS_BITS && row == 4 * n && d[..n] == my[..n] && d[n] != my[n];
    var m: nat :| m < ADDRESS_BITS && row' == 4 * m && d[..m] == my[..m] && d[m] != my[m];
    EqualBelow(d, my, n);
    EqualBelow(d, my, m);
  }

  /** A place in use holds this destination, at the same version of the internet protocol. */
  predicate Known(e: Entry, a: Addr) {
    e.ai.nbits > 0 && e.ai.dest == a.dest && e.ai.version == a.version
  }

  /** A full address of a node of the hash table. */
  predicate FullDht(a: Addr) {
    a.nbits == 64 && a.dht
  }

  /** Other addresses are refused. */
  lemma {:induction false} OthersAreRefused(my: Dest, s: Table, a: Addr)
    requires Sized(s) && !FullDht(a)
    ensures AddDht(my, s, a) == (s, -1)
  {
  }

  /** A known address moves to the front of its row, with the new details, and those before it one place back. */
  lemma {:induction false} KnownMovesToFront(my: Dest, s: Table, a: Addr, k: nat, row: nat)
    requires TableOk(my, s) && FullDht(a) && RowOf(my, a.dest, row)
    requires k < MAX_PEERS && Known(s.peers[k], a)
    ensures a.dest != my && row <= k < row + 4 <= MAX_PEERS
    ensures var (s', result) := AddDht(my, s, a);
            && result == 0 && s'.pings == s.pings && s'.peers[row] == Entry(a, true, 0)
            && forall j | 0 <= j < MAX_PEERS && j != row ::
                 s'.peers[j] == if row < j <= k then s.peers[j - 1] else s.peers[j]
  {
    hide FindPeer, FindIp, Matching, TableOk, RowOf;
    assert a.dest != my by {
      RowIsOther(my, a.dest, row);
    }
    BucketIsRow(my, a);
    RowIsUnique(my, a.dest, row, Bucket(my, a));
    TableOkIs(my, s);
    BucketSearchIsWhole(my, s, a);
    var found := FindPeer(s.peers, row, row + 4, a);
    assert !Clash(s.peers, found, k);
  }

  lemma {:induction false} RowIsOther(my: Dest, d: Dest, row: nat)
    requires RowOf(my, d, row)
    ensures d != my
  {
  }

  /** The first peer with an internet address, or -1. */
  ghost predicate FirstWithIp(t: seq<Entry>, a: Addr, ip: int) {
    && (forall j | 0 <= j < |t| && (ip < 0 || j < ip) :: t[j].ai.nbits == 0 || t[j].ai.ip != a.ip)
    && (ip == -1 || (0 <= ip < |t| && t[ip].ai.nbits > 0 && t[ip].ai.ip == a.ip))
  }

  /** An entry, or what is left of it when it was the one at `gone`. */
  function Unless(t: seq<Entry>, gone: int, j: nat): (e: Entry)
    requires j < |t|
  {
    if j == gone then t[j].(ai := t[j].ai.(nbits := 0)) else t[j]
  }

  /** A new address goes to the front of its row, of which the last one leaves; the peer that had its internet address
      leaves as well, and so do the pings for its destination. */
  lemma {:induction false} NewGoesToFront(my: Dest, s: Table, a: Addr, row: nat, ip: int)
    requires TableOk(my, s) && FullDht(a) && RowOf(my, a.dest, row) && FirstWithIp(s.peers, a, ip)
    requires forall k | 0 <= k < MAX_PEERS :: !Known(s.peers[k], a)
    ensures a.dest != my && row + 4 <= MAX_PEERS && Sized(s)
    ensures var (s', result) := AddDht(my, s, a);
            && result == 1 && s'.peers[row] == Entry(a, true, 0)
            && (forall j | 0 <= j < MAX_PEERS && j != row ::
                  s'.peers[j] == if row < j < row + 4 then Unless(s.peers, ip, j - 1) else Unless(s.peers, ip, j))
            && forall j | 0 <= j < MAX_PINGS ::
                 s'.pings[j] == Unless(s.pings, if s.pings[j].ai.nbits > 0 && s.pings[j].ai.dest == a.dest then j else -1, j)
  {
    hide FindPeer, FindIp, Matching, RowOf, TableOk;
    assert a.dest != my by {
      RowIsOther(my, a.dest, row);
    }
    BucketIsRow(my, a);
    RowIsUnique(my, a.dest, row, Bucket(my, a));
    TableOkIs(my, s);
    FirstIs(s.peers, a, ip);
    var t := if ip >= 0 then s.peers[ip := Deleted(s.peers[ip])] else s.peers;
    assert forall j | 0 <= j < MAX_PEERS :: t[j] == Unless(s.peers, ip, j);
    assert AddDht(my, s, a).0.peers == Insert(t, row, row + 3, Entry(a, true, 0));
  }

  lemma {:induction false} FirstIs(t: seq<Entry>, a: Addr, ip: int)
    requires FirstWithIp(t, a, ip)
    ensures FindIp(t, 0, a) == ip
  {
    FirstFrom(t, 0, a, ip);
  }

  lemma {:induction false} FirstFrom(t: seq<Entry>, lo: nat, a: Addr, ip: int)
    requires FirstWithIp(t, a, ip) && lo <= |t| && (ip >= 0 ==> lo <= ip)
    ensures FindIp(t, lo, a) == ip
    decreases |t| - lo
  {
    if lo < |t| && lo != ip {
      FirstFrom(t, lo + 1, a, ip);
    }
  }
}
