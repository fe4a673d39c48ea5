/**
 Cached messages as records, and their layout in the byte buffer of a hash table entry: a 32-byte
 header copied from a C struct, then the message.
 */
module Records {
  import opened Base
  import opened TokenBits

  const HEADER_SIZE := 32
  const ALLNET_MTU := 12288
  const STORAGE_SIZE := HEADER_SIZE + ALLNET_MTU

  type U32 = n: nat | n < 0x1_0000_0000

  datatype Header = Header(id: Id, length: U32, priority: U32, sent: Bits)

  datatype Rec = Rec(id: Id, priority: U32, sent: Bits, body: seq<Byte>) {
    function Size(): (n: nat) {
      HEADER_SIZE + |body|
    }
  }

  /** A 32-bit number in the host's byte order. */
  function StoreU32(order: ByteOrder, n: U32): (s: seq<Byte>)
    ensures |s| == 4
  {
    var n1, n2 := n / 256, n / 256 / 256;
    var b: seq<Byte> := [n2 / 256, n2 % 256, n1 % 256, n % 256];
    if order.MostSignificantFirst? then b else [b[3], b[2], b[1], b[0]]
  }

  function LoadU32(order: ByteOrder, s: seq<Byte>): (n: U32)
    requires |s| == 4
  {
    var b: seq<int> := if order.MostSignificantFirst? then s else [s[3], s[2], s[1], s[0]];
    ((b[0] * 256 + b[1]) * 256 + b[2]) * 256 + b[3]
  }

  function StoreHeader(order: ByteOrder, h: Header): (s: seq<Byte>)
    ensures |s| == HEADER_SIZE
  {
    h.id + StoreU32(order, h.length) + StoreU32(order, h.priority) + Store(order, h.sent)
  }

  function LoadHeader(order: ByteOrder, s: seq<Byte>): (h: Header)
    requires |s| == HEADER_SIZE
  {
    Header(s[..16], LoadU32(order, s[16..20]), LoadU32(order, s[20..24]), Load(order, s[24..]))
  }

  lemma {:induction false} LoadStoreU32(order: ByteOrder, n: U32)
    ensures LoadU32(order, StoreU32(order, n)) == n
  {
    var n1, n2 := n / 256, n / 256 / 256;
    assert n2 / 256 * 256 + n2 % 256 == n2;
    assert n2 * 256 + n1 % 256 == n1;
    assert n1 * 256 + n % 256 == n;
  }

  lemma {:induction false} LoadStoreHeader(order: ByteOrder, h: Header)
    ensures LoadHeader(order, StoreHeader(order, h)) == h
  {
    var s := StoreHeader(order, h);
    assert s[..16] == h.id;
    assert s[16..20] == StoreU32(order, h.length);
    assert s[20..24] == StoreU32(order, h.priority);
    assert s[24..] == Store(order, h.sent);
    LoadStoreU32(order, h.length);
    LoadStoreU32(order, h.priority);
    LoadStoreSame(order, h.sent);
  }

  predicate Storable(r: Rec) {
    |r.body| <= ALLNET_MTU
  }

  function HeaderOf(r: Rec): (h: Header)
    requires Storable(r)
  {
    Header(r.id, |r.body|, r.priority, r.sent)
  }

  /** A record in memory. */
  function Chunk(order: ByteOrder, r: Rec): (s: seq<Byte>)
    requires Storable(r)
    ensures |s| == r.Size()
  {
    StoreHeader(order, HeaderOf(r)) + r.body
  }

  predicate AllStorable(rs: seq<Rec>) {
    forall i | 0 <= i < |rs| :: Storable(rs[i])
  }

  // ---------------------------------------------------------------------------
  // Pieces of bytes laid end to end
  // ---------------------------------------------------------------------------

  function Flatten(cs: seq<seq<Byte>>): (s: seq<Byte>) {
    if cs == [] then [] else Flatten(cs[..|cs| - 1]) + cs[|cs| - 1]
  }

  lemma {:induction false} FlattenSnoc(cs: seq<seq<Byte>>, c: seq<Byte>)
    ensures Flatten(cs + [c]) == Flatten(cs) + c
  {
    assert (cs + [c])[..|cs + [c]| - 1] == cs;
  }

  lemma {:induction false} FlattenConcat(a: seq<seq<Byte>>, b: seq<seq<Byte>>)
    ensures Flatten(a + b) == Flatten(a) + Flatten(b)
    decreases |b|
  {
    if b == [] {
      assert a + b == a;
    } else {
      var b', c := b[..|b| - 1], b[|b| - 1];
      FlattenConcat(a, b');
      assert a + b == (a + b') + [c];
      FlattenSnoc(a + b', c);
      assert Flatten(a) + Flatten(b') + c == Flatten(a) + (Flatten(b') + c);
    }
  }

  // ---------------------------------------------------------------------------
  // The layout of a sequence of records
  // ---------------------------------------------------------------------------

  function Chunks(order: ByteOrder, rs: seq<Rec>): (cs: seq<seq<Byte>>)
    requires AllStorable(rs)
    ensures |cs| == |rs|
  {
    seq(|rs|, i requires 0 <= i < |rs| => Chunk(order, rs[i]))
  }

  function Layout(order: ByteOrder, rs: seq<Rec>): (s: seq<Byte>)
    requires AllStorable(rs)
  {
    Flatten(Chunks(order, rs))
  }

  function TotalSize(rs: seq<Rec>): (n: nat) {
    if rs == [] then 0 else TotalSize(rs[..|rs| - 1]) + rs[|rs| - 1].Size()
  }

  /** Where the i-th record starts. */
  function Offset(rs: seq<Rec>, i: nat): (n: nat)
    requires i <= |rs|
  {
    TotalSize(rs[..i])
  }

  lemma {:induction false} OffsetEnds(rs: seq<Rec>)
    ensures Offset(rs, 0) == 0 && Offset(rs, |rs|) == TotalSize(rs)
  {
    assert rs[..0] == [] && rs[..|rs|] == rs;
  }

  lemma {:induction false} TotalSizeNext(rs: seq<Rec>, i: nat)
    requires i < |rs|
    ensures Offset(rs, i + 1) == Offset(rs, i) + rs[i].Size()
  {
    assert rs[..i + 1][..i] == rs[..i];
  }

  lemma {:induction false} TotalSizeConcat(a: seq<Rec>, b: seq<Rec>)
    ensures TotalSize(a + b) == TotalSize(a) + TotalSize(b)
    decreases |b|
  {
    if b == [] {
      assert a + b == a;
    } else {
      TotalSizeConcat(a, b[..|b| - 1]);
      assert (a + b)[..|a + b| - 1] == a + b[..|b| - 1];
    }
  }

  lemma {:induction false} TotalSizeBound(rs: seq<Rec>)
    ensures |rs| * HEADER_SIZE <= TotalSize(rs)
    decreases |rs|
  {
    if rs != [] {
      TotalSizeBound(rs[..|rs| - 1]);
    }
  }

  lemma {:induction false} LayoutSize(order: ByteOrder, rs: seq<Rec>)
    requires AllStorable(rs)
    ensures |Layout(order, rs)| == TotalSize(rs)
    decreases |rs|
  {
    if rs != [] {
      LayoutSize(order, rs[..|rs| - 1]);
      assert Chunks(order, rs)[..|rs| - 1] == Chunks(order, rs[..|rs| - 1]);
    }
  }

  lemma {:induction false} LayoutSnoc(order: ByteOrder, rs: seq<Rec>, r: Rec)
    requires AllStorable(rs) && Storable(r)
    ensures TotalSize(rs + [r]) == TotalSize(rs) + r.Size()
    ensures Layout(order, rs + [r]) == Layout(order, rs) + Chunk(order, r)
  {
    assert (rs + [r])[..|rs + [r]| - 1] == rs;
    assert Chunks(order, rs + [r]) == Chunks(order, rs) + [Chunk(order, r)];
    FlattenSnoc(Chunks(order, rs), Chunk(order, r));
  }

  lemma {:induction false} LayoutConcat(order: ByteOrder, a: seq<Rec>, b: seq<Rec>)
    requires AllStorable(a) && AllStorable(b)
    ensures Layout(order, a + b) == Layout(order, a) + Layout(order, b)
  {
    assert Chunks(order, a + b) == Chunks(order, a) + Chunks(order, b);
    FlattenConcat(Chunks(order, a), Chunks(order, b));
  }

  /** The i-th record sits between those before it and those after it. */
  lemma {:induction false} LayoutAt(order: ByteOrder, rs: seq<Rec>, i: nat)
    requires AllStorable(rs) && i < |rs|
    ensures Layout(order, rs) == Layout(order, rs[..i]) + Chunk(order, rs[i]) + Layout(order, rs[i + 1..])
    ensures |Layout(order, rs[..i])| == Offset(rs, i)
    ensures |Layout(order, rs)| == TotalSize(rs)
    ensures Offset(rs, i) + rs[i].Size() == Offset(rs, i + 1) <= TotalSize(rs)
  {
    assert rs == rs[..i + 1] + rs[i + 1..] && rs[..i + 1] == rs[..i] + [rs[i]];
    LayoutConcat(order, rs[..i + 1], rs[i + 1..]);
    LayoutSnoc(order, rs[..i], rs[i]);
    TotalSizeConcat(rs[..i + 1], rs[i + 1..]);
    LayoutSize(order, rs[..i]);
    LayoutSize(order, rs);
  }

  /** Reading a header where a record starts gives that record's header. */
  lemma {:induction false} HeaderAt(order: ByteOrder, r: Rec)
    requires Storable(r)
    ensures LoadHeader(order, Chunk(order, r)[..HEADER_SIZE]) == HeaderOf(r)
    ensures Chunk(order, r)[HEADER_SIZE..] == r.body
  {
    assert Chunk(order, r)[..HEADER_SIZE] == StoreHeader(order, HeaderOf(r));
    LoadStoreHeader(order, HeaderOf(r));
  }

  lemma {:induction false} MiddleOf(buf: seq<Byte>, n: nat, a: seq<Byte>, c: seq<Byte>, b: seq<Byte>)
    requires n <= |buf| && buf[..n] == a + c + b
    ensures |a| + |c| <= n
    ensures buf[|a|..|a| + |c|] == c
  {
    assert (a + c + b)[|a|..|a| + |c|] == c;
    assert buf[|a|..|a| + |c|] == buf[..n][|a|..|a| + |c|];
  }

  lemma {:induction false} PartsOf(buf: seq<Byte>, lo: nat, c: seq<Byte>, k: nat)
    requires lo + |c| <= |buf| && buf[lo..lo + |c|] == c && k <= |c|
    ensures buf[lo..lo + k] == c[..k]
    ensures buf[lo + k..lo + |c|] == c[k..]
  {
    assert buf[lo..lo + k] == buf[lo..lo + |c|][..k];
    assert buf[lo + k..lo + |c|] == buf[lo..lo + |c|][k..];
  }

  /** What a reader finds in a buffer at the offset of the i-th record. */
  lemma {:induction false} RecordInBuffer(order: ByteOrder, rs: seq<Rec>, i: nat, buf: seq<Byte>)
    requires AllStorable(rs) && i < |rs|
    requires TotalSize(rs) <= |buf| && buf[..TotalSize(rs)] == Layout(order, rs)
    ensures var off := Offset(rs, i);
            var end := off + rs[i].Size();
            && end == Offset(rs, i + 1) <= TotalSize(rs)
            && LoadHeader(order, buf[off..off + HEADER_SIZE]) == HeaderOf(rs[i])
            && buf[off + HEADER_SIZE..end] == rs[i].body
  {
    hide Chunk, Layout, LoadHeader;
    LayoutAt(order, rs, i);
    HeaderAt(order, rs[i]);
    var a, c, b := Layout(order, rs[..i]), Chunk(order, rs[i]), Layout(order, rs[i + 1..]);
    MiddleOf(buf, TotalSize(rs), a, c, b);
    PartsOf(buf, |a|, c, HEADER_SIZE);
  }

  /** A buffer with the bytes from `dst` on overwritten by `s`. */
  function Overwrite(buf: seq<Byte>, dst: nat, s: seq<Byte>): (buf': seq<Byte>)
    requires dst + |s| <= |buf|
    ensures |buf'| == |buf|
  {
    buf[..dst] + s + buf[dst + |s|..]
  }

  /** Writing two adjacent pieces extends the good prefix and leaves the rest alone. */
  lemma {:induction false} OverwriteTwice(buf: seq<Byte>, dst: nat, x: seq<Byte>, y: seq<Byte>)
    requires dst + |x| + |y| <= |buf|
    ensures var buf' := Overwrite(Overwrite(buf, dst, x), dst + |x|, y);
            && buf'[..dst + |x| + |y|] == buf[..dst] + (x + y)
            && buf'[dst + |x| + |y|..] == buf[dst + |x| + |y|..]
  {
    var b1 := Overwrite(buf, dst, x);
    assert b1[..dst + |x|] == buf[..dst] + x;
    assert b1[dst + |x|..] == buf[dst + |x|..];
    var b2 := Overwrite(b1, dst + |x|, y);
    assert b2[..dst + |x| + |y|] == b1[..dst + |x|] + y;
  }

  /** Deleting a record: move everything after it down over it. */
  lemma {:induction false} LayoutWithout(order: ByteOrder, rs: seq<Rec>, i: nat, buf: seq<Byte>)
    requires AllStorable(rs) && i < |rs|
    requires TotalSize(rs) <= |buf| && buf[..TotalSize(rs)] == Layout(order, rs)
    ensures var off := Offset(rs, i);
            var end := off + rs[i].Size();
            var rest := rs[..i] + rs[i + 1..];
            && end <= TotalSize(rs) && TotalSize(rest) == TotalSize(rs) - rs[i].Size()
            && Overwrite(buf, off, buf[end..])[..TotalSize(rest)] == Layout(order, rest)
  {
    hide Chunk, Layout, TotalSize;
    LayoutAt(order, rs, i);
    LayoutConcat(order, rs[..i], rs[i + 1..]);
    LayoutSize(order, rs[..i] + rs[i + 1..]);
    var a, c, b := Layout(order, rs[..i]), Chunk(order, rs[i]), Layout(order, rs[i + 1..]);
    RemoveMiddle(buf, TotalSize(rs), a, c, b);
  }

  lemma {:induction false} RemoveMiddle(buf: seq<Byte>, n: nat, a: seq<Byte>, c: seq<Byte>, b: seq<Byte>)
    requires n <= |buf| && buf[..n] == a + c + b
    ensures Overwrite(buf, |a|, buf[|a| + |c|..])[..|a| + |b|] == a + b
  {
    var t := buf[n..];
    assert buf == a + c + (b + t);
    assert buf[|a| + |c|..] == b + t && buf[..|a|] == a;
    var r := Overwrite(buf, |a|, b + t);
    assert r[..|a| + |b| + |t|] == a + (b + t);
    assert r[..|a| + |b|] == r[..|a| + |b| + |t|][..|a| + |b|];
  }

  /** Rewriting the header of a record in place. */
  lemma {:induction false} LayoutWithHeader(order: ByteOrder, rs: seq<Rec>, i: nat, sent: Bits, buf: seq<Byte>)
    requires AllStorable(rs) && i < |rs|
    requires TotalSize(rs) <= |buf| && buf[..TotalSize(rs)] == Layout(order, rs)
    ensures var r := rs[i].(sent := sent);
            var rs' := rs[i := r];
            && Offset(rs, i) + HEADER_SIZE <= TotalSize(rs) == TotalSize(rs')
            && Overwrite(buf, Offset(rs, i), StoreHeader(order, HeaderOf(r)))[..TotalSize(rs)] == Layout(order, rs')
  {
    hide Layout, TotalSize, StoreHeader;
    var r := rs[i].(sent := sent);
    var rs' := rs[i := r];
    LayoutAt(order, rs, i);
    LayoutAt(order, rs', i);
    assert rs'[..i] == rs[..i] && rs'[i + 1..] == rs[i + 1..];
    SameTotalSize(rs, rs', i);
    var a, b := Layout(order, rs[..i]), Layout(order, rs[i + 1..]);
    ReplaceHeader(buf, TotalSize(rs), a, StoreHeader(order, HeaderOf(rs[i])), StoreHeader(order, HeaderOf(r)), rs[i].body, b);
  }

  lemma {:induction false} SameTotalSize(rs: seq<Rec>, rs': seq<Rec>, i: nat)
    requires |rs| == |rs'| && i < |rs|
    requires rs'[..i] == rs[..i] && rs'[i + 1..] == rs[i + 1..] && |rs'[i].body| == |rs[i].body|
    ensures TotalSize(rs) == TotalSize(rs')
  {
    TotalSizeNext(rs, i);
    TotalSizeNext(rs', i);
    TotalSizeConcat(rs[..i + 1], rs[i + 1..]);
    TotalSizeConcat(rs'[..i + 1], rs'[i + 1..]);
    assert rs == rs[..i + 1] + rs[i + 1..] && rs' == rs'[..i + 1] + rs'[i + 1..];
  }

  lemma {:induction false} ReplaceHeader(buf: seq<Byte>, n: nat, a: seq<Byte>, x: seq<Byte>, y: seq<Byte>, m: seq<Byte>, b: seq<Byte>)
    requires n <= |buf| && buf[..n] == a + (x + m) + b && |x| == |y|
    ensures Overwrite(buf, |a|, y)[..n] == a + (y + m) + b
  {
    assert buf == a + x + (m + b) + buf[n..];
    var r := Overwrite(buf, |a|, y);
    assert r == a + y + (m + b) + buf[n..];
    assert r[..|a|] == a;
    assert r[|a| + |y|..n] == m + b;
    assert r[..n] == r[..|a|] + y + r[|a| + |y|..n];
  }
}
