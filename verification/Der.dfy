/**
 DER encoding of keys (sections 8.1.3 and 8.3 of ITU-T X.690): a writer that fills a buffer backwards
 from its end, and a reader that walks forwards.
 */
module Der {
  import opened Base

  const INTEGER: Byte := 2
  const SEQUENCE: Byte := 0x10
  const CONSTRUCTED: Byte := 0x20

  // ---------------------------------------------------------------------------
  // What is to be written
  // ---------------------------------------------------------------------------

  /** How many base-256 digits a positive number has. */
  function ByteCount(n: nat): (k: nat)
    ensures k >= 1
  {
    if n < 256 then 1 else 1 + ByteCount(n / 256)
  }

  /** The lengths that the program can compute. */
  type Size = n: nat | n < 0x8000_0000

  lemma {:induction false} LengthFits(size: Size)
    ensures ByteCount(size) <= 4
  {
    var a := size / 256;
    var b := a / 256;
    assert size >= 256 ==> ByteCount(size) == 1 + ByteCount(a);
    assert a >= 256 ==> ByteCount(a) == 1 + ByteCount(b);
    assert b >= 256 ==> ByteCount(b) == 1 + ByteCount(b / 256);
  }

  /** The definite form: one byte below 128, else the number of length bytes and these bytes. */
  function LengthBytes(n: Size): (s: seq<Byte>) {
    LengthFits(n);
    if n <= 127 then [n] else [0x80 + ByteCount(n)] + Digits(n, ByteCount(n))
  }

  datatype Element = Element(id: Byte, content: seq<Byte>)

  predicate Writable(e: Element) {
    |e.content| < 0x8000_0000
  }

  function Encoding(e: Element): (s: seq<Byte>)
    requires Writable(e)
  {
    [e.id] + LengthBytes(|e.content|) + e.content
  }

  /** The fewest bytes that hold a non-negative number with a sign bit. */
  function SignedBytes(v: nat): (n: nat)
    ensures n >= 1
  {
    if v < 128 then 1 else 1 + SignedBytes(v / 256)
  }

  function Integer(v: nat): (e: Element) {
    Element(INTEGER, Digits(v, SignedBytes(v)))
  }

  /** The bytes have the value of the number, are not negative as two's complement, and none can be left out. */
  lemma {:induction false} IntegerIsMinimal(v: nat)
    ensures var c := Integer(v).content;
            && BigEndian(c) == v && c[0] < 128
            && (|c| > 1 ==> c[0] != 0 || c[1] >= 128)
    decreases v
  {
    var n := SignedBytes(v);
    if v < 128 {
      assert Digits(v, 1) == Digits(0, 0) + [v];
      assert [v][..0] == [];
    } else {
      IntegerIsMinimal(v / 256);
      var c, d := Digits(v, n), Digits(v / 256, n - 1);
      assert c == d + [v % 256];
      assert c[..|c| - 1] == d;
      if n == 2 {
        assert v / 256 < 128;
      }
    }
  }

  function Concat(es: seq<Element>): (s: seq<Byte>)
    requires forall e | e in es :: Writable(e)
  {
    if es == [] then [] else Encoding(es[0]) + Concat(es[1..])
  }

  // ---------------------------------------------------------------------------
  // The reader
  // ---------------------------------------------------------------------------

  /** read_length: the length and the bytes it takes, at most three after the first. */
  function ReadLength(s: seq<Byte>): (r: Option<(nat, nat)>)
    ensures r.Some? ==> 1 <= r.value.1 <= |s|
  {
    if s == [] then None
    else if s[0] < 128 then Some((s[0], 1))
    else
      var n := s[0] - 128;
      if n >= 4 || 1 + n > |s| then None else Some((BigEndian(s[1..1 + n]), 1 + n))
  }

  lemma {:induction false} ByteCountValue(n: nat)
    ensures n < Pow256(ByteCount(n))
    decreases n
  {
    if n >= 256 {
      ByteCountValue(n / 256);
    }
  }

  lemma {:induction false} ByteCountSmall(n: nat)
    ensures ByteCount(n) < 4 <==> n < 0x100_0000
  {
    if n >= 256 && n / 256 >= 256 {
      assert ByteCount(n) == 2 + ByteCount(n / 256 / 256);
    }
  }

  /** A length is read back exactly when it is below 2^24: the writer also writes longer ones. */
  lemma {:induction false} ReadLengthIff(n: Size, rest: seq<Byte>)
    ensures ReadLength(LengthBytes(n) + rest) == Some((n, |LengthBytes(n)|)) <==> n < 0x100_0000
  {
    hide ByteCount, Digits, BigEndian;
    LengthFits(n);
    var k, s := ByteCount(n), LengthBytes(n) + rest;
    ByteCountSmall(n);
    if n > 127 {
      assert s[1..1 + k] == Digits(n, k);
      DigitsValue(n, k);
      ByteCountValue(n);
      DivModUnique(n, Pow256(k), 0, n);
    }
  }

  /** The positions of the elements from `pos` on, as asn1_read_seq walks over them. */
  function Walk(data: seq<Byte>, end: nat, pos: nat): (r: Option<seq<nat>>)
    requires end <= |data|
    decreases end - pos
  {
    if pos + 1 > end then None
    else
      match ReadLength(data[pos + 1..end])
      case None => None
      case Some((length, used)) =>
        var next := pos + 1 + used + length;
        if next > end then None
        else if next == end then Some([pos])
        else
          match Walk(data, end, next)
          case None => None
          case Some(more) => Some([pos] + more)
  }

  /** asn1_read_seq: the size of the sequence and the positions of its elements. */
  function ReadSeq(data: seq<Byte>): (r: Option<(nat, seq<nat>)>) {
    if data == [] || data[0] % 32 != SEQUENCE then None
    else
      match ReadLength(data[1..])
      case None => None
      case Some((length, used)) =>
        if 1 + used + length > |data| then None
        else
          match Walk(data, 1 + used + length, 1 + used)
          case None => None
          case Some(at) => Some((1 + used + length, at))
  }

  ghost predicate Short(es: seq<Element>) {
    forall e | e in es :: Writable(e) && |e.content| < 0x100_0000
  }

  /** Where the elements start, the first one at `pos`. */
  function Starts(es: seq<Element>, pos: nat): (at: seq<nat>)
    requires forall e | e in es :: Writable(e)
  {
    if es == [] then [] else [pos] + Starts(es[1..], pos + |Encoding(es[0])|)
  }

  lemma {:induction false} WalkElements(data: seq<Byte>, end: nat, pos: nat, es: seq<Element>)
    requires Short(es) && es != [] && pos <= end <= |data| && data[pos..end] == Concat(es)
    ensures Walk(data, end, pos) == Some(Starts(es, pos))
    decreases |es|
  {
    hide LengthBytes, ReadLength, ByteCount;
    var e, rest := es[0], Concat(es[1..]);
    var n := |LengthBytes(|e.content|)|;
    assert Writable(e);
    assert data[pos..end] == [e.id] + LengthBytes(|e.content|) + e.content + rest;
    assert data[pos + 1..end] == data[pos..end][1..] == LengthBytes(|e.content|) + (e.content + rest);
    ReadLengthIff(|e.content|, e.content + rest);
    var next := pos + 1 + n + |e.content|;
    assert data[next..end] == data[pos..end][1 + n + |e.content|..] == rest;
    if |es| == 1 {
      assert es[1..] == [] && rest == [] && next == end;
      assert Starts(es[1..], pos + |Encoding(e)|) == [];
      assert Starts(es, pos) == [pos];
    } else {
      NotEmpty(es[1..]);
      WalkElements(data, end, next, es[1..]);
    }
  }

  lemma {:induction false} NotEmpty(es: seq<Element>)
    requires es != [] && forall e | e in es :: Writable(e)
    ensures Concat(es) != []
  {
    hide LengthBytes;
  }

  function Sequence(es: seq<Element>): (s: Element)
    requires forall e | e in es :: Writable(e)
  {
    Element(SEQUENCE + CONSTRUCTED, Concat(es))
  }

  /** The reader finds exactly the elements that were written, each where it starts, whatever follows. */
  lemma {:induction false} ReadSequence(es: seq<Element>, after: seq<Byte>)
    requires es != [] && Short(es) && Short([Sequence(es)])
    ensures var s := Encoding(Sequence(es));
            ReadSeq(s + after) == Some((|s|, Starts(es, |s| - |Concat(es)|)))
  {
    hide LengthBytes, ReadLength, ByteCount, Walk, Concat;
    assert Sequence(es) in [Sequence(es)];
    var body, s := Concat(es), Encoding(Sequence(es));
    var data := s + after;
    var n := |LengthBytes(|body|)|;
    assert data[1..] == LengthBytes(|body|) + (body + after);
    ReadLengthIff(|body|, body + after);
    assert data[1 + n..|s|] == body;
    WalkElements(data, |s|, 1 + n, es);
  }

  /** An empty sequence, which the writer never makes, would be refused. */
  lemma {:induction false} EmptyIsRefused()
    ensures ReadSeq(Encoding(Sequence([]))) == None
  {
    assert Encoding(Sequence([])) == [0x30, 0];
  }

  /** read_int: contents of at most four bytes. */
  function ReadInt(s: seq<Byte>): (r: Option<nat>) {
    if s == [] || s[0] % 32 != INTEGER then None
    else
      match ReadLength(s[1..])
      case None => None
      case Some((length, used)) =>
        if length > 4 || 1 + used + length > |s| then None
        else Some(BigEndian(s[1 + used..1 + used + length]))
  }

  /** The value of an integer is read back exactly when it is below 2^31. */
  lemma {:induction false} ReadIntIff(v: nat, after: seq<Byte>)
    requires Writable(Integer(v))
    ensures ReadInt(Encoding(Integer(v)) + after) == Some(v) <==> v < 0x8000_0000
  {
    hide Digits, BigEndian, ByteCount;
    var c := Integer(v).content;
    var s := Encoding(Integer(v)) + after;
    SignedBytesSmall(v);
    IntegerIsMinimal(v);
    var n := |LengthBytes(|c|)|;
    assert s[1..] == LengthBytes(|c|) + (c + after);
    if |c| <= 4 {
      ReadLengthIff(|c|, c + after);
      assert s[1 + n..1 + n + |c|] == c;
    } else if ReadLength(s[1..]).Some? {
      LongStaysLong(|c|, c + after);
    }
  }

  lemma {:induction false} LongStaysLong(n: Size, rest: seq<Byte>)
    requires n > 4
    ensures ReadLength(LengthBytes(n) + rest).Some? ==> ReadLength(LengthBytes(n) + rest).value.0 == n
  {
    hide LengthBytes, ReadLength;
    ReadLengthIff(n, rest);
    if n >= 0x100_0000 {
      TooLongIsRefused(n, rest);
    }
  }

  lemma {:induction false} TooLongIsRefused(n: Size, rest: seq<Byte>)
    requires 0x100_0000 <= n
    ensures ReadLength(LengthBytes(n) + rest).None?
  {
    hide Digits;
    LengthFits(n);
    ByteCountSmall(n);
  }

  lemma {:induction false} SignedBytesSmall(v: nat)
    ensures SignedBytes(v) <= 4 <==> v < 0x8000_0000
  {
    var a := v / 256;
    var b := a / 256;
    var c := b / 256;
    assert v >= 128 ==> SignedBytes(v) == 1 + SignedBytes(a);
    assert a >= 128 ==> SignedBytes(a) == 1 + SignedBytes(b);
    assert b >= 128 ==> SignedBytes(b) == 1 + SignedBytes(c);
    assert c >= 128 ==> SignedBytes(c) == 1 + SignedBytes(c / 256);
  }

  // ---------------------------------------------------------------------------
  // The program's writer and reader
  // ---------------------------------------------------------------------------

  /** The buffer ends with these bytes; everything before them is as it was. */
  ghost predicate EndsWith(b0: seq<Byte>, b: seq<Byte>, bsize: nat, s: seq<Byte>) {
    && |b| == |b0| && |s| <= bsize <= |b|
    && b[bsize - |s|..bsize] == s
    && b[..bsize - |s|] == b0[..bsize - |s|] && b[bsize..] == b0[bsize..]
  }

  lemma {:induction false} EndsWithMore(b0: seq<Byte>, b: seq<Byte>, b': seq<Byte>, bsize: nat, x: Byte, s: seq<Byte>)
    requires EndsWith(b0, b, bsize, s) && |s| < bsize && b' == b[bsize - 1 - |s| := x]
    ensures EndsWith(b0, b', bsize, [x] + s)
  {
    var at := bsize - 1 - |s|;
    assert b'[at..bsize] == [x] + b[at + 1..bsize];
    assert b'[..at] == b[..at + 1][..at];
  }

  lemma {:induction false} EndsWithTwice(b0: seq<Byte>, b1: seq<Byte>, b2: seq<Byte>, bsize: nat, t: seq<Byte>, s: seq<Byte>)
    requires EndsWith(b0, b1, bsize, s) && EndsWith(b1, b2, bsize - |s|, t)
    ensures EndsWith(b0, b2, bsize, t + s)
  {
    var m, at := bsize - |s|, bsize - |s| - |t|;
    assert b2[m..bsize] == b2[m..][..|s|] == b1[m..][..|s|] == s;
    assert b2[at..bsize] == b2[at..m] + b2[m..bsize];
    assert b2[..at] == b1[..m][..at] == b0[..m][..at];
    assert b2[bsize..] == b2[m..][|s|..] == b1[m..][|s|..];
  }

  lemma {:induction false} DigitsCons(v: nat, n: nat)
    ensures Digits(v, n + 1) == [v / Pow256(n) % 256] + Digits(v, n)
    decreases n
  {
    if n == 0 {
      assert Digits(v, 1) == Digits(v / 256, 0) + [v % 256];
    } else {
      DigitsCons(v / 256, n - 1);
      ModBySteps(v, Pow256(n - 1));
    }
  }

  method WriteByte(buffer: array<Byte>, bsize: nat, written: nat, x: Byte, ghost b0: seq<Byte>, ghost s: seq<Byte>)
    requires EndsWith(b0, buffer[..], bsize, s) && |s| == written < bsize <= buffer.Length
    modifies buffer
    ensures EndsWith(b0, buffer[..], bsize, [x] + s)
  {
    hide EndsWith;
    ghost var b := buffer[..];
    buffer[bsize - 1 - written] := x;
    EndsWithMore(b0, b, buffer[..], bsize, x, s);
  }

  /** The length bytes of write_id_len above 127; 0 when the program notices that the room ends. */
  method WriteLongLength(buffer: array<Byte>, bsize: nat, size: Size) returns (written: nat)
    requires size > 127 && 2 <= bsize <= buffer.Length
    modifies buffer
    ensures written == if |LengthBytes(size)| <= bsize then |LengthBytes(size)| else 0
    ensures written > 0 ==> EndsWith(old(buffer[..]), buffer[..], bsize, LengthBytes(size))
  {
    hide EndsWith, Pow256;
    LengthFits(size);
    ghost var b0, k := buffer[..], ByteCount(size);
    EndsWithNothing(b0, bsize);
    ghost var s: seq<Byte> := [];
    written := 0;
    var shifted := size;
    NextShift(size, 0);
    while written + 1 < bsize && shifted >= 256
      invariant s == Digits(size, written) && written + ByteCount(shifted) == k
      invariant shifted == size / Pow256(written)
      invariant EndsWith(b0, buffer[..], bsize, s) && (written + 1 < bsize || written == 0)
      decreases shifted
    {
      if written >= 4 || written + 2 >= bsize {
        return 0;
      }
      DigitsCons(size, written);
      NextShift(size, written);
      WriteByte(buffer, bsize, written, shifted % 256, b0, s);
      s := [shifted % 256] + s;
      written := written + 1;
      shifted := shifted / 256;
    }
    DigitsCons(size, written);
    WriteByte(buffer, bsize, written, shifted % 256, b0, s);
    s := [shifted % 256] + s;
    written := written + 1;
    WriteByte(buffer, bsize, written, 0x80 + written, b0, s);
    written := written + 1;
  }

  /** The lowest index that the loop of write_id_len and what follows it write to, counted on with
      `written` bytes already there; `bsize` when nothing is written. */
  function LowestInLoop(bsize: nat, written: nat, shifted: nat): (i: int)
    decreases shifted
  {
    if written + 1 < bsize && shifted >= 256 then
      if written >= 4 || written + 2 >= bsize then bsize - written
      else LowestInLoop(bsize, written + 1, shifted / 256)
    else bsize - 1 - (written + 2)
  }

  /** The lowest index that write_id_len writes to. */
  function LowestIndex(bsize: nat, size: nat): (i: int) {
    if bsize < 2 then bsize else if size <= 127 then bsize - 2 else LowestInLoop(bsize, 0, size)
  }

  lemma {:induction false} LowestInLoopIs(bsize: nat, written: nat, shifted: nat)
    requires written + 1 < bsize && written + ByteCount(shifted) <= 4
    ensures var k := written + ByteCount(shifted);
            if k + 1 <= bsize then LowestInLoop(bsize, written, shifted) == bsize - k - 2
            else LowestInLoop(bsize, written, shifted) >= 0
    decreases shifted
  {
    if shifted >= 256 && written < 4 && written + 2 < bsize {
      LowestInLoopIs(bsize, written + 1, shifted / 256);
    }
  }

  /** A header is written inside the buffer, if at all, unless its length bytes fill the buffer. */
  lemma {:induction false} HeaderStaysInBufferIff(bsize: nat, size: Size)
    ensures LowestIndex(bsize, size) >= 0 <==> !(bsize >= 2 && size > 127 && bsize == |LengthBytes(size)|)
  {
    hide LowestInLoop, ByteCount, Digits;
    LengthFits(size);
    if bsize >= 2 && size > 127 {
      LowestInLoopIs(bsize, 0, size);
    }
  }

  /** A length of 200 takes two bytes, and the identifier of a buffer of two bytes is written before it. */
  lemma {:induction false} HeaderOutsideBuffer()
    ensures LengthBytes(200) == [0x81, 200] && LowestIndex(2, 200) == -1
  {
    assert ByteCount(200) == 1;
    assert Digits(200, 1) == Digits(0, 0) + [200];
  }

  /** write_id_len: the header that the content at the end of the buffer needs, or 0 when there is too
      little room.  With room for all but the identifier of a long header the program does not notice; not
      inside then, where it would write in front of the buffer. */
  method WriteIdLen(buffer: array<Byte>, bsize: nat, id: Byte, size: Size, constructed: bool) returns (inside: bool, written: nat)
    requires id < CONSTRUCTED && bsize <= buffer.Length
    modifies buffer
    ensures inside <==> LowestIndex(bsize, size) >= 0
    ensures inside ==> written == if 1 + |LengthBytes(size)| <= bsize then 1 + |LengthBytes(size)| else 0
    ensures inside && written > 0 ==>
              EndsWith(old(buffer[..]), buffer[..], bsize, [if constructed then id + CONSTRUCTED else id] + LengthBytes(size))
  {
    hide EndsWith, ByteCount, Digits, LowestIndex;
    HeaderStaysInBufferIff(bsize, size);
    if bsize < 2 {
      return true, 0;
    }
    var first: Byte := if constructed then id + CONSTRUCTED else id;
    ghost var b0 := buffer[..];
    EndsWithNothing(b0, bsize);
    if size <= 127 {
      WriteByte(buffer, bsize, 0, size, b0, []);
      assert [size] + [] == LengthBytes(size);
      written := 1;
    } else {
      written := WriteLongLength(buffer, bsize, size);
      if written == 0 {
        return true, 0;
      }
      if written == bsize {
        return false, 0;
      }
    }
    WriteByte(buffer, bsize, written, first, b0, LengthBytes(size));
    written := written + 1;
    inside := true;
  }

  lemma {:induction false} EndsWithNothing(b: seq<Byte>, bsize: nat)
    requires bsize <= |b|
    ensures EndsWith(b, b, bsize, [])
  {
  }

  lemma {:induction false} NextShift(size: nat, n: nat)
    ensures size / Pow256(n) / 256 == size / Pow256(n + 1) && size / Pow256(0) == size
  {
    ShiftOrder(size, Pow256(n));
  }

  lemma {:induction false} ShiftOrder(v: nat, p: nat)
    requires p > 0
    ensures v / p / 256 == v / (256 * p)
  {
    var q, r := v / p, v % p;
    assert v == q * p + r;
    assert q == q / 256 * 256 + q % 256;
    Regroup(q / 256, q % 256, p);
    BigMultiple(256 - q % 256, p);
    assert (256 - q % 256) * p == 256 * p - q % 256 * p;
    DivModUnique(v, 256 * p, q / 256, q % 256 * p + r);
  }

  lemma {:induction false} Regroup(a: nat, b: nat, p: nat)
    ensures (a * 256 + b) * p == a * (256 * p) + b * p
  {
  }

  /** wp_get_byte: byte `i` of a number, the least significant first. */
  function ByteAt(v: nat, i: nat): (b: Byte) {
    v / Pow256(i) % 256
  }

  /** The first lines of write_int: how many bytes the number takes. */
  method CountBytes(v: nat, nbytes: nat) returns (wbytes: nat)
    requires v < Pow256(nbytes) && nbytes > 0
    ensures wbytes == SignedBytes(v) <= nbytes + 1
  {
    hide SignedBytes, Pow256;
    wbytes := nbytes;
    while wbytes > 0 && ByteAt(v, wbytes - 1) == 0
      invariant wbytes <= nbytes && v < Pow256(wbytes)
    {
      TopByte(v, wbytes - 1);
      wbytes := wbytes - 1;
    }
    if wbytes > 0 {
      TopByte(v, wbytes - 1);
    }
    SignedBytesAre(v, wbytes);
    if wbytes == 0 {
      wbytes := wbytes + 1;
    }
    if ByteAt(v, wbytes - 1) >= 128 {
      wbytes := wbytes + 1;
    }
  }

  /** The top byte is zero exactly when the number has fewer bytes. */
  lemma {:induction false} TopByte(v: nat, n: nat)
    requires v < Pow256(n + 1)
    ensures ByteAt(v, n) == v / Pow256(n) && (ByteAt(v, n) == 0 <==> v < Pow256(n))
  {
    hide Pow256;
    var p := Pow256(n);
    PowNext(n);
    assert v == v / p * p + v % p;
    BigMultiple(v / p - 256, p);
    assert (v / p - 256) * p == v / p * p - 256 * p;
    BigMultiple(v / p, p);
  }

  lemma {:induction false} PowNext(n: nat)
    ensures Pow256(n + 1) == 256 * Pow256(n)
  {
  }

  /** With no leading zero bytes, one byte more is needed when the top bit is set. */
  lemma {:induction false} SignedBytesAre(v: nat, m: nat)
    requires v < Pow256(m) && (m > 0 ==> ByteAt(v, m - 1) != 0)
    ensures SignedBytes(v) == (if m == 0 then 1 else m) + if m > 0 && ByteAt(v, m - 1) >= 128 then 1 else 0
    ensures m == 0 ==> ByteAt(v, 0) == 0
    decreases m
  {
    if m == 1 {
      assert Pow256(0) == 1 && Pow256(1) == 256;
    } else if m > 1 {
      TopByte(v, m - 1);
      BelowPow(v, m - 1);
      ModBySteps(v, Pow256(m - 2));
      DivLess(v, Pow256(m - 1));
      SignedBytesAre(v / 256, m - 1);
    }
  }

  lemma {:induction false} BelowPow(v: nat, n: nat)
    requires n > 0 && v >= Pow256(n)
    ensures v >= 256
  {
    assert Pow256(n) == 256 * Pow256(n - 1);
  }

  lemma {:induction false} DivLess(v: nat, p: nat)
    requires v < 256 * p
    ensures v / 256 < p
  {
  }

  /** The bytes of a number, from the least significant one backwards; a byte above the number is 0. */
  method WriteContent(buffer: array<Byte>, bsize: nat, v: nat, wbytes: nat, nbytes: nat) returns (written: nat)
    requires v < Pow256(nbytes) && wbytes <= nbytes + 1 && wbytes < bsize <= buffer.Length
    modifies buffer
    ensures written == wbytes && EndsWith(old(buffer[..]), buffer[..], bsize, Digits(v, wbytes))
  {
    hide EndsWith, Pow256, ByteAt;
    ghost var b0 := buffer[..];
    EndsWithNothing(b0, bsize);
    assert Digits(v, 0) == [];
    written := 0;
    var i := 0;
    while i < wbytes && i < nbytes
      invariant i <= wbytes && i <= nbytes && written == i && EndsWith(b0, buffer[..], bsize, Digits(v, i))
    {
      DigitsAt(v, i);
      WriteByte(buffer, bsize, written, ByteAt(v, i), b0, Digits(v, i));
      written := written + 1;
      i := i + 1;
    }
    if wbytes > nbytes {
      DigitsAt(v, nbytes);
      AboveIsZero(v, nbytes);
      WriteByte(buffer, bsize, written, 0, b0, Digits(v, nbytes));
      written := written + 1;
    }
  }

  lemma {:induction false} DigitsAt(v: nat, n: nat)
    ensures Digits(v, n + 1) == [ByteAt(v, n)] + Digits(v, n)
  {
    DigitsCons(v, n);
  }

  /** write_int for a number of `nbits` bits, a positive multiple of 8: its encoding, or 0 when fewer than
      five bytes would be left. */
  method WriteInt(buffer: array<Byte>, bsize: nat, v: nat, nbits: nat) returns (written: nat)
    requires nbits >= 8 && v < Pow256(nbits / 8) && nbits < 0x400_0000 && bsize <= buffer.Length
    modifies buffer
    ensures SignedBytes(v) <= nbits / 8 + 1
    ensures written == if SignedBytes(v) + 4 >= bsize then 0 else |Encoding(Integer(v))|
    ensures if written == 0 then buffer[..] == old(buffer[..])
            else EndsWith(old(buffer[..]), buffer[..], bsize, Encoding(Integer(v)))
  {
    hide EndsWith, SignedBytes, LengthBytes, Pow256, Digits, LowestIndex;
    var nbytes := nbits / 8;
    var wbytes := CountBytes(v, nbytes);
    if wbytes + 4 >= bsize {
      return 0;
    }
    ghost var b0 := buffer[..];
    written := WriteContent(buffer, bsize, v, wbytes, nbytes);
    ghost var b1 := buffer[..];
    HeaderFits(wbytes);
    HeaderStaysInBufferIff(bsize - written, written);
    var inside, more := WriteIdLen(buffer, bsize - written, INTEGER, written, false);
    EndsWithTwice(b0, b1, buffer[..], bsize, [INTEGER] + LengthBytes(wbytes), Digits(v, wbytes));
    written := written + more;
  }

  lemma {:induction false} AboveIsZero(v: nat, n: nat)
    requires v < Pow256(n)
    ensures ByteAt(v, n) == 0
  {
    DivModUnique(v, Pow256(n), 0, v);
  }

  /** Numbers of so many bits each. */
  ghost predicate Parts(vs: seq<nat>, bits: seq<nat>) {
    |bits| == |vs| && forall i | 0 <= i < |vs| :: 8 <= bits[i] < 0x400_0000 && vs[i] < Pow256(bits[i] / 8)
  }

  ghost predicate AllWritable(vs: seq<nat>) {
    forall v | v in vs :: Writable(Integer(v))
  }

  lemma {:induction false} SignedBytesBound(v: nat, n: nat)
    requires v < Pow256(n) && n > 0
    ensures SignedBytes(v) <= n + 1
    decreases v
  {
    if v >= 128 && n > 1 {
      DivLess(v, Pow256(n - 1));
      SignedBytesBound(v / 256, n - 1);
    }
  }

  lemma {:induction false} PartsWritable(vs: seq<nat>, bits: seq<nat>)
    requires Parts(vs, bits)
    ensures AllWritable(vs)
  {
    hide SignedBytes, Pow256;
    forall v | v in vs ensures Writable(Integer(v)) {
      var i :| 0 <= i < |vs| && vs[i] == v;
      SignedBytesBound(v, bits[i] / 8);
    }
  }

  function Integers(vs: seq<nat>): (es: seq<Element>)
    ensures |es| == |vs|
    ensures forall e | e in es :: exists v | v in vs :: e == Integer(v)
  {
    seq(|vs|, i requires 0 <= i < |vs| => Integer(vs[i]))
  }

  /** The integers one after the other. */
  ghost function Body(vs: seq<nat>): (s: seq<Byte>)
    requires AllWritable(vs)
  {
    Concat(Integers(vs))
  }

  lemma {:induction false} BodyCons(v: nat, vs: seq<nat>)
    requires AllWritable([v] + vs)
    ensures Writable(Integer(v)) && AllWritable(vs) && Body([v] + vs) == Encoding(Integer(v)) + Body(vs)
  {
    hide Integer, Encoding;
    assert v in [v] + vs && forall x | x in vs :: x in [v] + vs;
    assert ([v] + vs)[1..] == vs;
    assert Integers([v] + vs)[1..] == Integers(vs);
  }

  lemma {:induction false} BodyNothing()
    ensures Body([]) == []
  {
  }

  /** Going from the last integer to the first: those for which write_int finds room. */
  ghost function Fitting(vs: seq<nat>, bsize: nat): (fit: seq<nat>)
    requires AllWritable(vs)
    ensures AllWritable(fit)
  {
    if vs == [] then []
    else
      var rest := Fitting(vs[1..], bsize);
      if SignedBytes(vs[0]) + 4 + |Body(rest)| < bsize then [vs[0]] + rest else rest
  }

  lemma {:induction false} FittingFits(vs: seq<nat>, bits: seq<nat>, bsize: nat)
    requires Parts(vs, bits)
    ensures AllWritable(vs) && |Body(Fitting(vs, bsize))| <= bsize
    decreases |vs|
  {
    hide SignedBytes, Concat, Pow256, LengthBytes, Digits;
    PartsWritable(vs, bits);
    if vs == [] {
      BodyNothing();
    } else {
      FittingFits(vs[1..], bits[1..], bsize);
      var rest := Fitting(vs[1..], bsize);
      SignedBytesBound(vs[0], bits[0] / 8);
      HeaderFits(SignedBytes(vs[0]));
      if SignedBytes(vs[0]) + 4 + |Body(rest)| < bsize {
        BodyCons(vs[0], rest);
      }
    }
  }

  /** With room for all of them and five bytes more, none is left out. */
  lemma {:induction false} AllFit(vs: seq<nat>, bsize: nat)
    requires AllWritable(vs) && |Body(vs)| + 5 < bsize
    ensures Fitting(vs, bsize) == vs
    decreases |vs|
  {
    hide SignedBytes, Concat, Digits;
    if vs != [] {
      assert vs == [vs[0]] + vs[1..];
      BodyCons(vs[0], vs[1..]);
      AllFit(vs[1..], bsize);
    }
  }

  lemma {:induction false} FittingNothing(bsize: nat)
    ensures Fitting([], bsize) == []
  {
  }

  lemma {:induction false} FittingStep(vs: seq<nat>, i: nat, bsize: nat)
    requires AllWritable(vs) && i < |vs| && AllWritable(vs[i + 1..]) && AllWritable(vs[i..])
    ensures Writable(Integer(vs[i])) && |Encoding(Integer(vs[i]))| > 0
    ensures var rest := Body(Fitting(vs[i + 1..], bsize));
            Body(Fitting(vs[i..], bsize)) ==
            if SignedBytes(vs[i]) + 4 + |rest| < bsize then Encoding(Integer(vs[i])) + rest else rest
  {
    hide SignedBytes, Body, Digits;
    assert vs[i..][1..] == vs[i + 1..];
    var rest := Fitting(vs[i + 1..], bsize);
    if SignedBytes(vs[i]) + 4 + |Body(rest)| < bsize {
      BodyCons(vs[i], rest);
    }
  }

  ghost predicate SequenceWritable(vs: seq<nat>) {
    AllWritable(vs) && (forall e | e in Integers(vs) :: Writable(e)) && Writable(Sequence(Integers(vs)))
  }

  lemma {:induction false} SequenceIs(vs: seq<nat>)
    requires AllWritable(vs) && |Body(vs)| < 0x8000_0000
    ensures SequenceWritable(vs)
    ensures Encoding(Sequence(Integers(vs))) == [SEQUENCE + CONSTRUCTED] + LengthBytes(|Body(vs)|) + Body(vs)
  {
    hide Concat, LengthBytes, Integer;
  }

  /** The sequence of integers, written from the last to the first and then given its header, as
      wp_rsa_write_key_to_bytes does with the parts of a key.  An integer without room is left out.  Not
      inside where the header would be written in front of the buffer. */
  method WriteSequence(buffer: array<Byte>, bsize: nat, vs: seq<nat>, bits: seq<nat>) returns (inside: bool, written: nat)
    requires Parts(vs, bits) && AllWritable(vs) && bsize <= buffer.Length && bsize < 0x8000_0000
    modifies buffer
    ensures var fit := Fitting(vs, bsize);
            && SequenceWritable(fit) && |Body(fit)| <= bsize
            && (inside <==> LowestIndex(bsize - |Body(fit)|, |Body(fit)|) >= 0)
            && var s := Encoding(Sequence(Integers(fit)));
               && (inside ==> written == if |s| <= bsize then |s| else |Body(fit)|)
               && (inside && |s| <= bsize ==> EndsWith(old(buffer[..]), buffer[..], bsize, s))
  {
    hide EndsWith, SignedBytes, LengthBytes, Pow256, Encoding, Integer, Body, Fitting, Sequence, LowestIndex;
    ghost var b0 := buffer[..];
    EndsWithNothing(b0, bsize);
    BodyNothing();
    FittingNothing(bsize);
    written := 0;
    var i := |vs|;
    assert vs[i..] == [];
    while i > 0
      invariant i <= |vs| && written <= bsize
      invariant EndsWith(b0, buffer[..], bsize, Body(Fitting(vs[i..], bsize)))
      invariant written == |Body(Fitting(vs[i..], bsize))|
    {
      i := i - 1;
      FittingStep(vs, i, bsize);
      FittingFits(vs[i..], bits[i..], bsize);
      ghost var b1, rest := buffer[..], Body(Fitting(vs[i + 1..], bsize));
      var more := WriteInt(buffer, bsize - written, vs[i], bits[i]);
      if more > 0 {
        EndsWithTwice(b0, b1, buffer[..], bsize, Encoding(Integer(vs[i])), rest);
      }
      written := written + more;
    }
    assert vs[0..] == vs;
    FittingFits(vs, bits, bsize);
    SequenceIs(Fitting(vs, bsize));
    ghost var b1, body := buffer[..], Body(Fitting(vs, bsize));
    var more;
    inside, more := WriteIdLen(buffer, bsize - written, SEQUENCE, written, true);
    if !inside {
      return;
    }
    if more > 0 {
      EndsWithTwice(b0, b1, buffer[..], bsize, [SEQUENCE + CONSTRUCTED] + LengthBytes(written), body);
    }
    written := written + more;
  }

  lemma {:induction false} HeaderFits(n: Size)
    ensures |LengthBytes(n)| <= 5 && (n < 0x100_0000 ==> |LengthBytes(n)| <= 4)
  {
    LengthFits(n);
    ByteCountSmall(n);
  }

  /** asn1_read_seq: the size of the sequence or 0, the number of its elements, and the position of one of
      them, which stays 0 if there is none with that number. */
  method ReadSequenceHeader(data: seq<Byte>, specific: int) returns (size: nat, count: nat, position: nat)
    ensures match ReadSeq(data)
            case None => size == 0 && count == 0
            case Some((n, at)) =>
              size == n && count == |at| && position == if 0 <= specific < |at| then at[specific] else 0
  {
    hide ReadLength;
    size, count, position := 0, 0, 0;
    if data == [] || data[0] % 32 != SEQUENCE {
      return;
    }
    var header := ReadLength(data[1..]);
    if header.None? {
      return;
    }
    var end := 1 + header.value.1 + header.value.0;
    if end > |data| {
      return;
    }
    var pos, i := 1 + header.value.1, 0;
    ghost var at: seq<nat> := [];
    PrependNothing(Walk(data, end, pos));
    while true
      invariant pos <= end <= |data| && i == |at|
      invariant Walk(data, end, 1 + header.value.1) == Prepend(at, Walk(data, end, pos))
      invariant position == if 0 <= specific < |at| then at[specific] else 0
      decreases end - pos
    {
      var e := if pos + 1 > end then None else ReadLength(data[pos + 1..end]);
      if e.None? || pos + e.value.0 + e.value.1 + 1 > end {
        return 0, 0, position;
      }
      if specific == i {
        position := pos;
      }
      WalkStep(at, data, end, pos);
      at := at + [pos];
      pos := pos + e.value.0 + e.value.1 + 1;
      i := i + 1;
      if pos == end {
        return end, i, position;
      }
    }
  }

  function Prepend(at: seq<nat>, r: Option<seq<nat>>): (r': Option<seq<nat>>) {
    if r.None? then None else Some(at + r.value)
  }

  lemma {:induction false} WalkStep(at: seq<nat>, data: seq<Byte>, end: nat, pos: nat)
    requires end <= |data| && pos + 1 <= end && ReadLength(data[pos + 1..end]).Some?
    ensures var e := ReadLength(data[pos + 1..end]).value;
            var next := pos + 1 + e.1 + e.0;
            && (next == end ==> Prepend(at, Walk(data, end, pos)) == Some(at + [pos]))
            && (next < end ==> Prepend(at, Walk(data, end, pos)) == Prepend(at + [pos], Walk(data, end, next)))
            && (next > end ==> Walk(data, end, pos).None?)
  {
    hide ReadLength;
    var e := ReadLength(data[pos + 1..end]).value;
    var next := pos + 1 + e.1 + e.0;
    if next < end && Walk(data, end, next).Some? {
      var more := Walk(data, end, next).value;
      assert at + ([pos] + more) == at + [pos] + more;
    }
  }

  lemma {:induction false} PrependNothing(r: Option<seq<nat>>)
    ensures Prepend([], r) == r
  {
    if r.Some? {
      assert [] + r.value == r.value;
    }
  }
}
