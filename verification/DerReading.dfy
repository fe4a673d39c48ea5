/** What the reader of DER makes of any bytes whatsoever, written by the program or not. */
module DerReading {
  import opened Base
  import opened Der

  /** These bytes are a length, in the short form, or in the long form with at most three more bytes, needed or not. */
  predicate IsLength(s: seq<Byte>, n: nat) {
    s != [] && if s[0] < 128 then |s| == 1 && n == s[0] else s[0] - 128 == |s| - 1 <= 3 && n == BigEndian(s[1..])
  }

  /** A length is read exactly if the bytes begin with one. */
  lemma {:induction false} ReadLengthIs(s: seq<Byte>, n: nat, used: nat)
    ensures ReadLength(s) == Some((n, used)) <==> used <= |s| && IsLength(s[..used], n)
  {
    hide BigEndian;
    if used <= |s| && used > 0 {
      assert s[..used][1..] == s[1..used];
    }
  }

  /** A length is written as one, and in the fewest bytes. */
  lemma {:induction false} LengthIsMinimal(n: Size)
    ensures var s := LengthBytes(n);
            && (n < 128 ==> s == [n])
            && (n >= 128 ==> |s| >= 2 && s[0] == 127 + |s| && BigEndian(s[1..]) == n && s[1] != 0)
  {
    hide BigEndian, Digits, ByteCount;
    var k := ByteCount(n);
    LengthFits(n);
    if n >= 128 {
      var d := Digits(n, k);
      assert LengthBytes(n)[1..] == d;
      DigitsValue(n, k);
      ByteCountValue(n);
      DivModUnique(n, Pow256(k), 0, n);
      FirstDigit(n);
    }
  }

  lemma {:induction false} FirstDigit(n: nat)
    requires n > 0
    ensures Digits(n, ByteCount(n))[0] != 0
    decreases n
  {
    if n >= 256 {
      FirstDigit(n / 256);
    } else {
      assert Digits(n, 1) == [n];
    }
  }

  /** An element of the data starts at `pos`, with a length of `used` bytes and a content of `n`, and ends at `next`. */
  predicate ElementAt(data: seq<Byte>, pos: nat, used: nat, n: nat, next: nat) {
    pos + 1 + used <= |data| && IsLength(data[pos + 1..pos + 1 + used], n) && next == pos + 1 + used + n
  }

  /** Some element takes the places from `pos` up to `next`. */
  ghost predicate Spans(data: seq<Byte>, pos: nat, next: nat) {
    exists used: nat, n: nat :: ElementAt(data, pos, used, n, next)
  }

  /** The end of the k-th element is the start of the next one, or the end of all. */
  function EndOf(at: seq<nat>, end: nat, k: nat): (next: nat)
    requires k < |at|
  {
    if k + 1 < |at| then at[k + 1] else end
  }

  /** The elements at these positions follow each other without a gap from `pos` to `end`. */
  ghost predicate Chain(data: seq<Byte>, pos: nat, end: nat, at: seq<nat>) {
    && at != [] && at[0] == pos && end <= |data|
    && forall k | 0 <= k < |at| :: at[k] < EndOf(at, end, k) <= end && Spans(data, at[k], EndOf(at, end, k))
  }

  lemma {:induction false} ReadsElement(data: seq<Byte>, end: nat, pos: nat, used: nat, n: nat)
    requires pos + 1 <= end <= |data|
    ensures ReadLength(data[pos + 1..end]) == Some((n, used)) && pos + 1 + used + n <= end
            <==> ElementAt(data, pos, used, n, pos + 1 + used + n) && pos + 1 + used + n <= end
  {
    hide ReadLength, IsLength;
    ReadLengthIs(data[pos + 1..end], n, used);
    if pos + 1 + used <= end {
      assert data[pos + 1..end][..used] == data[pos + 1..pos + 1 + used];
    }
  }

  /** Only one element starts at a position. */
  lemma {:induction false} OneElement(data: seq<Byte>, pos: nat, used: nat, n: nat, used': nat, n': nat)
    requires ElementAt(data, pos, used, n, pos + 1 + used + n) && ElementAt(data, pos, used', n', pos + 1 + used' + n')
    ensures used == used' && n == n'
  {
    assert data[pos + 1..pos + 1 + used][0] == data[pos + 1] == data[pos + 1..pos + 1 + used'][0];
  }

  /** The walk over a sequence succeeds exactly if its elements fill it, and finds where each starts. */
  lemma {:induction false} WalkIff(data: seq<Byte>, end: nat, pos: nat, at: seq<nat>)
    requires end <= |data|
    ensures Walk(data, end, pos) == Some(at) <==> Chain(data, pos, end, at)
    decreases end - pos
  {
    hide ReadLength, ElementAt, Chain, Walk, EndOf;
    if pos + 1 > end {
      NoChain(data, pos, end, at);
      NoWalk(data, end, pos);
    } else {
      var r := ReadLength(data[pos + 1..end]);
      if r.None? || pos + 1 + r.value.1 + r.value.0 > end {
        NothingRead(data, pos, end, at);
        NoWalk(data, end, pos);
      } else {
        var n, used := r.value.0, r.value.1;
        var next := pos + 1 + used + n;
        ReadsElement(data, end, pos, used, n);
        FirstOfChain(data, pos, end, at, used, n);
        if next < end && at != [] {
          WalkIff(data, end, next, at[1..]);
        }
        WalkStep(data, end, pos, at, used, n);
      }
    }
  }

  lemma {:induction false} NoChain(data: seq<Byte>, pos: nat, end: nat, at: seq<nat>)
    requires pos + 1 > end
    ensures !Chain(data, pos, end, at)
  {
    hide Spans;
    assert at != [] ==> EndOf(at, end, 0) >= 0;
  }

  lemma {:induction false} NothingRead(data: seq<Byte>, pos: nat, end: nat, at: seq<nat>)
    requires pos + 1 <= end <= |data|
    requires var r := ReadLength(data[pos + 1..end]); r.None? || pos + 1 + r.value.1 + r.value.0 > end
    ensures !Chain(data, pos, end, at)
  {
    hide ReadLength, IsLength;
    if Chain(data, pos, end, at) {
      assert at[0] < EndOf(at, end, 0) <= end && Spans(data, pos, EndOf(at, end, 0));
      var used: nat, n: nat :| ElementAt(data, pos, used, n, EndOf(at, end, 0));
      ReadsElement(data, end, pos, used, n);
    }
  }

  /** The chain goes on behind its first element. */
  lemma {:induction false} FirstOfChain(data: seq<Byte>, pos: nat, end: nat, at: seq<nat>, used: nat, n: nat)
    requires ElementAt(data, pos, used, n, pos + 1 + used + n) && pos + 1 + used + n <= end <= |data|
    ensures var next := pos + 1 + used + n;
            Chain(data, pos, end, at) <==>
              at != [] && at[0] == pos && if next == end then |at| == 1 else Chain(data, next, end, at[1..])
  {
    hide ElementAt;
    var next := pos + 1 + used + n;
    assert Spans(data, pos, next);
    if Chain(data, pos, end, at) {
      assert at[0] < EndOf(at, end, 0) <= end && Spans(data, pos, EndOf(at, end, 0));
      SpansOnce(data, pos, used, n, EndOf(at, end, 0));
      if |at| > 1 {
        assert at[1] < EndOf(at, end, 1) <= end;
        forall k | 0 <= k < |at[1..]|
          ensures at[1..][k] < EndOf(at[1..], end, k) <= end && Spans(data, at[1..][k], EndOf(at[1..], end, k))
        {
          assert at[1..][k] == at[k + 1] && EndOf(at[1..], end, k) == EndOf(at, end, k + 1);
        }
      }
    }
    if at != [] && at[0] == pos && (if next == end then |at| == 1 else Chain(data, next, end, at[1..])) {
      forall k | 0 <= k < |at| ensures at[k] < EndOf(at, end, k) <= end && Spans(data, at[k], EndOf(at, end, k)) {
        if k > 0 {
          assert at[1..][k - 1] == at[k] && EndOf(at[1..], end, k - 1) == EndOf(at, end, k);
        }
      }
    }
  }

  lemma {:induction false} SpansOnce(data: seq<Byte>, pos: nat, used: nat, n: nat, next: nat)
    requires ElementAt(data, pos, used, n, pos + 1 + used + n) && Spans(data, pos, next)
    ensures next == pos + 1 + used + n
  {
    hide IsLength;
    var used': nat, n': nat :| ElementAt(data, pos, used', n', next);
    OneElement(data, pos, used, n, used', n');
  }

  lemma {:induction false} NoWalk(data: seq<Byte>, end: nat, pos: nat)
    requires end <= |data|
    requires pos + 1 <= end ==> var r := ReadLength(data[pos + 1..end]); r.None? || pos + 1 + r.value.1 + r.value.0 > end
    ensures Walk(data, end, pos).None?
  {
    hide ReadLength;
  }

  lemma {:induction false} WalkStep(data: seq<Byte>, end: nat, pos: nat, at: seq<nat>, used: nat, n: nat)
    requires pos + 1 <= end <= |data| && ReadLength(data[pos + 1..end]) == Some((n, used)) && pos + 1 + used + n <= end
    ensures var next := pos + 1 + used + n;
            Walk(data, end, pos) == Some(at) <==>
              at != [] && at[0] == pos && if next == end then |at| == 1 else Walk(data, end, next) == Some(at[1..])
  {
    hide ReadLength;
    var w := Walk(data, end, pos + 1 + used + n);
    if w.Some? {
      assert |[pos] + w.value| > 0 && ([pos] + w.value)[1..] == w.value;
    }
    assert [pos] != [];
    if at != [] {
      assert at == [at[0]] + at[1..];
      assert |at| == 1 && at[0] == pos <==> at == [pos];
    }
  }

  /** Any data are read as a sequence exactly if they begin with one whose elements, at least one, fill it; its size and
      the places of the elements are found. */
  lemma {:induction false} ReadSeqIff(data: seq<Byte>, size: nat, at: seq<nat>)
    ensures ReadSeq(data) == Some((size, at)) <==>
            data != [] && data[0] % 32 == 16
            && exists used: nat, n: nat :: ElementAt(data, 0, used, n, size) && Chain(data, 1 + used, size, at)
  {
    hide ReadLength, IsLength, Walk, Chain;
    if data != [] && data[0] % 32 == 16 {
      assert data[0 + 1..|data|] == data[1..];
      var r := ReadLength(data[1..]);
      if r.Some? {
        var n, used := r.value.0, r.value.1;
        ReadsElement(data, |data|, 0, used, n);
        if 1 + used + n <= |data| {
          WalkIff(data, 1 + used + n, 1 + used, at);
        }
      }
      if used: nat, n: nat :| ElementAt(data, 0, used, n, size) && Chain(data, 1 + used, size, at) {
        ChainFits(data, 1 + used, size, at);
        ReadsElement(data, |data|, 0, used, n);
        WalkIff(data, size, 1 + used, at);
      }
    }
  }

  lemma {:induction false} ChainFits(data: seq<Byte>, pos: nat, end: nat, at: seq<nat>)
    requires Chain(data, pos, end, at)
    ensures end <= |data|
  {
  }

  /** An integer at the start of the data: its content, of `n` bytes, is this number. */
  ghost predicate IntegerAt(data: seq<Byte>, used: nat, n: nat, v: nat) {
    && ElementAt(data, 0, used, n, 1 + used + n) && n <= 4 && 1 + used + n <= |data|
    && v == BigEndian(data[1 + used..1 + used + n])
  }

  /** Any data are read as a number exactly if they begin with an integer of at most four bytes, signed or not. */
  lemma {:induction false} ReadIntegerIff(data: seq<Byte>, v: nat)
    ensures ReadInt(data) == Some(v) <==>
            data != [] && data[0] % 32 == 2
            && exists used: nat, n: nat :: IntegerAt(data, used, n, v)
  {
    hide ReadLength, IsLength, BigEndian;
    if data != [] && data[0] % 32 == 2 {
      assert data[0 + 1..|data|] == data[1..];
      var r := ReadLength(data[1..]);
      if r.Some? {
        ReadsElement(data, |data|, 0, r.value.1, r.value.0);
        assert ReadInt(data) == Some(v) ==> IntegerAt(data, r.value.1, r.value.0, v);
      }
      if used: nat, n: nat :| IntegerAt(data, used, n, v) {
        ReadsElement(data, |data|, 0, used, n);
      }
    }
  }
}
