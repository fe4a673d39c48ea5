/**
 The base64 text of a key: section 4 of RFC 4648, with a newline after each 64 characters and at the
 end.  The encoder works in one buffer, in which the data is at the end and the text grows from the
 front; the decoder may write over its input.
 */
module Base64 {
  import opened Base

  const PADDING := 64
  const IGNORE := 65
  const DONE := 66

  const NEWLINE: Byte := 10
  const EQUALS: Byte := 61

  type Six = n: nat | n < 64

  /** b64_next */
  function Value(c: Byte): (v: nat) {
    if 65 <= c <= 90 then c - 65
    else if 97 <= c <= 122 then c - 97 + 26
    else if 48 <= c <= 57 then c - 48 + 52
    else if c == 43 then 62
    else if c == 47 then 63
    else if c == EQUALS then PADDING
    else if c == 45 then DONE
    else IGNORE
  }

  /** b64_encode_bits */
  function Letter(bits: Six): (c: Byte)
    ensures Value(c) == bits
  {
    if bits < 26 then bits + 65
    else if bits < 52 then bits - 26 + 97
    else if bits < 62 then bits - 52 + 48
    else if bits == 62 then 43
    else 47
  }

  // ---------------------------------------------------------------------------
  // The reference encoding
  // ---------------------------------------------------------------------------

  /** Three bytes as one number of 24 bits, and its four digits of six bits. */
  function Group(a: Byte, b: Byte, c: Byte): (t: seq<Byte>)
    ensures |t| == 4
  {
    var n := 0x1_0000 * a + 0x100 * b + c;
    [Letter(n / 0x4_0000), Letter(n / 0x1000 % 64), Letter(n / 64 % 64), Letter(n % 64)]
  }

  function Encode(s: seq<Byte>): (t: seq<Byte>) {
    if |s| == 0 then []
    else if |s| == 1 then Group(s[0], 0, 0)[..2] + [EQUALS, EQUALS]
    else if |s| == 2 then Group(s[0], s[1], 0)[..3] + [EQUALS]
    else Group(s[0], s[1], s[2]) + Encode(s[3..])
  }

  lemma {:induction false} EncodeSize(s: seq<Byte>)
    ensures |Encode(s)| == (|s| + 2) / 3 * 4
    ensures |Encode(s)| % 4 == 0
    decreases |s|
  {
    hide Group;
    if |s| >= 3 {
      EncodeSize(s[3..]);
    }
  }

  const LINE := 64

  /** A newline after each full line. */
  function FullLines(t: seq<Byte>): (r: seq<Byte>) {
    if |t| < LINE then t else t[..LINE] + [NEWLINE] + FullLines(t[LINE..])
  }

  /** And one after the last line. */
  function Lines(t: seq<Byte>): (r: seq<Byte>) {
    FullLines(t) + if |t| % LINE == 0 then [] else [NEWLINE]
  }

  lemma {:induction false} OneLineLess(n: nat)
    requires n >= LINE
    ensures n % LINE == (n - LINE) % LINE && n / LINE == (n - LINE) / LINE + 1
  {
    DivModUnique(n, 64, (n - 64) / 64 + 1, (n - 64) % 64);
  }

  lemma {:induction false} FullLinesSize(t: seq<Byte>)
    ensures |FullLines(t)| == |t| + |t| / LINE
    decreases |t|
  {
    if |t| >= LINE {
      OneLineLess(|t|);
      FullLinesSize(t[LINE..]);
    }
  }

  /** The line in front stays as it is when something is appended. */
  lemma {:induction false} FirstLine(t: seq<Byte>, g: seq<Byte>)
    requires |t| >= LINE
    ensures FullLines(t + g) == t[..LINE] + [NEWLINE] + FullLines(t[LINE..] + g)
    ensures FullLines(t) == t[..LINE] + [NEWLINE] + FullLines(t[LINE..])
  {
    assert (t + g)[LINE..] == t[LINE..] + g;
    assert (t + g)[..LINE] == t[..LINE];
  }

  /** A line that becomes full is ended. */
  lemma {:induction false} LastLine(t: seq<Byte>)
    requires |t| == LINE
    ensures FullLines(t) == t + [NEWLINE]
  {
    assert t[LINE..] == [] && t[..LINE] == t;
    assert FullLines([]) == [];
  }

  lemma {:induction false} FullLinesAppend(t: seq<Byte>, g: seq<Byte>)
    requires |t| % 4 == 0 && |g| == 4
    ensures FullLines(t + g) == FullLines(t) + g + if (|t| + 4) % LINE == 0 then [NEWLINE] else []
    decreases |t|
  {
    if |t| >= LINE {
      hide FullLines;
      var u, end := t[LINE..], if (|t| + 4) % LINE == 0 then [NEWLINE] else [];
      OneLineLess(|t| + 4);
      FullLinesAppend(u, g);
      FirstLine(t, g);
      Regrouped(t[..LINE] + [NEWLINE], FullLines(u), g, end);
    } else if |t| == LINE - 4 {
      LastLine(t + g);
    }
  }

  lemma {:induction false} Regrouped(a: seq<Byte>, b: seq<Byte>, c: seq<Byte>, d: seq<Byte>)
    ensures a + (b + c + d) == a + b + c + d && a + (b + c) == a + b + c
  {
  }

  /** The group in front stays as it is when something is appended. */
  lemma {:induction false} FirstGroup(s: seq<Byte>, r: seq<Byte>)
    requires |s| >= 3
    ensures Encode(s + r) == Group(s[0], s[1], s[2]) + Encode(s[3..] + r)
    ensures Encode(s) == Group(s[0], s[1], s[2]) + Encode(s[3..])
  {
    hide Group;
    assert (s + r)[3..] == s[3..] + r;
  }

  lemma {:induction false} EncodeAppend(s: seq<Byte>, r: seq<Byte>)
    requires |s| % 3 == 0
    ensures Encode(s + r) == Encode(s) + Encode(r)
    decreases |s|
  {
    if s == [] {
      assert s + r == r;
    } else {
      hide Encode, Group;
      EncodeAppend(s[3..], r);
      FirstGroup(s, r);
      Regrouped(Group(s[0], s[1], s[2]), Encode(s[3..]), Encode(r), []);
    }
  }

  // ---------------------------------------------------------------------------
  // The encoder
  // ---------------------------------------------------------------------------

  /** The characters that the encoder has written of the unfinished group after `i` bytes. */
  function Partial(s: seq<Byte>, i: nat): (t: seq<Byte>)
    requires i <= |s|
    ensures |t| == i % 3
  {
    if i % 3 == 0 then []
    else if i % 3 == 1 then [Letter(s[i - 1] / 4)]
    else [Letter(s[i - 2] / 4), Letter(s[i - 2] % 4 * 16 + s[i - 1] / 16)]
  }

  /** All that the encoder has written after `i` bytes. */
  function Progress(s: seq<Byte>, i: nat): (t: seq<Byte>)
    requires i <= |s|
  {
    FullLines(Encode(s[..i - i % 3])) + Partial(s, i)
  }

  /** The characters since the last newline. */
  function LineLength(i: nat): (n: nat) {
    i / 3 % 16 * 4 + i % 3
  }

  lemma {:induction false} ProgressOne(s: seq<Byte>, i: nat)
    requires i < |s|
    ensures i % 3 == 0 ==> Progress(s, i + 1) == Progress(s, i) + [Letter(s[i] / 4)]
    ensures i % 3 == 1 ==> Progress(s, i + 1) == Progress(s, i) + [Letter(s[i - 1] % 4 * 16 + s[i] / 16)]
  {
    hide Letter, Encode, FullLines;
    if i % 3 < 2 {
      assert i + 1 - (i + 1) % 3 == i - i % 3;
    }
  }

  lemma {:induction false} GroupIs(a: Byte, b: Byte, c: Byte)
    ensures Group(a, b, c) == [Letter(a / 4), Letter(a % 4 * 16 + b / 16), Letter(b % 16 * 4 + c / 64), Letter(c % 64)]
  {
    hide Letter;
    var n := 0x1_0000 * a + 0x100 * b + c;
    DivModUnique(n, 0x4_0000, a / 4, a % 4 * 0x1_0000 + 0x100 * b + c);
    DivModUnique(n, 0x1000, 16 * a + b / 16, b % 16 * 0x100 + c);
    DivModUnique(16 * a + b / 16, 64, a / 4, a % 4 * 16 + b / 16);
    DivModUnique(n, 64, 1024 * a + 4 * b + c / 64, c % 64);
    DivModUnique(1024 * a + 4 * b + c / 64, 64, 16 * a + b / 16, b % 16 * 4 + c / 64);
  }

  lemma {:induction false} ProgressGroup(s: seq<Byte>, i: nat)
    requires i < |s| && i % 3 == 2
    ensures Progress(s, i + 1) ==
            Progress(s, i) + [Letter(s[i - 1] % 16 * 4 + s[i] / 64), Letter(s[i] % 64)]
            + if LineLength(i) + 2 == LINE then [NEWLINE] else []
  {
    hide FullLines, Encode, Letter, Group, LineLength, Progress;
    var g := s[..i - 2];
    var e, q := Encode(g), Group(s[i - 2], s[i - 1], s[i]);
    GroupIs(s[i - 2], s[i - 1], s[i]);
    LineEnd(i);
    ProgressAtTwo(s, i);
    ProgressWhole(s, i + 1);
    assert s[..i + 1] == g + s[i - 2..i + 1];
    EncodeAppend(g, s[i - 2..i + 1]);
    EncodeThree(s[i - 2..i + 1]);
    EncodeSize(g);
    FullLinesAppend(e, q);
    assert q == q[..2] + [Letter(s[i - 1] % 16 * 4 + s[i] / 64), Letter(s[i] % 64)];
  }

  lemma {:induction false} ProgressWhole(s: seq<Byte>, i: nat)
    requires i <= |s| && i % 3 == 0
    ensures Progress(s, i) == FullLines(Encode(s[..i]))
  {
    hide FullLines, Encode;
  }

  lemma {:induction false} ProgressAtTwo(s: seq<Byte>, i: nat)
    requires i <= |s| && i % 3 == 2
    ensures i + 1 <= |s| ==> (i + 1) % 3 == 0
    ensures Progress(s, i) ==
            FullLines(Encode(s[..i - 2])) + [Letter(s[i - 2] / 4), Letter(s[i - 2] % 4 * 16 + s[i - 1] / 16)]
  {
    hide FullLines, Encode, Letter;
  }

  /** Sixteen groups make a line. */
  lemma {:induction false} GroupsOfLine(q: nat)
    ensures q * 4 % LINE == q % 16 * 4
  {
    DivModUnique(q * 4, 64, q / 16, q % 16 * 4);
  }

  lemma {:induction false} LineEnd(i: nat)
    requires i % 3 == 2
    ensures LineLength(i) + 2 == LINE <==> (i / 3 * 4 + 4) % LINE == 0
    ensures (i - 2 + 2) / 3 == i / 3 && (i - 2) % 3 == 0
  {
    GroupsOfLine(i / 3 + 1);
    NextGroup(i / 3);
  }

  lemma {:induction false} NextGroup(q: nat)
    ensures (q + 1) % 16 == if q % 16 == 15 then 0 else q % 16 + 1
  {
  }

  lemma {:induction false} EncodeThree(s: seq<Byte>)
    requires |s| == 3
    ensures Encode(s) == Group(s[0], s[1], s[2])
  {
    hide Group;
    assert Encode(s[3..]) == [];
  }

  /** What is written after the loop. */
  function Tail(s: seq<Byte>): (t: seq<Byte>) {
    var n := |s|;
    (if n % 3 == 1 then [Letter(s[n - 1] % 4 * 16), EQUALS, EQUALS]
     else if n % 3 == 2 then [Letter(s[n - 1] % 16 * 4), EQUALS]
     else []) + if LineLength(n) != 0 then [NEWLINE] else []
  }

  lemma {:induction false} ProgressEnds(s: seq<Byte>)
    ensures Progress(s, |s|) + Tail(s) == Lines(Encode(s))
  {
    hide FullLines, Encode, Letter, Group, LineLength, Tail, Lines;
    var n := |s|;
    var g, r := s[..n - n % 3], s[n - n % 3..];
    assert s == g + r;
    assert |g| % 3 == 0;
    EncodeAppend(g, r);
    EncodeRest(r);
    EncodeSize(g);
    LineTotals(n);
    if n % 3 == 0 {
      assert Encode(s) == Encode(g) && Partial(s, n) == [];
      EndsWhole(s, Encode(g));
    } else {
      FullLinesAppend(Encode(g), Encode(r));
      EndsPartial(s, Encode(g), Encode(r));
    }
  }

  lemma {:induction false} EndsWhole(s: seq<Byte>, e: seq<Byte>)
    requires |s| % 3 == 0 && |e| == |s| / 3 * 4
    ensures FullLines(e) + Tail(s) == Lines(e)
  {
    hide FullLines;
    GroupsOfLine(|s| / 3);
  }

  lemma {:induction false} EndsPartial(s: seq<Byte>, e: seq<Byte>, q: seq<Byte>)
    requires |s| % 3 != 0 && |e| == |s| / 3 * 4 && |q| == 4
    requires FullLines(e + q) == FullLines(e) + q + if (|e| + 4) % LINE == 0 then [NEWLINE] else []
    requires q[..|s| % 3] == Partial(s, |s|)
    requires q[|s| % 3..] == if |s| % 3 == 1 then [Letter(s[|s| - 1] % 4 * 16), EQUALS, EQUALS]
                             else [Letter(s[|s| - 1] % 16 * 4), EQUALS]
    ensures FullLines(e) + Partial(s, |s|) + Tail(s) == Lines(e + q)
  {
    hide FullLines, Letter;
    var k := |s| % 3;
    assert q == q[..k] + q[k..];
    assert Tail(s) == q[k..] + [NEWLINE];
    assert Lines(e + q) == FullLines(e) + q + [NEWLINE];
  }

  lemma {:induction false} EncodeRest(r: seq<Byte>)
    requires |r| < 3
    ensures |r| == 0 ==> Encode(r) == []
    ensures |r| == 1 ==> Encode(r) == [Letter(r[0] / 4), Letter(r[0] % 4 * 16), EQUALS, EQUALS]
    ensures |r| == 2 ==> Encode(r) == [Letter(r[0] / 4), Letter(r[0] % 4 * 16 + r[1] / 16), Letter(r[1] % 16 * 4), EQUALS]
  {
    hide Letter, Group;
    if |r| == 1 {
      GroupIs(r[0], 0, 0);
    } else if |r| == 2 {
      GroupIs(r[0], r[1], 0);
    }
  }

  lemma {:induction false} LineTotals(n: nat)
    ensures n % 3 == 0 ==> (LineLength(n) == 0 <==> n / 3 * 4 % LINE == 0)
    ensures n % 3 != 0 ==> LineLength(n) != 0
    ensures (n - n % 3 + 2) / 3 * 4 == n / 3 * 4
  {
    GroupsOfLine(n / 3);
  }

  /** The length of the text. */
  function TextSize(n: nat): (t: nat) {
    var c := (n + 2) / 3 * 4;
    c + (c + LINE - 1) / LINE
  }

  lemma {:induction false} TextSizeIs(s: seq<Byte>)
    ensures |Lines(Encode(s))| == TextSize(|s|)
  {
    hide Encode, FullLines;
    EncodeSize(s);
    FullLinesSize(Encode(s));
    NewlineCount(|Encode(s)|);
  }

  lemma {:induction false} NewlineCount(c: nat)
    ensures (c + LINE - 1) / LINE == c / LINE + if c % LINE == 0 then 0 else 1
  {
    if c % 64 == 0 {
      DivModUnique(c + 63, 64, c / 64, 63);
    } else {
      DivModUnique(c + 63, 64, c / 64 + 1, c % 64 - 1);
    }
  }

  /** The test that the size computation at the start is meant to make. */
  predicate EnoughAsIntended(n: nat, bsize: nat) {
    (n + 2) * 4 / 3 + n / 32 + 5 <= bsize
  }

  lemma {:induction false} IntendedIsEnough(n: nat, bsize: nat)
    requires EnoughAsIntended(n, bsize)
    ensures TextSize(n) < bsize
  {
    var c := (n + 2) / 3 * 4;
    assert c <= (n + 2) * 4 / 3;
    assert (c + LINE - 1) / LINE <= n / 32 + 2;
  }

  lemma {:induction false} ProgressFits(s: seq<Byte>, i: nat)
    requires i <= |s|
    ensures |Progress(s, i)| + (|s| - i) <= TextSize(|s|)
    decreases |s| - i
  {
    hide Progress, Tail, Letter, TextSize, Encode, Lines;
    if i == |s| {
      ProgressEnds(s);
      TextSizeIs(s);
    } else {
      ProgressFits(s, i + 1);
      ProgressOne(s, i);
      if i % 3 == 2 {
        ProgressGroup(s, i);
      }
    }
  }

  /** Where the encoder puts the null character after the text, found by following its index arithmetic;
      the loop also stops when it has filled the buffer. */
  function NulIndex(n: nat, bsize: nat, i: nat, written: nat, wline: nat): (k: nat)
    decreases n - i
  {
    if i < n && written < bsize then
      var more := if i % 3 == 2 then 2 else 1;
      if wline + more >= LINE then NulIndex(n, bsize, i + 1, written + more + 1, 0)
      else NulIndex(n, bsize, i + 1, written + more, wline + more)
    else
      written + (if i % 3 == 1 then 3 else if i % 3 == 2 then 2 else 0) + (if wline != 0 then 1 else 0)
  }

  lemma {:induction false} LineGrows(i: nat)
    ensures i % 3 < 2 ==> LineLength(i + 1) == LineLength(i) + 1 < LINE
    ensures i % 3 == 2 ==> LineLength(i) + 2 <= LINE
    ensures i % 3 == 2 ==> LineLength(i + 1) == if LineLength(i) + 2 == LINE then 0 else LineLength(i) + 2
  {
    if i % 3 == 2 {
      assert (i + 1) / 3 == i / 3 + 1 && (i + 1) % 3 == 0;
      NextGroup(i / 3);
    } else {
      assert (i + 1) / 3 == i / 3 && (i + 1) % 3 == i % 3 + 1;
    }
  }

  /** What the text needs is exactly room for its characters and the null character; with less the encoder
      writes behind the buffer. */
  lemma {:induction false} StaysInBufferIff(s: seq<Byte>, bsize: nat, i: nat)
    requires i <= |s|
    ensures NulIndex(|s|, bsize, i, |Progress(s, i)|, LineLength(i)) < bsize <==> TextSize(|s|) < bsize
    decreases |s| - i
  {
    hide Progress, Letter, TextSize, Encode, Lines, LineLength;
    ProgressFits(s, i);
    if i < |s| && |Progress(s, i)| < bsize {
      StaysInBufferIff(s, bsize, i + 1);
      ProgressOne(s, i);
      LineGrows(i);
      if i % 3 == 2 {
        ProgressGroup(s, i);
      }
    } else if i == |s| {
      ProgressEnds(s);
      TextSizeIs(s);
    }
  }

  /** After `i` of the `n` data bytes: the text so far is at the front, the rest is as it was, and the
      bytes that are still to be read have not been reached. */
  ghost predicate Encoding(b0: seq<Byte>, b: seq<Byte>, n: nat, i: nat, written: nat) {
    && i <= n <= |b0| == |b| && TextSize(n) < |b0|
    && written == |Progress(b0[|b0| - n..], i)| <= |b|
    && b[..written] == Progress(b0[|b0| - n..], i) && b[written..] == b0[written..]
  }

  lemma {:induction false} StillThere(b0: seq<Byte>, b: seq<Byte>, n: nat, i: nat, written: nat)
    requires Encoding(b0, b, n, i, written)
    ensures var s, space := b0[|b0| - n..], |b0| - n;
            && |s| == n && written + (n - i) + 1 <= |b0|
            && (i < n ==> b[space + i] == s[i] && written < space + i)
            && (i % 3 != 0 ==> b[space + i - 1] == s[i - 1] && written < space + i)
  {
    hide Progress, TextSize;
    var s, space := b0[|b0| - n..], |b0| - n;
    ProgressFits(s, i);
    assert forall k | written <= k < |b| :: b[k] == b[written..][k - written] == b0[k];
  }

  /** Writing more text behind the text. */
  lemma {:induction false} Written(b0: seq<Byte>, b: seq<Byte>, n: nat, i: nat, written: nat, b': seq<Byte>, more: seq<Byte>)
    requires Encoding(b0, b, n, i, written) && i < n && |b'| == |b| && written + |more| <= |b|
    requires Progress(b0[|b0| - n..], i + 1) == Progress(b0[|b0| - n..], i) + more
    requires b'[..written] == b[..written] && b'[written..written + |more|] == more
    requires b'[written + |more|..] == b[written + |more|..]
    ensures Encoding(b0, b', n, i + 1, written + |more|)
  {
    hide Progress, TextSize;
    var w := written + |more|;
    assert b'[..w] == b'[..written] + b'[written..w];
    assert b[w..] == b[written..][|more|..] && b0[w..] == b0[written..][|more|..];
  }

  /** The letters written in the turn for byte `i`. */
  function Letters(s: seq<Byte>, i: nat): (t: seq<Byte>)
    requires i < |s|
  {
    if i % 3 == 0 then [Letter(s[i] / 4)]
    else if i % 3 == 1 then [Letter(s[i - 1] % 4 * 16 + s[i] / 16)]
    else [Letter(s[i - 1] % 16 * 4 + s[i] / 64), Letter(s[i] % 64)]
  }

  /** What is written in that turn: its letters, and a newline at the end of a line. */
  lemma {:induction false} ProgressNext(s: seq<Byte>, i: nat)
    requires i < |s|
    ensures var l := LineLength(i) + |Letters(s, i)|;
            && Progress(s, i + 1) == Progress(s, i) + Letters(s, i) + (if l >= LINE then [NEWLINE] else [])
            && LineLength(i + 1) == if l >= LINE then 0 else l
  {
    hide Progress, Letter, LineLength;
    ProgressOne(s, i);
    LineGrows(i);
    if i % 3 == 2 {
      ProgressGroup(s, i);
      Regrouped([], Progress(s, i), Letters(s, i), if LineLength(i) + 2 == LINE then [NEWLINE] else []);
    }
  }

  /** The branches of the loop of b64_encode: the letters for byte `i`, whose place is `at`. */
  method WriteLetters(buffer: array<Byte>, at: nat, ghost s: seq<Byte>, i: nat, written0: nat) returns (written: nat)
    requires i < |s| && at < buffer.Length && buffer[at] == s[i]
    requires i % 3 != 0 ==> at > 0 && buffer[at - 1] == s[i - 1]
    requires written0 + |Letters(s, i)| <= buffer.Length
    requires i % 3 == 2 ==> written0 < at
    modifies buffer
    ensures written == written0 + |Letters(s, i)|
    ensures buffer[written0..written] == Letters(s, i)
    ensures buffer[..written0] == old(buffer[..written0]) && buffer[written..] == old(buffer[written..])
  {
    hide Letter;
    written := written0;
    var bits;
    if i % 3 == 0 {
      bits := buffer[at] / 4;
    } else if i % 3 == 1 {
      bits := buffer[at - 1] % 4 * 16 + buffer[at] / 16;
    } else {
      buffer[written] := Letter(buffer[at - 1] % 16 * 4 + buffer[at] / 64);
      written := written + 1;
      bits := buffer[at] % 64;
    }
    buffer[written] := Letter(bits);
    written := written + 1;
  }

  /** A byte written behind what was written between `from` and `to`. */
  lemma {:induction false} OneMoreByte(b: seq<Byte>, b1: seq<Byte>, from: nat, to: nat, x: Byte)
    requires from <= to < |b| == |b1| && b1[..from] == b[..from] && b1[to..] == b[to..]
    ensures var b2 := b1[to := x];
            b2[..from] == b[..from] && b2[from..to + 1] == b1[from..to] + [x] && b2[to + 1..] == b[to + 1..]
  {
    assert b1[to + 1..] == b1[to..][1..] && b[to + 1..] == b[to..][1..];
  }

  /** One turn of the loop of b64_encode. */
  method EncodeByte(buffer: array<Byte>, ghost b0: seq<Byte>, dsize: nat, i: nat, written0: nat, wline0: nat)
    returns (written: nat, wline: nat)
    requires Encoding(b0, buffer[..], dsize, i, written0) && i < dsize && wline0 == LineLength(i)
    modifies buffer
    ensures Encoding(b0, buffer[..], dsize, i + 1, written) && wline == LineLength(i + 1)
  {
    hide Progress, Letters, TextSize, LineLength, Encoding;
    var space := buffer.Length - dsize;
    EncodingFits(b0, buffer[..], dsize, i, written0);
    ghost var s, b := b0[|b0| - dsize..], buffer[..];
    StillThere(b0, b, dsize, i, written0);
    ProgressNext(s, i);
    ProgressFits(s, i + 1);
    written := WriteLetters(buffer, space + i, s, i, written0);
    wline := wline0 + (written - written0);
    if wline >= LINE {
      OneMoreByte(b, buffer[..], written0, written, NEWLINE);
      buffer[written] := NEWLINE;
      written := written + 1;
      wline := 0;
    }
    Written(b0, b, dsize, i, written0, buffer[..], buffer[written0..written]);
  }

  lemma {:induction false} EncodingFits(b0: seq<Byte>, b: seq<Byte>, n: nat, i: nat, written: nat)
    requires Encoding(b0, b, n, i, written)
    ensures i <= n <= |b0| == |b| && TextSize(n) < |b0| && written == |Progress(b0[|b0| - n..], i)| <= |b|
  {
  }

  /** The end of b64_encode. */
  method EncodeTail(buffer: array<Byte>, ghost b0: seq<Byte>, dsize: nat, written0: nat, wline: nat) returns (written: nat)
    requires Encoding(b0, buffer[..], dsize, dsize, written0) && wline == LineLength(dsize)
    modifies buffer
    ensures written == TextSize(dsize) < buffer.Length == |b0|
    ensures buffer[..written] == Lines(Encode(b0[|b0| - dsize..])) && buffer[written] == 0
  {
    hide Progress, Letter, TextSize, Encode, Lines, LineLength, Encoding;
    var space := buffer.Length - dsize;
    EncodingFits(b0, buffer[..], dsize, dsize, written0);
    ghost var s, b := b0[|b0| - dsize..], buffer[..];
    StillThere(b0, b, dsize, dsize, written0);
    ProgressEnds(s);
    TextSizeIs(s);
    assert b[..written0] == Progress(s, dsize) by {
      EncodingText(b0, b, dsize, dsize, written0);
    }
    written := written0;
    if dsize % 3 == 1 {
      buffer[written], buffer[written + 1], buffer[written + 2] := Letter(buffer[space + dsize - 1] % 4 * 16), EQUALS, EQUALS;
      written := written + 3;
    } else if dsize % 3 == 2 {
      buffer[written], buffer[written + 1] := Letter(buffer[space + dsize - 1] % 16 * 4), EQUALS;
      written := written + 2;
    }
    if wline != 0 {
      buffer[written] := NEWLINE;
      written := written + 1;
    }
    assert buffer[written0..written] == Tail(s);
    buffer[written] := 0;
    assert buffer[..written] == b[..written0] + buffer[written0..written];
  }

  lemma {:induction false} EncodingText(b0: seq<Byte>, b: seq<Byte>, n: nat, i: nat, written: nat)
    requires Encoding(b0, b, n, i, written)
    ensures i <= n <= |b0| && written <= |b| && b[..written] == Progress(b0[|b0| - n..], i)
  {
  }

  /** b64_encode: the data is the last `dsize` bytes of the buffer. */
  method EncodeBuffer(buffer: array<Byte>, dsize: nat) returns (written: nat)
    requires dsize <= buffer.Length
    requires buffer.Length == 0 || TextSize(dsize) < buffer.Length
    modifies buffer
    ensures buffer.Length > 0 ==>
              && written == TextSize(dsize)
              && buffer[..written] == Lines(Encode(old(buffer[buffer.Length - dsize..])))
              && buffer[written] == 0
    ensures buffer.Length == 0 ==> written == 0
  {
    hide Progress, TextSize, Encode, Lines, LineLength;
    if buffer.Length == 0 {
      return 0;
    }
    ghost var b0 := buffer[..];
    assert b0[|b0| - dsize..] == buffer[buffer.Length - dsize..];
    written := 0;
    var wline, i := 0, 0;
    ProgressStarts(b0[|b0| - dsize..]);
    while i < dsize && written < buffer.Length
      invariant Encoding(b0, buffer[..], dsize, i, written) && wline == LineLength(i)
    {
      written, wline := EncodeByte(buffer, b0, dsize, i, written, wline);
      i := i + 1;
    }
    StillThere(b0, buffer[..], dsize, i, written);
    written := EncodeTail(buffer, b0, dsize, written, wline);
  }

  lemma {:induction false} ProgressStarts(s: seq<Byte>)
    ensures Progress(s, 0) == [] && LineLength(0) == 0
  {
    assert s[..0] == [];
    assert Encode([]) == [] && FullLines([]) == [];
  }

  // ---------------------------------------------------------------------------
  // The decoder
  // ---------------------------------------------------------------------------

  /** What the decoder keeps between characters: the bytes written, how many characters of a group were
      read, and the bits of the last one that belong to the next byte. */
  datatype Decoder = Decoder(out: seq<Byte>, state: nat, carry: Byte)

  /** One turn of the decoder's loop. */
  function DecodeChar(d: Decoder, c: Byte, room: nat): (d': Decoder) {
    var v := Value(c);
    var next := (d.state + 1) % 4;
    if |d.out| >= room || v > PADDING then d
    else if v == PADDING then d.(state := next)
    else if d.state == 0 then Decoder(d.out, next, v * 4)
    else if d.state == 1 then Decoder(d.out + [Or(d.carry, v / 16)], next, v * 16 % 256)
    else if d.state == 2 then Decoder(d.out + [Or(d.carry, v / 4)], next, v * 64 % 256)
    else d.(out := d.out + [Or(d.carry, v)], state := next)
  }

  function DecodeAll(d: Decoder, t: seq<Byte>, room: nat): (d': Decoder) {
    if t == [] then d else DecodeChar(DecodeAll(d, t[..|t| - 1], room), t[|t| - 1], room)
  }

  const START := Decoder([], 0, 65)

  /** b64_decode */
  function Decode(t: seq<Byte>, room: nat): (s: seq<Byte>) {
    DecodeAll(START, t, room).out
  }

  lemma {:induction false} DecodeConcat(d: Decoder, a: seq<Byte>, b: seq<Byte>, room: nat)
    ensures DecodeAll(d, a + b, room) == DecodeAll(DecodeAll(d, a, room), b, room)
    decreases |b|
  {
    hide DecodeChar;
    if b == [] {
      assert a + b == a;
    } else {
      DecodeConcat(d, a, b[..|b| - 1], room);
      assert (a + b)[..|a + b| - 1] == a + b[..|b| - 1];
    }
  }

  lemma {:induction false} DecodeOne(d: Decoder, c: Byte, room: nat)
    ensures DecodeAll(d, [c], room) == DecodeChar(d, c, room)
  {
    hide DecodeChar;
    assert [c][..0] == [];
    assert DecodeAll(d, [], room) == d;
  }

  /** Newlines make no difference. */
  lemma {:induction false} DecodeFullLines(d: Decoder, t: seq<Byte>, room: nat)
    ensures DecodeAll(d, FullLines(t), room) == DecodeAll(d, t, room)
    decreases |t|
  {
    hide DecodeChar;
    if |t| >= LINE {
      var d1 := DecodeAll(d, t[..LINE], room);
      DecodeNewline(d1, room);
      DecodeConcat(d, t[..LINE], [NEWLINE], room);
      DecodeConcat(d, t[..LINE] + [NEWLINE], FullLines(t[LINE..]), room);
      DecodeFullLines(d1, t[LINE..], room);
      DecodeConcat(d, t[..LINE], t[LINE..], room);
      assert t == t[..LINE] + t[LINE..];
    }
  }

  lemma {:induction false} DecodeNewline(d: Decoder, room: nat)
    ensures DecodeAll(d, [NEWLINE], room) == d
  {
    DecodeOne(d, NEWLINE, room);
  }

  lemma {:induction false} DecodeLines(d: Decoder, t: seq<Byte>, room: nat)
    ensures DecodeAll(d, Lines(t), room) == DecodeAll(d, t, room)
  {
    hide DecodeAll, FullLines;
    DecodeFullLines(d, t, room);
    DecodeNewline(DecodeAll(d, t, room), room);
    DecodeConcat(d, FullLines(t), [NEWLINE], room);
    assert |t| % LINE == 0 ==> Lines(t) == FullLines(t);
  }

  function Cut(s: seq<Byte>, room: nat): (r: seq<Byte>) {
    if |s| <= room then s else s[..room]
  }

  /** The decoder is between groups, or full. */
  predicate Between(d: Decoder, room: nat) {
    |d.out| < room ==> d.state == 0
  }

  lemma {:induction false} DecodeFour(d: Decoder, p: Byte, q: Byte, r: Byte, s: Byte, room: nat)
    ensures DecodeAll(d, [p, q, r, s], room)
            == DecodeChar(DecodeChar(DecodeChar(DecodeChar(d, p, room), q, room), r, room), s, room)
  {
    hide DecodeAll, DecodeChar;
    DecodeOne(d, p, room);
    DecodeOne(DecodeAll(d, [p], room), q, room);
    DecodeConcat(d, [p], [q], room);
    DecodeOne(DecodeAll(d, [p] + [q], room), r, room);
    DecodeConcat(d, [p] + [q], [r], room);
    DecodeOne(DecodeAll(d, [p] + [q] + [r], room), s, room);
    DecodeConcat(d, [p] + [q] + [r], [s], room);
    assert [p] + [q] + [r] + [s] == [p, q, r, s];
  }

  /** A group decodes to its bytes, as far as there is room. */
  lemma {:induction false} DecodeGroup(d: Decoder, s: seq<Byte>, room: nat)
    requires Between(d, room) && |d.out| <= room && 0 < |s| <= 3
    ensures var d' := DecodeAll(d, Encode(s), room);
            d'.out == Cut(d.out + s, room) && Between(d', room)
  {
    hide DecodeAll, Letter, Group;
    var c2 := if |s| >= 2 then s[1] else 0;
    var c3 := if |s| >= 3 then s[2] else 0;
    GroupIs(s[0], c2, c3);
    var p, q := Letter(s[0] / 4), Letter(s[0] % 4 * 16 + c2 / 16);
    var r, t := if |s| >= 2 then Letter(c2 % 16 * 4 + c3 / 64) else EQUALS, if |s| >= 3 then Letter(c3 % 64) else EQUALS;
    if |s| == 3 {
      EncodeThree(s);
    }
    assert Encode(s) == [p, q, r, t];
    DecodeFour(d, p, q, r, t, room);
    DecodeBits(d, s, c2, c3, p, q, r, t, room);
  }

  lemma {:induction false} DecodeBits(d: Decoder, s: seq<Byte>, c2: Byte, c3: Byte, p: Byte, q: Byte, r: Byte, t: Byte, room: nat)
    requires Between(d, room) && |d.out| <= room && 0 < |s| <= 3
    requires c2 == (if |s| >= 2 then s[1] else 0) && c3 == if |s| >= 3 then s[2] else 0
    requires Value(p) == s[0] / 4 && Value(q) == s[0] % 4 * 16 + c2 / 16
    requires Value(r) == if |s| >= 2 then c2 % 16 * 4 + c3 / 64 else PADDING
    requires Value(t) == if |s| >= 3 then c3 % 64 else PADDING
    ensures var d' := DecodeChar(DecodeChar(DecodeChar(DecodeChar(d, p, room), q, room), r, room), t, room);
            d'.out == Cut(d.out + s, room) && Between(d', room)
  {
    hide Value, Or, Cut;
    FirstJoined(s[0], c2);
    SecondJoined(s[0], c2, c3);
    ThirdJoined(c2, c3);
    var d2 := DecodeChar(DecodeChar(d, p, room), q, room);
    assert d2 == if |d.out| < room then Decoder(d.out + [s[0]], 2, Value(q) * 16 % 256) else d;
    LastTwo(d, d2, s, c2, c3, r, t, room);
  }

  lemma {:induction false} LastTwo(d: Decoder, d2: Decoder, s: seq<Byte>, c2: Byte, c3: Byte, r: Byte, t: Byte, room: nat)
    requires Between(d, room) && |d.out| <= room && 0 < |s| <= 3
    requires |s| >= 2 ==> c2 == s[1] && Value(r) < PADDING && (|d.out| < room ==> Or(d2.carry, Value(r) / 4) == c2)
    requires |s| >= 3 ==> c3 == s[2] && Or(Value(r) * 64 % 256, Value(t)) == c3 && Value(t) < PADDING
    requires |s| < 2 ==> Value(r) == PADDING
    requires |s| < 3 ==> Value(t) == PADDING
    requires |d.out| < room ==> d2.out == d.out + [s[0]] && d2.state == 2
    requires |d.out| == room ==> d2.out == d.out
    ensures var d' := DecodeChar(DecodeChar(d2, r, room), t, room);
            d'.out == Cut(d.out + s, room) && Between(d', room)
  {
    hide Value, Or;
    var d3 := DecodeChar(d2, r, room);
    var d4 := DecodeChar(d3, t, room);
    if |d.out| < room && |s| >= 2 && |d2.out| < room {
      assert d3.out == d.out + [s[0], s[1]];
      assert |s| == 3 && |d3.out| < room ==> d4.out == d.out + [s[0], s[1], s[2]];
    }
  }

  /** The bits that the encoder put into different characters never overlap. */
  lemma {:induction false} FirstJoined(a: Byte, b: Byte)
    ensures Or(a / 4 * 4, (a % 4 * 16 + b / 16) / 16) == a
  {
    hide Or;
    PowersOfTwo();
    DivModUnique(a % 4 * 16 + b / 16, 16, a % 4, b / 16);
    OrApart(a / 4, a % 4, 2);
  }

  lemma {:induction false} SecondJoined(a: Byte, b: Byte, c: Byte)
    ensures Or((a % 4 * 16 + b / 16) * 16 % 256, (b % 16 * 4 + c / 64) / 4) == b
  {
    hide Or;
    PowersOfTwo();
    DivModUnique((a % 4 * 16 + b / 16) * 16, 256, a % 4, b / 16 * 16);
    DivModUnique(b % 16 * 4 + c / 64, 4, b % 16, c / 64);
    OrApart(b / 16, b % 16, 4);
  }

  lemma {:induction false} ThirdJoined(b: Byte, c: Byte)
    ensures Or((b % 16 * 4 + c / 64) * 64 % 256, c % 64) == c
  {
    hide Or;
    PowersOfTwo();
    DivModUnique((b % 16 * 4 + c / 64) * 64, 256, b % 16, c / 64 * 64);
    OrApart(c / 64, c % 64, 6);
  }

  lemma {:induction false} PowersOfTwo()
    ensures Pow2(2) == 4 && Pow2(4) == 16 && Pow2(6) == 64
  {
    assert Pow2(3) == 8 && Pow2(5) == 32;
  }

  /** b64_decode undoes b64_encode for every size: it restores the data, or as much as it has room for. */
  lemma {:induction false} DecodeEncode(s: seq<Byte>, room: nat)
    ensures Decode(Lines(Encode(s)), room) == Cut(s, room)
  {
    hide DecodeAll, Encode, Lines;
    DecodeLines(START, Encode(s), room);
    DecodeFrom(START, s, room);
    assert [] + s == s;
  }

  lemma {:induction false} DecodeFrom(d: Decoder, s: seq<Byte>, room: nat)
    requires Between(d, room) && |d.out| <= room
    ensures var d' := DecodeAll(d, Encode(s), room);
            d'.out == Cut(d.out + s, room) && Between(d', room)
    decreases |s|
  {
    hide DecodeChar, Group;
    if s == [] {
      assert d.out + s == d.out;
    } else if |s| <= 3 {
      DecodeGroup(d, s, room);
    } else {
      var g := s[..3];
      EncodeThree(g);
      var d1 := DecodeAll(d, Encode(g), room);
      DecodeGroup(d, g, room);
      DecodeConcat(d, Encode(g), Encode(s[3..]), room);
      DecodeFrom(d1, s[3..], room);
      assert d.out + s == d.out + g + s[3..];
    }
  }

  /** b64_decode; the result may go into the same buffer, from its front, as the text. */
  method DecodeBuffer(data: array<Byte>, dsize: nat, result: array<Byte>) returns (written: nat)
    requires dsize <= data.Length
    modifies result
    ensures written <= result.Length && result[..written] == Decode(old(data[..dsize]), result.Length)
    ensures result[written..] == old(result[written..])
  {
    hide Value, DecodeChar, DecodeAll;
    ghost var t, r := data[..dsize], result[..];
    written := 0;
    var state, carry, i := 0, 65, 0;
    DecodeNone(t, result.Length);
    while i < dsize && written < result.Length
      invariant i <= dsize && written <= i && written <= result.Length
      invariant DecodeAll(START, t[..i], result.Length) == Decoder(result[..written], state, carry)
      invariant forall k | i <= k < dsize :: data[k] == t[k]
      invariant forall k | written <= k < result.Length :: result[k] == r[k]
      decreases dsize - i
    {
      DecodeNext(START, t, i, result.Length);
      ghost var d := Decoder(result[..written], state, carry);
      var b, write;
      state, carry, write, b := OneChar(d.out, state, carry, data[i], result.Length);
      if write {
        result[written] := b;
        written := written + 1;
      }
      i := i + 1;
    }
    DecodeFull(START, t, i, result.Length);
    assert result[written..] == r[written..];
  }

  lemma {:induction false} DecodeNone(t: seq<Byte>, room: nat)
    ensures DecodeAll(START, t[..0], room) == START
  {
    assert t[..0] == [];
  }

  lemma {:induction false} DecodeNext(d: Decoder, t: seq<Byte>, i: nat, room: nat)
    requires i < |t|
    ensures DecodeAll(d, t[..i + 1], room) == DecodeChar(DecodeAll(d, t[..i], room), t[i], room)
  {
    hide DecodeChar;
    assert t[..i + 1][..i] == t[..i];
  }

  /** The body of that loop, except for the write. */
  method OneChar(ghost out: seq<Byte>, state: nat, carry: Byte, c: Byte, room: nat)
    returns (state': nat, carry': Byte, write: bool, b: Byte)
    requires |out| < room
    ensures DecodeChar(Decoder(out, state, carry), c, room)
            == Decoder(if write then out + [b] else out, state', carry')
  {
    var v := Value(c);
    state', carry', write, b := state, carry, false, 0;
    if v < PADDING {
      if state == 0 {
        carry' := v * 4;
      } else if state == 1 {
        write, b, carry' := true, Or(carry, v / 16), v * 16 % 256;
      } else if state == 2 {
        write, b, carry' := true, Or(carry, v / 4), v * 64 % 256;
      } else {
        write, b := true, Or(carry, v);
      }
      state' := (state + 1) % 4;
    } else if v == PADDING {
      state' := (state + 1) % 4;
    }
  }

  /** A full decoder stays as it is. */
  lemma {:induction false} DecodeFull(d: Decoder, t: seq<Byte>, i: nat, room: nat)
    requires i <= |t| && (i == |t| || |DecodeAll(d, t[..i], room).out| >= room)
    ensures DecodeAll(d, t, room) == DecodeAll(d, t[..i], room)
    decreases |t|
  {
    hide Value;
    if i < |t| {
      assert t[..|t| - 1][..i] == t[..i];
      DecodeFull(d, t[..|t| - 1], i, room);
    } else {
      assert t[..i] == t;
    }
  }
}
