/** The base64 text as a number and character by character, and what the decoder makes of other texts. */
module Base64Texts {
  import opened Base
  import opened Base64

  /** Table 1 of RFC 4648, eight characters to a row. */
  function Row(i: nat): (row: string)
    requires i < 8
    ensures |row| == 8
  {
    match i
    case 0 => "ABCDEFGH"
    case 1 => "IJKLMNOP"
    case 2 => "QRSTUVWX"
    case 3 => "YZabcdef"
    case 4 => "ghijklmn"
    case 5 => "opqrstuv"
    case 6 => "wxyz0123"
    case 7 => "456789+/"
  }

  /** The character with a value, and the value of a character. */
  lemma {:induction false} AlphabetIs(c: Byte)
    ensures forall v: Six :: Letter(v) == Row(v / 8)[v % 8] as int
    ensures Value(c) < 64 ==> Row(Value(c) / 8)[Value(c) % 8] as int == c
    ensures Value(c) == PADDING <==> c == '=' as int
  {
    hide Row;
    forall v: Six ensures Letter(v) == Row(v / 8)[v % 8] as int {
      LetterIs(v / 8, v % 8);
    }
    if Value(c) < 64 {
      LetterOf(c);
    }
  }

  lemma {:induction false} LetterOf(c: Byte)
    requires Value(c) < 64
    ensures Letter(Value(c)) == c
  {
  }

  lemma {:induction false} LetterIs(i: nat, j: nat)
    requires i < 8 && j < 8
    ensures Letter(8 * i + j) == Row(i)[j] as int
  {
    assert j == 0 || j == 1 || j == 2 || j == 3 || j == 4 || j == 5 || j == 6 || j == 7;
    match i
    case 0 =>
    case 1 =>
    case 2 =>
    case 3 =>
    case 4 =>
    case 5 =>
    case 6 =>
    case 7 =>
  }

  // ---------------------------------------------------------------------------
  // The text as a number
  // ---------------------------------------------------------------------------

  ghost predicate AllLetters(t: seq<Byte>) {
    forall i | 0 <= i < |t| :: Value(t[i]) < 64
  }

  /** The number whose base-64 digits are the values of the characters, most significant first. */
  function Number(t: seq<Byte>): (n: nat) {
    if t == [] then 0 else Number(t[..|t| - 1]) * 64 + Value(t[|t| - 1])
  }

  lemma {:induction false} NumberMore(t: seq<Byte>, p: Byte, q: Byte, r: Byte, s: Byte)
    ensures Number(t + [p, q, r, s]) == (((Number(t) * 64 + Value(p)) * 64 + Value(q)) * 64 + Value(r)) * 64 + Value(s)
  {
    hide Value;
    NumberOne(t, p);
    NumberOne(t + [p], q);
    NumberOne(t + [p] + [q], r);
    NumberOne(t + [p] + [q] + [r], s);
    assert t + [p] + [q] + [r] + [s] == t + [p, q, r, s];
  }

  lemma {:induction false} NumberOne(t: seq<Byte>, p: Byte)
    ensures Number(t + [p]) == Number(t) * 64 + Value(p)
  {
    hide Value;
    assert (t + [p])[..|t|] == t;
  }

  lemma {:induction false} BytesMore(s: seq<Byte>, a: Byte, b: Byte, c: Byte)
    ensures BigEndian(s + [a, b, c]) == ((BigEndian(s) * 256 + a) * 256 + b) * 256 + c
  {
    BytesOne(s, a);
    BytesOne(s + [a], b);
    BytesOne(s + [a] + [b], c);
    assert s + [a] + [b] + [c] == s + [a, b, c];
  }

  lemma {:induction false} BytesOne(s: seq<Byte>, a: Byte)
    ensures BigEndian(s + [a]) == BigEndian(s) * 256 + a
  {
    assert (s + [a])[..|s|] == s;
  }

  /** Four digits of six bits are three of eight. */
  lemma {:induction false} GroupNumber(x: nat, a: Byte, b: Byte, c: Byte)
    ensures (((x * 64 + a / 4) * 64 + (a % 4 * 16 + b / 16)) * 64 + (b % 16 * 4 + c / 64)) * 64 + c % 64
            == ((x * 256 + a) * 256 + b) * 256 + c
  {
  }

  /** The text of a whole number of groups has only characters of the alphabet, and is the same number as the data. */
  lemma {:induction false} TextIsNumber(s: seq<Byte>)
    requires |s| % 3 == 0
    ensures |Encode(s)| == |s| / 3 * 4 && AllLetters(Encode(s)) && Number(Encode(s)) == BigEndian(s)
    decreases |s|
  {
    hide Encode, Value, Letter, Group, Number, BigEndian;
    if s == [] {
      NoText();
    } else {
      var n := |s| - 3;
      var a, b, c := s[n], s[n + 1], s[n + 2];
      assert s == s[..n] + [a, b, c];
      TextIsNumber(s[..n]);
      EncodeAppend(s[..n], [a, b, c]);
      EncodeThree([a, b, c]);
      GroupIs(a, b, c);
      NumberMore(Encode(s[..n]), Letter(a / 4), Letter(a % 4 * 16 + b / 16), Letter(b % 16 * 4 + c / 64), Letter(c % 64));
      BytesMore(s[..n], a, b, c);
      GroupNumber(BigEndian(s[..n]), a, b, c);
    }
  }

  lemma {:induction false} NoText()
    ensures Encode([]) == [] && Number([]) == 0 && BigEndian([]) == 0
  {
  }

  /** With one or two bytes left the text is that of the data with zeros added, less as many characters, which are
      replaced by padding. */
  lemma {:induction false} TextIsPadded(s: seq<Byte>)
    ensures |s| % 3 == 1 ==>
              var t := Encode(s + [0, 0]); |t| >= 2 && Encode(s) == t[..|t| - 2] + [EQUALS, EQUALS]
    ensures |s| % 3 == 2 ==>
              var t := Encode(s + [0]); |t| >= 1 && Encode(s) == t[..|t| - 1] + [EQUALS]
  {
    hide Encode;
    var k := |s| % 3;
    var u, r := s[..|s| - k], s[|s| - k..];
    assert s == u + r;
    EncodeAppend(u, r);
    LastGroup(r);
    if k == 1 {
      assert s + [0, 0] == u + (r + [0, 0]);
      EncodeAppend(u, r + [0, 0]);
      CutGroup(Encode(u), Encode(r + [0, 0]), 2);
    } else if k == 2 {
      assert s + [0] == u + (r + [0]);
      EncodeAppend(u, r + [0]);
      CutGroup(Encode(u), Encode(r + [0]), 1);
    }
  }

  lemma {:induction false} LastGroup(r: seq<Byte>)
    ensures |r| == 1 ==> |Encode(r + [0, 0])| == 4 && Encode(r) == Encode(r + [0, 0])[..2] + [EQUALS, EQUALS]
    ensures |r| == 2 ==> |Encode(r + [0])| == 4 && Encode(r) == Encode(r + [0])[..3] + [EQUALS]
  {
    hide Group;
    if |r| == 1 {
      EncodeThree(r + [0, 0]);
    } else if |r| == 2 {
      EncodeThree(r + [0]);
    }
  }

  lemma {:induction false} CutGroup(a: seq<Byte>, b: seq<Byte>, k: nat)
    requires k <= |b|
    ensures (a + b)[..|a + b| - k] == a + b[..|b| - k]
  {
  }

  /** Every 65th character is a newline, and so is the last one; the others are those of the text. */
  lemma {:induction false} LinesAt(t: seq<Byte>, i: nat)
    requires i < |Lines(t)|
    ensures |Lines(t)| == |t| + (|t| + 63) / 64
    ensures i % 65 == 64 || i == |Lines(t)| - 1 ==> Lines(t)[i] == NEWLINE
    ensures i % 65 != 64 && i < |Lines(t)| - 1 ==> i - i / 65 < |t| && Lines(t)[i] == t[i - i / 65]
  {
    FullLinesSize(t);
    if i < |FullLines(t)| {
      FullLinesAt(t, i);
    }
  }

  lemma {:induction false} FullLinesAt(t: seq<Byte>, i: nat)
    requires i < |FullLines(t)|
    ensures if i % 65 == 64 then FullLines(t)[i] == NEWLINE else i - i / 65 < |t| && FullLines(t)[i] == t[i - i / 65]
    decreases |t|
  {
    FullLinesSize(t);
    if i >= 65 {
      FullLinesAt(t[LINE..], i - 65);
    }
  }

  // ---------------------------------------------------------------------------
  // Other texts
  // ---------------------------------------------------------------------------

  /** The character is one of the alphabet, or padding. */
  predicate Counts(c: Byte) {
    Value(c) < 64 || c == EQUALS
  }

  function Counting(t: seq<Byte>): (u: seq<Byte>) {
    if t == [] then []
    else
      var last := t[|t| - 1];
      Counting(t[..|t| - 1]) + if Counts(last) then [last] else []
  }

  /** All other characters, wherever they are, make no difference. */
  lemma {:induction false} OthersAreSkipped(t: seq<Byte>, room: nat)
    ensures Decode(t, room) == Decode(Counting(t), room)
  {
    hide DecodeAll, Counting;
    SkippedFrom(START, t, room);
  }

  lemma {:induction false} SkippedFrom(d: Decoder, t: seq<Byte>, room: nat)
    ensures DecodeAll(d, t, room) == DecodeAll(d, Counting(t), room)
    decreases |t|
  {
    hide DecodeChar;
    if t != [] {
      var last := t[|t| - 1];
      SkippedFrom(d, t[..|t| - 1], room);
      if Counts(last) {
        DecodeOne(DecodeAll(d, Counting(t[..|t| - 1]), room), last, room);
        DecodeConcat(d, Counting(t[..|t| - 1]), [last], room);
      } else {
        SkipOne(DecodeAll(d, t[..|t| - 1], room), last, room);
        assert Counting(t) == Counting(t[..|t| - 1]);
      }
    }
  }

  lemma {:induction false} SkipOne(d: Decoder, c: Byte, room: nat)
    requires !Counts(c)
    ensures DecodeChar(d, c, room) == d
  {
  }

  /** The texts of several pieces of data, one after the other. */
  function Texts(parts: seq<seq<Byte>>): (t: seq<Byte>) {
    if parts == [] then [] else Texts(parts[..|parts| - 1]) + Lines(Encode(parts[|parts| - 1]))
  }

  function Joined(parts: seq<seq<Byte>>): (s: seq<Byte>) {
    if parts == [] then [] else Joined(parts[..|parts| - 1]) + parts[|parts| - 1]
  }

  /** Texts that follow each other decode to their data one after the other, padding in the middle or not, as far as
      there is room. */
  lemma {:induction false} DecodeTexts(parts: seq<seq<Byte>>, room: nat)
    ensures Decode(Texts(parts), room) == Cut(Joined(parts), room)
  {
    hide *;
    DecodeTextsFrom(parts, room);
    DecodeIs(Texts(parts), room);
  }

  lemma {:induction false} DecodeIs(t: seq<Byte>, room: nat)
    ensures Decode(t, room) == DecodeAll(START, t, room).out
  {
    hide DecodeAll;
  }

  lemma {:induction false} DecodeTextsFrom(parts: seq<seq<Byte>>, room: nat)
    ensures var d := DecodeAll(START, Texts(parts), room);
            d.out == Cut(Joined(parts), room) && Between(d, room)
    decreases |parts|
  {
    hide DecodeChar, Encode, Lines;
    if parts != [] {
      var last := parts[|parts| - 1];
      var d := DecodeAll(START, Texts(parts[..|parts| - 1]), room);
      DecodeTextsFrom(parts[..|parts| - 1], room);
      DecodeConcat(START, Texts(parts[..|parts| - 1]), Lines(Encode(last)), room);
      DecodeLines(d, Encode(last), room);
      DecodeFrom(d, last, room);
    }
  }

  /** Any text of whole groups of the alphabet is the text of what it decodes to. */
  lemma {:induction false} EncodeDecode(t: seq<Byte>)
    requires AllLetters(t) && |t| % 4 == 0
    ensures Encode(Decode(t, |t|)) == t
  {
    hide Encode, Decode, Value;
    var s := Source(t);
    EncodeSize(s);
    DecodeEncode(s, |t|);
    DecodeLines(START, Encode(s), |t|);
    DecodeIs(Lines(Encode(s)), |t|);
    DecodeIs(Encode(s), |t|);
  }

  /** The data with a text. */
  lemma {:induction false} Source(t: seq<Byte>) returns (s: seq<Byte>)
    requires AllLetters(t) && |t| % 4 == 0
    ensures |s| == |t| / 4 * 3 && Encode(s) == t
    decreases |t|
  {
    hide Encode, Value, Letter, Group;
    if t == [] {
      NoText();
      s := [];
    } else {
      var n := |t| - 4;
      assert AllLetters(t[..n]);
      var u := Source(t[..n]);
      var p, q, r, v := Value(t[n]), Value(t[n + 1]), Value(t[n + 2]), Value(t[n + 3]);
      var a, b, c: Byte := p * 4 + q / 16, q % 16 * 16 + r / 4, r % 4 * 64 + v;
      SixBits(p, q, r, v);
      LetterOf(t[n]);
      LetterOf(t[n + 1]);
      LetterOf(t[n + 2]);
      LetterOf(t[n + 3]);
      GroupIs(a, b, c);
      EncodeThree([a, b, c]);
      EncodeAppend(u, [a, b, c]);
      assert t == t[..n] + [t[n], t[n + 1], t[n + 2], t[n + 3]];
      s := u + [a, b, c];
    }
  }

  lemma {:induction false} SixBits(p: Six, q: Six, r: Six, v: Six)
    ensures var a, b, c := p * 4 + q / 16, q % 16 * 16 + r / 4, r % 4 * 64 + v;
            && a / 4 == p && a % 4 * 16 + b / 16 == q && b % 16 * 4 + c / 64 == r && c % 64 == v
  {
    DivModUnique(p * 4 + q / 16, 4, p, q / 16);
    DivModUnique(q % 16 * 16 + r / 4, 16, q % 16, r / 4);
    DivModUnique(r % 4 * 64 + v, 64, r % 4, v);
  }
}
