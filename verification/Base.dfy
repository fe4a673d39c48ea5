/** Bytes, identifiers and the small arithmetic that several components share. */
module Base {

  type Byte = b: int | 0 <= b < 256

  datatype Option<+T> = None | Some(value: T)

  const MESSAGE_ID_SIZE := 16

  /** Message IDs, acks and tokens are all strings of 16 bytes. */
  type Id = s: seq<Byte> | |s| == MESSAGE_ID_SIZE witness seq(MESSAGE_ID_SIZE, _ => 0)

  /** The number whose base-256 digits are the bytes, most significant first. */
  function BigEndian(s: seq<Byte>): (v: nat) {
    if s == [] then 0 else BigEndian(s[..|s| - 1]) * 256 + s[|s| - 1]
  }

  /** `readb64`: the number in the first eight bytes of a buffer. */
  function ReadB64(s: seq<Byte>): (v: nat)
    requires |s| >= 8
  {
    BigEndian(s[..8])
  }

  /** Appending one more element to a set grows it by at most one. */
  lemma {:induction false} CardinalityOfInsert<T>(s: set<T>, x: T)
    ensures |s + {x}| <= |s| + 1
    ensures x in s ==> s + {x} == s
  {
    if x in s {
      assert s + {x} == s;
    } else {
      assert |s + {x}| == |s| + |{x}|;
    }
  }

  /** A subset is never larger than its superset. */
  lemma {:induction false} CardinalityOfSubset<T>(s: set<T>, t: set<T>)
    requires s <= t
    ensures |s| <= |t|
  {
    assert t == s + (t - s);
    assert |t| == |s| + |t - s|;
  }

  function Pow256(n: nat): (p: nat)
    ensures p >= 1
  {
    if n == 0 then 1 else 256 * Pow256(n - 1)
  }

  /** The last `n` base-256 digits of a number, most significant first. */
  function Digits(v: nat, n: nat): (s: seq<Byte>)
    ensures |s| == n
  {
    if n == 0 then [] else Digits(v / 256, n - 1) + [v % 256]
  }

  lemma {:induction false} BigMultiple(k: int, d: int)
    requires d >= 0
    ensures k >= 1 ==> k * d >= d
    ensures k <= -1 ==> k * d <= -d
  {
    if k >= 1 {
      assert (k - 1) * d >= 0;
      assert k * d == (k - 1) * d + d;
    } else if k <= -1 {
      assert (-k - 1) * d >= 0;
      assert k * d == -((-k - 1) * d) - d;
    }
  }

  lemma {:induction false} DivModUnique(x: nat, d: nat, q: nat, r: nat)
    requires d > 0 && x == q * d + r && r < d
    ensures x / d == q && x % d == r
  {
    var k := x / d - q;
    assert x == x / d * d + x % d;
    assert k * d == x / d * d - q * d;
    BigMultiple(k, d);
  }

  /** Cutting off one base-256 digit and then all above the next ones. */
  lemma {:induction false} ModBySteps(v: nat, p: nat)
    requires p > 0
    ensures (v / 256) % p * 256 + v % 256 == v % (256 * p)
    ensures v / 256 / p == v / (256 * p)
  {
    var q, r := v / 256 / p, v / 256 % p;
    assert v / 256 == q * p + r;
    assert v == q * (256 * p) + (256 * r + v % 256) by {
      assert v == 256 * (q * p + r) + v % 256;
    }
    assert 256 * r + 256 <= 256 * p;
    DivModUnique(v, 256 * p, q, 256 * r + v % 256);
  }

  lemma {:induction false} DigitsValue(v: nat, n: nat)
    ensures BigEndian(Digits(v, n)) == v % Pow256(n)
    decreases n
  {
    if n > 0 {
      DigitsValue(v / 256, n - 1);
      ModBySteps(v, Pow256(n - 1));
    }
  }

  lemma {:induction false} DigitsSuffix(v: nat, n: nat, k: nat)
    requires k <= n
    ensures Digits(v, n)[n - k..] == Digits(v, k)
    decreases k
  {
    if k > 0 {
      DigitsSuffix(v / 256, n - 1, k - 1);
    }
  }

  lemma {:induction false} ValueDigits(s: seq<Byte>)
    ensures Digits(BigEndian(s), |s|) == s
    ensures BigEndian(s) < Pow256(|s|)
    decreases |s|
  {
    if s != [] {
      ValueDigits(s[..|s| - 1]);
      assert s == s[..|s| - 1] + [s[|s| - 1]];
    }
  }

  // ---------------------------------------------------------------------------
  // Exclusive or
  // ---------------------------------------------------------------------------

  function Pow2(n: nat): (p: nat)
    ensures p >= 1
  {
    if n == 0 then 1 else 2 * Pow2(n - 1)
  }

  function XorBits(a: nat, b: nat, n: nat): (c: nat)
    ensures c < Pow2(n)
  {
    if n == 0 then 0 else 2 * XorBits(a / 2, b / 2, n - 1) + (a + b) % 2
  }

  function Xor(a: Byte, b: Byte): (c: Byte) {
    assert Pow2(8) == 256;
    XorBits(a, b, 8)
  }

  lemma {:induction false} XorBitsTwice(a: nat, b: nat, n: nat)
    requires a < Pow2(n)
    ensures XorBits(XorBits(a, b, n), b, n) == a
    decreases n
  {
    if n > 0 {
      XorBitsTwice(a / 2, b / 2, n - 1);
      LowBits(XorBits(a / 2, b / 2, n - 1), a, b);
    }
  }

  lemma {:induction false} LowBits(x: nat, a: nat, b: nat)
    ensures var y := 2 * x + (a + b) % 2;
            y / 2 == x && (y + b) % 2 == a % 2
  {
    var r := (a + b) % 2;
    DivModUnique(2 * x + r, 2, x, r);
    assert (r + b) % 2 == a % 2;
    DivModUnique(2 * x + r + b, 2, x + (r + b) / 2, (r + b) % 2);
  }

  lemma {:induction false} XorTwice(a: Byte, b: Byte)
    ensures Xor(Xor(a, b), b) == a
  {
    assert Pow2(8) == 256;
    XorBitsTwice(a, b, 8);
  }

  // ---------------------------------------------------------------------------
  // Inclusive or
  // ---------------------------------------------------------------------------

  function OrBits(a: nat, b: nat, n: nat): (c: nat)
    ensures c < Pow2(n)
  {
    if n == 0 then 0 else 2 * OrBits(a / 2, b / 2, n - 1) + if a % 2 == 1 || b % 2 == 1 then 1 else 0
  }

  function Or(a: Byte, b: Byte): (c: Byte) {
    assert Pow2(8) == 256;
    OrBits(a, b, 8)
  }

  /** When no bit is set in both, the or is the sum. */
  lemma {:induction false} OrBitsApart(q: nat, low: nat, k: nat, n: nat)
    requires low < Pow2(k) && q * Pow2(k) + low < Pow2(n)
    ensures OrBits(q * Pow2(k), low, n) == q * Pow2(k) + low
    decreases n
  {
    if n > 0 {
      if k == 0 {
        OrBitsNothing(q, n);
      } else {
        var p := Pow2(k - 1);
        Doubled(q, p, low);
        OrBitsApart(q, low / 2, k - 1, n - 1);
      }
    } else {
      assert q * Pow2(k) == 0;
    }
  }

  lemma {:induction false} OrBitsNothing(a: nat, n: nat)
    requires a < Pow2(n)
    ensures OrBits(a, 0, n) == a
    decreases n
  {
    if n > 0 {
      OrBitsNothing(a / 2, n - 1);
    }
  }

  lemma {:induction false} Doubled(q: nat, p: nat, low: nat)
    ensures q * (2 * p) == 2 * (q * p) && q * (2 * p) / 2 == q * p && q * (2 * p) % 2 == 0
    ensures q * (2 * p) + low == 2 * (q * p + low / 2) + low % 2
  {
    assert q * (2 * p) == 2 * (q * p);
  }

  lemma {:induction false} OrApart(q: nat, low: nat, k: nat)
    requires k <= 8 && low < Pow2(k) && q * Pow2(k) + low < 256
    ensures low < 256 && 0 <= q * Pow2(k) < 256 && Or(q * Pow2(k), low) == q * Pow2(k) + low
  {
    assert Pow2(8) == 256;
    assert 0 <= q * Pow2(k);
    OrBitsApart(q, low, k, 8);
  }
}
