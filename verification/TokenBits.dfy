/**
 The 64-bit "already sent to" bitmaps, their layout in memory, and the shift that is meant to
 accompany a gc of the token table.  A 64-bit word is the set of the positions of its one bits.

 `shift_token` reads and writes the word with readb64/writeb64, most significant byte first, while
 the bits are set on the word itself, in the byte order of the host.
 */
module TokenBits {
  import opened Base

  const MAX_TOKENS := 64

  type Token = Id

  type Bits = b: set<int> | forall i | i in b :: 0 <= i < MAX_TOKENS witness {}

  datatype ByteOrder = MostSignificantFirst | LeastSignificantFirst

  /** The number with the given binary digits, least significant first. */
  function Pack(b: seq<bool>): (x: nat) {
    if b == [] then 0 else (if b[0] then 1 else 0) + 2 * Pack(b[1..])
  }

  predicate BitOf(x: nat, k: nat) {
    if k == 0 then x % 2 == 1 else BitOf(x / 2, k - 1)
  }

  lemma {:induction false} PackBits(b: seq<bool>, k: nat)
    requires k < |b|
    ensures BitOf(Pack(b), k) <==> b[k]
    decreases k
  {
    if k > 0 {
      PackBits(b[1..], k - 1);
      assert Pack(b) / 2 == Pack(b[1..]);
    }
  }

  lemma {:induction false} PackByte(b: seq<bool>)
    requires |b| == 8
    ensures Pack(b) < 256
  {
    PackBound(b);
  }

  lemma {:induction false} PackBound(b: seq<bool>)
    requires |b| <= 8
    ensures |b| == 8 ==> Pack(b) < 256
    ensures |b| == 7 ==> Pack(b) < 128
    ensures |b| == 6 ==> Pack(b) < 64
    ensures |b| == 5 ==> Pack(b) < 32
    ensures |b| == 4 ==> Pack(b) < 16
    ensures |b| == 3 ==> Pack(b) < 8
    ensures |b| == 2 ==> Pack(b) < 4
    ensures |b| == 1 ==> Pack(b) < 2
    ensures |b| == 0 ==> Pack(b) < 1
    decreases b
  {
    if b != [] {
      PackBound(b[1..]);
    }
  }

  /** Where in memory the byte with bits 8k .. 8k + 7 of a word is; its own inverse. */
  function ByteIndex(order: ByteOrder, k: nat): (i: nat)
    requires k < 8
    ensures i < 8
  {
    if order.MostSignificantFirst? then 7 - k else k
  }

  /** Bits 8k .. 8k + 7 of a word. */
  function ByteBits(bits: Bits, k: nat): (b: seq<bool>)
    requires k < 8
    ensures |b| == 8
    ensures forall j | 0 <= j < 8 :: b[j] <==> 8 * k + j in bits
  {
    seq(8, j => 8 * k + j in bits)
  }

  function ByteOf(bits: Bits, k: nat): (x: Byte)
    requires k < 8
  {
    PackByte(ByteBits(bits, k));
    Pack(ByteBits(bits, k))
  }

  function Store(order: ByteOrder, bits: Bits): (s: seq<Byte>)
    ensures |s| == 8
  {
    seq(8, i requires 0 <= i < 8 => ByteOf(bits, ByteIndex(order, i)))
  }

  function Load(order: ByteOrder, s: seq<Byte>): (bits: Bits)
    requires |s| == 8
  {
    set i | 0 <= i < MAX_TOKENS && BitAt(order, s, i)
  }

  predicate BitAt(order: ByteOrder, s: seq<Byte>, i: nat)
    requires |s| == 8 && i < MAX_TOKENS
  {
    BitOf(s[ByteIndex(order, i / 8)], i % 8)
  }

  /** Storing in one order and loading in another permutes the bits by whole bytes. */
  function Reread(stored: ByteOrder, loaded: ByteOrder, i: nat): (j: nat)
    requires i < MAX_TOKENS
    ensures j < MAX_TOKENS
  {
    if stored == loaded then i else 8 * (7 - i / 8) + i % 8
  }

  lemma {:induction false} LoadStoreBit(stored: ByteOrder, loaded: ByteOrder, bits: Bits, i: nat)
    requires i < MAX_TOKENS
    ensures BitAt(loaded, Store(stored, bits), i) <==> Reread(stored, loaded, i) in bits
  {
    var k, j := i / 8, i % 8;
    var n := ByteIndex(stored, ByteIndex(loaded, k));
    assert Store(stored, bits)[ByteIndex(loaded, k)] == Pack(ByteBits(bits, n));
    PackBits(ByteBits(bits, n), j);
    assert ByteBits(bits, n)[j] <==> 8 * n + j in bits;
  }

  lemma {:induction false} LoadStore(stored: ByteOrder, loaded: ByteOrder, bits: Bits)
    ensures forall i | 0 <= i < MAX_TOKENS ::
              i in Load(loaded, Store(stored, bits)) <==> Reread(stored, loaded, i) in bits
  {
    var s := Store(stored, bits);
    forall i | 0 <= i < MAX_TOKENS
      ensures i in Load(loaded, s) <==> Reread(stored, loaded, i) in bits
    {
      LoadStoreBit(stored, loaded, bits, i);
    }
  }

  /** Reading a stored word back in the same order restores it. */
  lemma {:induction false} LoadStoreSame(order: ByteOrder, bits: Bits)
    ensures Load(order, Store(order, bits)) == bits
  {
    LoadStore(order, order, bits);
  }

  predicate SetAbove(bits: Bits, i: int, distance: nat) {
    i + distance in bits
  }

  predicate SetBelow(bits: Bits, i: int, distance: nat) {
    i - distance in bits
  }

  function ShiftRight(bits: Bits, shift: nat): (r: Bits) {
    set i | 0 <= i < MAX_TOKENS && SetAbove(bits, i, shift)
  }

  function ShiftLeft(bits: Bits, shift: nat): (r: Bits) {
    set i | 0 <= i < MAX_TOKENS && SetBelow(bits, i, shift)
  }

  /** shift_token, applied to the eight bytes of the word in memory. */
  function ShiftBytes(s: seq<Byte>, shift: int): (r: seq<Byte>)
    requires |s| == 8
    ensures |r| == 8
  {
    if shift <= 0 then s else Store(MostSignificantFirst, ShiftRight(Load(MostSignificantFirst, s), shift))
  }

  /** What that does to the word, as a host with the given byte order sees it. */
  function ShiftToken(order: ByteOrder, bits: Bits, shift: int): (r: Bits) {
    Load(order, ShiftBytes(Store(order, bits), shift))
  }

  lemma {:induction false} ShiftOnMostSignificantFirst(bits: Bits, shift: nat)
    ensures ShiftToken(MostSignificantFirst, bits, shift) == ShiftRight(bits, shift)
  {
    LoadStoreSame(MostSignificantFirst, bits);
    LoadStoreSame(MostSignificantFirst, ShiftRight(bits, shift));
    if shift == 0 {
      assert ShiftRight(bits, 0) == bits;
    }
  }

  /** The other byte order moves the bits by the same distance the wrong way. */
  lemma {:induction false} ShiftOnLeastSignificantFirst(bits: Bits)
    ensures ShiftToken(LeastSignificantFirst, bits, 16) == ShiftLeft(bits, 16)
  {
    var v := Load(MostSignificantFirst, Store(LeastSignificantFirst, bits));
    var w := ShiftRight(v, 16);
    LoadStore(LeastSignificantFirst, MostSignificantFirst, bits);
    LoadStore(MostSignificantFirst, LeastSignificantFirst, w);
    ShiftBetweenRereads(bits, v, ShiftToken(LeastSignificantFirst, bits, 16));
  }

  lemma {:induction false} ShiftBetweenRereads(bits: Bits, v: Bits, r: Bits)
    requires forall i | 0 <= i < MAX_TOKENS ::
               i in v <==> Reread(LeastSignificantFirst, MostSignificantFirst, i) in bits
    requires forall i | 0 <= i < MAX_TOKENS ::
               i in r <==> Reread(MostSignificantFirst, LeastSignificantFirst, i) in ShiftRight(v, 16)
    ensures r == ShiftLeft(bits, 16)
  {
    forall i | 0 <= i < MAX_TOKENS ensures i in r <==> i in ShiftLeft(bits, 16) {
      ReadBack(i);
      var j := Reread(MostSignificantFirst, LeastSignificantFirst, i);
      assert j in ShiftRight(v, 16) <==> j + 16 in v;
    }
  }

  /** Reread the other way, a bit sixteen places up is the bit sixteen places down. */
  lemma {:induction false} ReadBack(i: nat)
    requires i < MAX_TOKENS
    ensures var j := Reread(MostSignificantFirst, LeastSignificantFirst, i);
            if i < 16 then j + 16 >= MAX_TOKENS
            else j + 16 < MAX_TOKENS && Reread(LeastSignificantFirst, MostSignificantFirst, j + 16) == i - 16
  {
    var q, r := i / 8, i % 8;
    assert i == 8 * q + r;
    var j := 8 * (7 - q) + r;
    assert (j + 16) / 8 == 9 - q && (j + 16) % 8 == r;
  }

  // ---------------------------------------------------------------------------
  // What a bitmap means
  // ---------------------------------------------------------------------------

  ghost predicate Distinct<T(!new)>(s: seq<T>) {
    forall i, j | 0 <= i < j < |s| :: s[i] != s[j]
  }

  /** The bitmap only has bits for tokens in the table. */
  predicate Within(bits: Bits, n: nat) {
    forall i | i in bits :: i < n
  }

  /** The tokens that a bitmap stands for. */
  function Meaning(tokens: seq<Token>, bits: Bits): (m: set<Token>) {
    set i | i in bits && 0 <= i < |tokens| :: tokens[i]
  }

  lemma {:induction false} MeaningHas(tokens: seq<Token>, bits: Bits, i: nat)
    requires Distinct(tokens) && i < |tokens|
    ensures tokens[i] in Meaning(tokens, bits) <==> i in bits
  {
  }

  function TokenSet(tokens: seq<Token>): (m: set<Token>) {
    set t | t in tokens
  }

  /** gc_tokens: a full table keeps its newest three quarters; the result is how far they moved. */
  function TokenShift(n: nat): (shift: nat)
    ensures shift <= n
  {
    if n < MAX_TOKENS then 0 else n - 3 * MAX_TOKENS / 4
  }

  /** Bitmap `r` says about the shortened table what `bits` said about the full one. */
  ghost predicate KeepsMeaning(tokens: seq<Token>, bits: Bits, shift: nat, r: Bits)
    requires shift <= |tokens|
  {
    && Within(r, |tokens| - shift)
    && Meaning(tokens[shift..], r) == Meaning(tokens, bits) * TokenSet(tokens[shift..])
  }

  lemma {:induction false} ShiftRightKeepsMeaning(tokens: seq<Token>, bits: Bits, shift: nat)
    requires Distinct(tokens) && shift <= |tokens| && Within(bits, |tokens|)
    ensures KeepsMeaning(tokens, bits, shift, ShiftRight(bits, shift))
  {
    var rest := tokens[shift..];
    var r := ShiftRight(bits, shift);
    forall i | i in r ensures i < |rest| {
      assert SetAbove(bits, i, shift);
    }
    forall t ensures t in Meaning(rest, r) <==> t in Meaning(tokens, bits) && t in TokenSet(rest) {
      if t in TokenSet(rest) {
        var j :| 0 <= j < |rest| && rest[j] == t;
        MeaningHas(rest, r, j);
        MeaningHas(tokens, bits, j + shift);
      }
    }
  }

  /** When the full table is shortened, shift_token keeps the meaning of a bitmap if and only if the
      host stores words most significant byte first, or the bitmap is empty. */
  lemma {:induction false} ShiftTokenKeepsMeaning(order: ByteOrder, tokens: seq<Token>, bits: Bits)
    requires Distinct(tokens) && |tokens| == MAX_TOKENS
    ensures KeepsMeaning(tokens, bits, TokenShift(|tokens|), ShiftToken(order, bits, TokenShift(|tokens|))) <==>
            order.MostSignificantFirst? || bits == {}
  {
    hide ShiftToken, ShiftRight, ShiftLeft, KeepsMeaning;
    if order.MostSignificantFirst? {
      ShiftOnMostSignificantFirst(bits, 16);
      ShiftRightKeepsMeaning(tokens, bits, 16);
    } else {
      ShiftOnLeastSignificantFirst(bits);
      WrongShift(tokens, bits);
    }
  }

  lemma {:induction false} WrongShift(tokens: seq<Token>, bits: Bits)
    requires Distinct(tokens) && |tokens| == MAX_TOKENS
    ensures KeepsMeaning(tokens, bits, 16, ShiftLeft(bits, 16)) <==> bits == {}
  {
    if KeepsMeaning(tokens, bits, 16, ShiftLeft(bits, 16)) {
      WrongShiftLosesBits(tokens, bits);
    }
  }

  lemma {:induction false} WrongShiftLosesBits(tokens: seq<Token>, bits: Bits)
    requires Distinct(tokens) && |tokens| == MAX_TOKENS
    requires KeepsMeaning(tokens, bits, 16, ShiftLeft(bits, 16))
    ensures bits == {}
  {
    var rest := tokens[16..];
    var r := ShiftLeft(bits, 16);
    // no bit may move past the end of the shortened table
    assert forall k | 32 <= k < 48 :: k in bits ==> k + 16 in r;
    // and inside the table each bit must agree with the one 32 places on
    forall j | 0 <= j < 48 ensures j in r <==> j + 16 in bits {
      MeaningHas(rest, r, j);
      MeaningHas(tokens, bits, j + 16);
      assert rest[j] == tokens[j + 16] && tokens[j + 16] in TokenSet(rest);
    }
    forall i | 0 <= i < MAX_TOKENS ensures i !in bits {
      if i < 16 {
        assert i + 16 in r <==> i in bits;
        assert i + 16 in r <==> i + 32 in bits;
      } else if i < 32 {
        assert i - 16 in r <==> i in bits;
      } else if i >= 48 {
        assert i - 16 in r <==> i in bits;
        assert i - 16 in r <==> i - 32 in bits;
        assert i - 48 in r <==> i - 32 in bits;
      }
    }
  }
}
