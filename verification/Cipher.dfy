/**
 Hybrid encryption of messages: what does not fit one RSA block is encrypted with AES in counter mode
 (section 6.5 of NIST SP 800-38A), with the AES key and the first counter inside the RSA block.
 AES is an arbitrary function, and RSA any pair of functions of which one undoes the other.
 */
module Cipher {
  import opened Base

  const AES_KEY_SIZE := 32
  const BLOCK_SIZE := 16

  /** PKCS #1 version 2 takes 42 bytes of an RSA block. */
  const PADDING_SIZE := 42

  type Block = Id
  type Aes = (seq<Byte>, Block) -> Block

  /** An RSA key pair of a size in bytes; encryption with the random padding of one call. */
  datatype Rsa = Rsa(size: nat, encrypt: seq<Byte> -> seq<Byte>, decrypt: seq<Byte> -> Option<seq<Byte>>)

  /** What fits is decrypted to itself; for no bytes at all decryption may also fail, as a result of 0 bytes
      counts as a failure with one of the libraries. */
  ghost predicate Works(rsa: Rsa) {
    forall m | |m| <= rsa.size - PADDING_SIZE :: WorksFor(rsa, m)
  }

  predicate WorksFor(rsa: Rsa, m: seq<Byte>) {
    && |rsa.encrypt(m)| == rsa.size
    && (rsa.decrypt(rsa.encrypt(m)) == Some(m) || (m == [] && rsa.decrypt(rsa.encrypt(m)).None?))
  }

  // ---------------------------------------------------------------------------
  // The counter
  // ---------------------------------------------------------------------------

  lemma {:induction false} BigEndianCons(x: Byte, s: seq<Byte>)
    ensures BigEndian([x] + s) == x * Pow256(|s|) + BigEndian(s)
    decreases |s|
  {
    var t := [x] + s;
    if s == [] {
      assert t[..0] == [];
    } else {
      assert t[..|t| - 1] == [x] + s[..|s| - 1];
      BigEndianCons(x, s[..|s| - 1]);
    }
  }

  /** inc_ctr: one is added to the counter, in its bytes, modulo 2^128. */
  method IncCtr(ctr: array<Byte>)
    requires ctr.Length == BLOCK_SIZE
    modifies ctr
    ensures BigEndian(ctr[..]) == (BigEndian(old(ctr[..])) + 1) % Pow256(BLOCK_SIZE)
  {
    hide BigEndian, Pow256;
    ghost var s := ctr[..];
    var carry := 1;
    var i := BLOCK_SIZE;
    EmptyValue();
    assert s[BLOCK_SIZE..] == [] && ctr[BLOCK_SIZE..] == [];
    while i > 0
      invariant 0 <= i <= BLOCK_SIZE && 0 <= carry <= 1
      invariant ctr[..i] == s[..i]
      invariant BigEndian(ctr[i..]) + carry * Pow256(BLOCK_SIZE - i) == BigEndian(s[i..]) + 1
    {
      i := i - 1;
      var value := ctr[i] + carry;
      ghost var tail := ctr[i + 1..];
      assert ctr[i] == ctr[..i + 1][i] == s[i];
      ctr[i] := value % 256;
      assert ctr[i..] == [value % 256] + tail && s[i..] == [s[i]] + s[i + 1..];
      CarryOn(s[i], s[i + 1..], tail, carry);
      assert ctr[..i] == s[..i];
      carry := value / 256;
    }
    assert ctr[0..] == ctr[..] && s[0..] == s;
    ValueDigits(ctr[..]);
    DivModUnique(BigEndian(s) + 1, Pow256(BLOCK_SIZE), carry, BigEndian(ctr[..]));
  }

  lemma {:induction false} EmptyValue()
    ensures BigEndian([]) == 0 && Pow256(0) == 1
  {
  }

  lemma {:induction false} CarryOn(x: Byte, s: seq<Byte>, t: seq<Byte>, carry: nat)
    requires |s| == |t| && carry <= 1 && BigEndian(t) + carry * Pow256(|s|) == BigEndian(s) + 1
    ensures var v := x + carry;
            BigEndian([v % 256] + t) + v / 256 * Pow256(|s| + 1) == BigEndian([x] + s) + 1
  {
    hide BigEndian;
    var p, v := Pow256(|s|), x + carry;
    BigEndianCons(x, s);
    BigEndianCons(v % 256, t);
    assert v % 256 * p + v / 256 * (256 * p) == v * p by {
      assert v == v / 256 * 256 + v % 256;
      Distribute(v / 256, v % 256, p);
    }
    assert v * p == x * p + carry * p;
  }

  lemma {:induction false} Distribute(q: nat, r: nat, p: nat)
    ensures (q * 256 + r) * p == r * p + q * (256 * p)
  {
  }

  // ---------------------------------------------------------------------------
  // Counter mode
  // ---------------------------------------------------------------------------

  /** The counter `i` blocks after the first one. */
  function Counter(nonce: Block, i: nat): (b: Block) {
    Digits(BigEndian(nonce) + i, BLOCK_SIZE)
  }

  /** Byte `i` of the key stream. */
  function KeyByte(aes: Aes, key: seq<Byte>, nonce: Block, i: nat): (b: Byte) {
    aes(key, Counter(nonce, i / BLOCK_SIZE))[i % BLOCK_SIZE]
  }

  function Ctr(aes: Aes, key: seq<Byte>, nonce: Block, data: seq<Byte>): (r: seq<Byte>)
    ensures |r| == |data|
  {
    seq(|data|, i requires 0 <= i < |data| => Xor(data[i], KeyByte(aes, key, nonce, i)))
  }

  /** Encryption and decryption are the same. */
  lemma {:induction false} CtrTwice(aes: Aes, key: seq<Byte>, nonce: Block, data: seq<Byte>)
    ensures Ctr(aes, key, nonce, Ctr(aes, key, nonce, data)) == data
  {
    hide KeyByte, Xor;
    forall i | 0 <= i < |data| ensures Ctr(aes, key, nonce, Ctr(aes, key, nonce, data))[i] == data[i] {
      XorTwice(data[i], KeyByte(aes, key, nonce, i));
    }
  }

  lemma {:induction false} CounterNext(nonce: Block, i: nat, ctr: seq<Byte>, ctr': seq<Byte>)
    requires ctr == Counter(nonce, i) && |ctr'| == BLOCK_SIZE
    requires BigEndian(ctr') == (BigEndian(ctr) + 1) % Pow256(BLOCK_SIZE)
    ensures ctr' == Counter(nonce, i + 1)
  {
    hide BigEndian, Pow256, Digits;
    var n, p := BigEndian(nonce) + i, Pow256(BLOCK_SIZE);
    DigitsValue(n, BLOCK_SIZE);
    DigitsValue(n + 1, BLOCK_SIZE);
    NextResidue(n, p);
    ValueDigits(ctr');
    ValueDigits(Counter(nonce, i + 1));
  }

  lemma {:induction false} NextResidue(n: nat, p: nat)
    requires p > 0
    ensures (n % p + 1) % p == (n + 1) % p
  {
    assert n == n / p * p + n % p;
    assert n % p + 1 == (n % p + 1) / p * p + (n % p + 1) % p;
    assert (n / p + (n % p + 1) / p) * p == n / p * p + (n % p + 1) / p * p;
    DivModUnique(n + 1, p, n / p + (n % p + 1) / p, (n % p + 1) % p);
  }

  lemma {:induction false} FirstCounter(nonce: Block)
    ensures Counter(nonce, 0) == nonce
  {
    ValueDigits(nonce);
  }

  /** aes_ctr_crypt: the result goes into a buffer from index `at`. */
  method AesCtrCrypt(aes: Aes, key: seq<Byte>, nonce: Block, data: seq<Byte>, result: array<Byte>, at: nat)
    requires at + |data| <= result.Length
    modifies result
    ensures result[..at] == old(result[..at]) && result[at + |data|..] == old(result[at + |data|..])
    ensures result[at..at + |data|] == Ctr(aes, key, nonce, data)
  {
    hide Counter, Xor, Ctr, KeyByte, BlocksUsed, BigEndian;
    var input := new Byte[BLOCK_SIZE](i requires 0 <= i < BLOCK_SIZE => nonce[i]);
    assert input[..] == nonce;
    FirstCounter(nonce);
    NextBlock(0);
    var output := nonce;
    ghost var r := Ctr(aes, key, nonce, data);
    for i := 0 to |data|
      invariant input[..] == Counter(nonce, BlocksUsed(i))
      invariant i % BLOCK_SIZE != 0 ==> output == aes(key, Counter(nonce, i / BLOCK_SIZE))
      invariant forall k | at <= k < at + i :: result[k] == r[k - at]
      invariant forall k | 0 <= k < at || at + i <= k < result.Length :: result[k] == old(result[k])
    {
      output := KeyBlock(aes, key, nonce, input, output, i);
      CtrAt(aes, key, nonce, data, i);
      result[at + i] := Xor(data[i], output[i % BLOCK_SIZE]);
    }
  }

  /** The start of the loop body: every sixteen bytes the next block. */
  method KeyBlock(aes: Aes, key: seq<Byte>, ghost nonce: Block, input: array<Byte>, output0: Block, i: nat) returns (output: Block)
    requires input.Length == BLOCK_SIZE && input[..] == Counter(nonce, BlocksUsed(i))
    requires i % BLOCK_SIZE != 0 ==> output0 == aes(key, Counter(nonce, i / BLOCK_SIZE))
    modifies input
    ensures input[..] == Counter(nonce, BlocksUsed(i + 1)) && output == aes(key, Counter(nonce, i / BLOCK_SIZE))
    ensures output[i % BLOCK_SIZE] == KeyByte(aes, key, nonce, i)
    ensures (i + 1) % BLOCK_SIZE != 0 ==> (i + 1) / BLOCK_SIZE == i / BLOCK_SIZE
  {
    hide Counter, BlocksUsed, BigEndian, Pow256, Digits;
    NextBlock(i);
    output := output0;
    if i % BLOCK_SIZE == 0 {
      output := aes(key, input[..]);
      ghost var before := input[..];
      IncCtr(input);
      CounterNext(nonce, BlocksUsed(i), before, input[..]);
    }
  }

  /** The blocks used for the first `i` bytes. */
  function BlocksUsed(i: nat): (n: nat) {
    (i + BLOCK_SIZE - 1) / BLOCK_SIZE
  }

  lemma {:induction false} NextBlock(i: nat)
    ensures i % BLOCK_SIZE == 0 ==> BlocksUsed(i) == i / BLOCK_SIZE && BlocksUsed(i + 1) == i / BLOCK_SIZE + 1
    ensures i % BLOCK_SIZE != 0 ==> BlocksUsed(i) == i / BLOCK_SIZE + 1 == BlocksUsed(i + 1)
    ensures (i + 1) % BLOCK_SIZE != 0 ==> (i + 1) / BLOCK_SIZE == i / BLOCK_SIZE
  {
  }

  lemma {:induction false} CtrAt(aes: Aes, key: seq<Byte>, nonce: Block, data: seq<Byte>, i: nat)
    requires i < |data|
    ensures Ctr(aes, key, nonce, data)[i] == Xor(data[i], KeyByte(aes, key, nonce, i))
  {
    hide KeyByte, Xor;
  }

  /** Byte `i` is combined with byte `i` modulo 16 of the encrypted block whose number is that of the nonce and `i` / 16
      more, modulo 2^128. */
  lemma {:induction false} CtrByte(aes: Aes, key: seq<Byte>, nonce: Block, data: seq<Byte>, i: nat, b: Block)
    requires i < |data| && BigEndian(b) == (BigEndian(nonce) + i / 16) % Pow256(16)
    ensures Ctr(aes, key, nonce, data)[i] == Xor(data[i], aes(key, b)[i % 16])
  {
    hide BigEndian, Pow256, Digits, Xor, Ctr;
    CtrAt(aes, key, nonce, data, i);
    DigitsValue(BigEndian(nonce) + i / 16, 16);
    ValueDigits(b);
    ValueDigits(Counter(nonce, i / 16));
  }

  // ---------------------------------------------------------------------------
  // Messages
  // ---------------------------------------------------------------------------

  /** allnet_encrypt with the random AES key and nonce it draws; None when RSA fails. */
  function Encrypt(rsa: Rsa, aes: Aes, key: seq<Byte>, nonce: Block, text: seq<Byte>): (r: Option<seq<Byte>>) {
    var maxRsa: int := rsa.size - PADDING_SIZE;
    var input := if maxRsa < |text| then key + nonce + text else text;
    var n := if maxRsa < |text| then maxRsa else |text|;
    if n < 0 || |rsa.encrypt(input[..n])| != rsa.size then None
    else Some(rsa.encrypt(input[..n]) + Ctr(aes, key, nonce, input[n..]))
  }

  /** allnet_decrypt; None when RSA decryption fails, or when the RSA block is too small for the AES key
      and the nonce, which the program does not test for. */
  function Decrypt(rsa: Rsa, aes: Aes, cipher: seq<Byte>): (r: Option<seq<Byte>>) {
    if |cipher| < rsa.size || rsa.size == 0 then None
    else
      match rsa.decrypt(cipher[..rsa.size])
      case None => None
      case Some(rsaText) =>
        if |cipher| <= rsa.size then Some(rsaText)
        else if |rsaText| < AES_KEY_SIZE + BLOCK_SIZE then None
        else
          var nonce := rsaText[AES_KEY_SIZE..AES_KEY_SIZE + BLOCK_SIZE];
          Some(rsaText[AES_KEY_SIZE + BLOCK_SIZE..] + Ctr(aes, rsaText[..AES_KEY_SIZE], nonce, cipher[rsa.size..]))
  }

  /** The bytes that the caller of allnet_decrypt gets: a failure and an empty text are both 0 bytes. */
  function Received(r: Option<seq<Byte>>): (text: seq<Byte>) {
    match r
    case None => []
    case Some(text) => text
  }

  /** Decryption restores every text, on both sides of the limit of one RSA block, exactly when the text
      fits the block or the block has room for the AES key and the nonce: from RSA keys of 90 bytes. */
  lemma {:induction false} RoundTripIff(rsa: Rsa, aes: Aes, key: seq<Byte>, nonce: Block, text: seq<Byte>)
    requires Works(rsa) && |key| == AES_KEY_SIZE
    ensures var cipher := Encrypt(rsa, aes, key, nonce, text);
            (cipher.Some? && Received(Decrypt(rsa, aes, cipher.value)) == text) <==>
            (|text| <= rsa.size - PADDING_SIZE || rsa.size >= 90)
  {
    hide Ctr;
    var maxRsa: int := rsa.size - PADDING_SIZE;
    if |text| <= maxRsa {
      ShortRoundTrip(rsa, aes, key, nonce, text);
      assert WorksFor(rsa, text);
    } else if maxRsa >= 0 {
      var whole := key + nonce + text;
      var rest := whole[maxRsa..];
      LongParts(rsa, aes, key, nonce, text);
      if rsa.size >= 90 {
        HeadParts(key, nonce, text, maxRsa);
        CtrTwice(aes, key, nonce, rest);
      }
    }
  }

  /** The parts of an encrypted text that does not fit one block, and what RSA gives back of it. */
  lemma {:induction false} LongParts(rsa: Rsa, aes: Aes, key: seq<Byte>, nonce: Block, text: seq<Byte>)
    requires Works(rsa) && |key| == AES_KEY_SIZE && 0 <= rsa.size - PADDING_SIZE < |text|
    ensures var n := rsa.size - PADDING_SIZE;
            var head, rest := (key + nonce + text)[..n], (key + nonce + text)[n..];
            && Encrypt(rsa, aes, key, nonce, text) == Some(rsa.encrypt(head) + Ctr(aes, key, nonce, rest))
            && var c := rsa.encrypt(head) + Ctr(aes, key, nonce, rest);
               && |rest| > 0 && |c| == rsa.size + |rest|
               && c[..rsa.size] == rsa.encrypt(head) && c[rsa.size..] == Ctr(aes, key, nonce, rest)
               && (rsa.decrypt(c[..rsa.size]) == Some(head) || (n == 0 && rsa.decrypt(c[..rsa.size]).None?))
  {
    hide Ctr;
    var n := rsa.size - PADDING_SIZE;
    var head, rest := (key + nonce + text)[..n], (key + nonce + text)[n..];
    var c := rsa.encrypt(head) + Ctr(aes, key, nonce, rest);
    assert |head| == n && WorksFor(rsa, head);
    assert c[..rsa.size] == rsa.encrypt(head) && c[rsa.size..] == Ctr(aes, key, nonce, rest);
  }

  /** The number of bytes that allnet_decrypt copies from behind the AES key and the nonce, found by following
      its arithmetic; None when it does not get there. */
  function CopySize(rsa: Rsa, cipher: seq<Byte>): (n: Option<int>) {
    if rsa.size <= 0 || |cipher| < rsa.size then None
    else
      match rsa.decrypt(cipher[..rsa.size])
      case None => None
      case Some(rsaText) => if |cipher| <= rsa.size then None else Some(|rsaText| - (AES_KEY_SIZE + BLOCK_SIZE))
  }

  /** There is more than the RSA block, and the block decrypts to less than an AES key and a nonce. */
  predicate TooShort(rsa: Rsa, cipher: seq<Byte>) {
    |cipher| > rsa.size > 0 && rsa.decrypt(cipher[..rsa.size]).Some?
    && |rsa.decrypt(cipher[..rsa.size]).value| < AES_KEY_SIZE + BLOCK_SIZE
  }

  /** For arbitrary input: the program copies a negative number of bytes exactly then. */
  lemma {:induction false} CopySizeNegativeIff(rsa: Rsa, cipher: seq<Byte>)
    ensures (CopySize(rsa, cipher).Some? && CopySize(rsa, cipher).value < 0) <==> TooShort(rsa, cipher)
  {
    if |cipher| > rsa.size > 0 {
      assert rsa.decrypt(cipher[..rsa.size]).Some? ==> CopySize(rsa, cipher).Some?;
    }
  }

  /** What allnet_encrypt itself makes is of that kind exactly when the text does not fit one block and the
      RSA key has fewer than 90 bytes (and RSA does not refuse the block). */
  lemma {:induction false} TooShortIff(rsa: Rsa, aes: Aes, key: seq<Byte>, nonce: Block, text: seq<Byte>)
    requires Works(rsa) && |key| == AES_KEY_SIZE && Encrypt(rsa, aes, key, nonce, text).Some?
    requires rsa.size > PADDING_SIZE
    ensures TooShort(rsa, Encrypt(rsa, aes, key, nonce, text).value) <==>
            |text| > rsa.size - PADDING_SIZE && rsa.size < 90
  {
    hide Ctr;
    if |text| <= rsa.size - PADDING_SIZE {
      ShortRoundTrip(rsa, aes, key, nonce, text);
      assert WorksFor(rsa, text);
    } else {
      LongParts(rsa, aes, key, nonce, text);
    }
  }

  /** In one block RSA alone decides: the empty text is restored, or decryption reports 0 bytes anyway. */
  lemma {:induction false} ShortRoundTrip(rsa: Rsa, aes: Aes, key: seq<Byte>, nonce: Block, text: seq<Byte>)
    requires Works(rsa) && |text| <= rsa.size - PADDING_SIZE
    ensures Encrypt(rsa, aes, key, nonce, text) == Some(rsa.encrypt(text))
    ensures Decrypt(rsa, aes, rsa.encrypt(text)) == rsa.decrypt(rsa.encrypt(text))
    ensures rsa.decrypt(rsa.encrypt(text)) == Some(text) || text == []
  {
    assert WorksFor(rsa, text);
    assert text[..|text|] == text && text[|text|..] == [];
    assert Ctr(aes, key, nonce, []) == [];
    assert rsa.encrypt(text) + [] == rsa.encrypt(text);
    assert rsa.encrypt(text)[..rsa.size] == rsa.encrypt(text);
  }

  lemma {:induction false} HeadParts(key: seq<Byte>, nonce: Block, text: seq<Byte>, n: nat)
    requires |key| == AES_KEY_SIZE && AES_KEY_SIZE + BLOCK_SIZE <= n < |key + nonce + text|
    ensures var head, rest := (key + nonce + text)[..n], (key + nonce + text)[n..];
            && head[..AES_KEY_SIZE] == key && head[AES_KEY_SIZE..AES_KEY_SIZE + BLOCK_SIZE] == nonce
            && head[AES_KEY_SIZE + BLOCK_SIZE..] + rest == text && rest != []
  {
  }

  // ---------------------------------------------------------------------------
  // The program's buffers
  // ---------------------------------------------------------------------------

  /** allnet_encrypt: the size of the result, or 0. */
  method EncryptMessage(rsa: Rsa, aes: Aes, key: seq<Byte>, nonce: Block, text: seq<Byte>)
    returns (size: nat, result: array?<Byte>)
    requires |key| == AES_KEY_SIZE
    ensures match Encrypt(rsa, aes, key, nonce, text)
            case None => size == 0 && result == null
            case Some(c) => result != null && fresh(result) && size == result.Length && result[..] == c
  {
    hide Ctr;
    var maxRsa: int := rsa.size - PADDING_SIZE;
    var input, rsaInput, resultSize := text, |text|, rsa.size;
    if maxRsa < |text| {
      input := key + nonce + text;
      rsaInput := maxRsa;
      resultSize := |input| + (rsa.size - maxRsa);
    }
    if rsaInput < 0 {
      return 0, null;
    }
    var block := rsa.encrypt(input[..rsaInput]);
    if |block| != rsa.size {
      return 0, null;
    }
    result := new Byte[resultSize](_ => 0);
    Put(result, block);
    var rest := input[rsaInput..];
    if |rest| > 0 {
      AesCtrCrypt(aes, key, nonce, rest, result, |block|);
    }
    size := resultSize;
    assert |Ctr(aes, key, nonce, rest)| == |rest|;
    assert result[..] == result[..|block|] + result[|block|..|block| + |rest|];
  }

  method Put(a: array<Byte>, s: seq<Byte>)
    requires |s| <= a.Length
    modifies a
    ensures a[..|s|] == s && a[|s|..] == old(a[|s|..])
  {
    for i := 0 to |s|
      invariant a[..i] == s[..i] && a[|s|..] == old(a[|s|..])
    {
      a[i] := s[i];
    }
  }

  /** allnet_decrypt: the size of the text, or 0.  Not ok where the program would copy a negative number of
      bytes. */
  method DecryptMessage(rsa: Rsa, aes: Aes, cipher: seq<Byte>) returns (ok: bool, size: nat, result: array?<Byte>)
    ensures ok <==> !(CopySize(rsa, cipher).Some? && CopySize(rsa, cipher).value < 0)
    ensures match Decrypt(rsa, aes, cipher)
            case None => size == 0 && result == null
            case Some(t) => result != null && fresh(result) && size == result.Length && result[..] == t
  {
    hide Ctr;
    if rsa.size <= 0 || |cipher| < rsa.size {
      return true, 0, null;
    }
    var d := rsa.decrypt(cipher[..rsa.size]);
    if d.None? {
      return true, 0, null;
    }
    var rsaText := d.value;
    if |cipher| <= rsa.size {
      result := new Byte[|rsaText|](_ => 0);
      Put(result, rsaText);
      assert result[..] == result[..|rsaText|];
      return true, |rsaText|, result;
    }
    if |rsaText| < AES_KEY_SIZE + BLOCK_SIZE {
      return false, 0, null;
    }
    var key, nonce := rsaText[..AES_KEY_SIZE], rsaText[AES_KEY_SIZE..AES_KEY_SIZE + BLOCK_SIZE];
    var rsaReal := rsaText[AES_KEY_SIZE + BLOCK_SIZE..];
    var aesCipher := cipher[rsa.size..];
    size := |rsaReal| + |aesCipher|;
    result := new Byte[size](_ => 0);
    Put(result, rsaReal);
    AesCtrCrypt(aes, key, nonce, aesCipher, result, |rsaReal|);
    assert result[..] == result[..|rsaReal|] + result[|rsaReal|..|rsaReal| + |aesCipher|];
    ok := true;
  }
}
