/**
 Encrypted streams: a key stream of AES blocks of which fifteen bytes each are used, and packets that
 carry the low bytes of the sender's position so that a receiver can follow despite losses.
 AES and HMAC are arbitrary functions.
 */
module Stream {
  import opened Base

  const U64 := 0x1_0000_0000_0000_0000
  const BLOCK_SIZE := 16
  const MAC_SIZE := 64

  type Block = s: seq<Byte> | |s| == BLOCK_SIZE witness seq(BLOCK_SIZE, _ => 0)
  type Mac = s: seq<Byte> | |s| == MAC_SIZE witness seq(MAC_SIZE, _ => 0)

  /** The two functions with their keys. */
  datatype Keys = Keys(aes: Block -> Block, hmac: seq<Byte> -> Mac)

  /** How many bytes of counter and of authentication a packet carries. */
  datatype Sizes = Sizes(counter: nat, hash: nat)

  /** The test of allnet_stream_init. */
  predicate ValidSizes(z: Sizes) {
    0 < z.counter <= 8 && z.hash <= MAC_SIZE
  }

  /** The counter and the bytes used of its block. */
  datatype Pos = Pos(counter: nat, offset: nat)

  predicate ValidPos(p: Pos) {
    p.counter < U64 && p.offset < BLOCK_SIZE
  }

  // ---------------------------------------------------------------------------
  // The key stream
  // ---------------------------------------------------------------------------

  /** update_counter: the counter in the last eight bytes of a block. */
  function CounterBlock(counter: nat): (b: Block) {
    [0, 0, 0, 0, 0, 0, 0, 0] + Digits(counter, 8)
  }

  /** aes_next_byte moves on to the next block when fifteen bytes were used. */
  function Turned(p: Pos): (p': Pos) {
    if p.offset + 1 == BLOCK_SIZE then Pos(if p.counter + 1 == U64 then 0 else p.counter + 1, 0) else p
  }

  function Next(p: Pos): (p': Pos) {
    Turned(p).(offset := Turned(p).offset + 1)
  }

  function StreamByte(aes: Block -> Block, p: Pos): (b: Byte)
    requires ValidPos(p)
  {
    aes(CounterBlock(Turned(p).counter))[Turned(p).offset]
  }

  /** The position after `n` bytes. */
  function After(p: Pos, n: nat): (p': Pos)
    requires ValidPos(p)
    ensures ValidPos(p')
  {
    if n == 0 then p else Next(After(p, n - 1))
  }

  /** The position counted in bytes of key stream. */
  function Linear(p: Pos): (n: nat) {
    (BLOCK_SIZE - 1) * p.counter + p.offset
  }

  /** Fifteen bytes of every block are used, one after the other: byte n after a position is byte
      (p + n) mod 15 of the block with counter (p + n) / 15, where counters wrap at 2^64. */
  lemma {:induction false} KeyStreamClosedForm(aes: Block -> Block, p: Pos, n: nat)
    requires ValidPos(p)
    ensures StreamByte(aes, After(p, n)) == aes(CounterBlock((Linear(p) + n) / 15 % U64))[(Linear(p) + n) % 15]
  {
    AfterTurned(p, n);
  }

  lemma {:induction false} AfterTurned(p: Pos, n: nat)
    requires ValidPos(p)
    ensures Turned(After(p, n)).counter == (Linear(p) + n) / 15 % U64
    ensures Turned(After(p, n)).offset == (Linear(p) + n) % 15
    decreases n
  {
    if n == 0 {
      LinearIs(p, U64);
    } else {
      AfterTurned(p, n - 1);
      TurnedNext(After(p, n - 1), Linear(p) + n - 1, U64);
    }
  }

  /** The step of the closed form, for counters below `d`. */
  lemma {:induction false} TurnedNext(q: Pos, x: nat, d: nat)
    requires d == U64 && ValidPos(q)
    requires Turned(q).counter == x / 15 % d && Turned(q).offset == x % 15
    ensures Turned(Next(q)).counter == (x + 1) / 15 % d && Turned(Next(q)).offset == (x + 1) % 15
  {
    OneMore(x);
    ModPlusOne(x / 15, d);
  }

  lemma {:induction false} LinearIs(p: Pos, d: nat)
    requires d == U64 && ValidPos(p)
    ensures Turned(p).counter == Linear(p) / 15 % d && Turned(p).offset == Linear(p) % 15
  {
    DivModUnique(Turned(p).counter, d, 0, Turned(p).counter);
    if p.offset == 15 {
      DivModUnique(d, d, 1, 0);
    }
  }

  lemma {:induction false} OneMore(x: nat)
    ensures x % 15 == 14 ==> (x + 1) / 15 == x / 15 + 1 && (x + 1) % 15 == 0
    ensures x % 15 < 14 ==> (x + 1) / 15 == x / 15 && (x + 1) % 15 == x % 15 + 1
  {
  }

  lemma {:induction false} ModPlusOne(x: nat, d: nat)
    requires d > 0
    ensures (x + 1) % d == if x % d + 1 == d then 0 else x % d + 1
  {
    var q := x / d;
    assert x == q * d + x % d;
    if x % d + 1 < d {
      DivModUnique(x + 1, d, q, x % d + 1);
    } else {
      assert x + 1 == (q + 1) * d + 0;
      DivModUnique(x + 1, d, q + 1, 0);
    }
  }

  /** No byte of a block is used twice until all counters have been used. */
  lemma {:induction false} NeverReused(p: Pos, m: nat, n: nat)
    requires ValidPos(p) && m < n < m + 15 * U64
    ensures Turned(After(p, m)) != Turned(After(p, n))
  {
    hide After;
    AfterTurned(p, m);
    AfterTurned(p, n);
    IndexDiffers(Linear(p) + m, Linear(p) + n, U64);
  }

  lemma {:induction false} IndexDiffers(x: nat, y: nat, d: nat)
    requires d > 0 && x < y < x + 15 * d
    ensures x / 15 % d != y / 15 % d || x % 15 != y % 15
  {
    if x / 15 % d == y / 15 % d && x % 15 == y % 15 {
      SameResidue(x / 15, y / 15, d);
    }
  }

  lemma {:induction false} SameResidue(x: nat, y: nat, d: nat)
    requires d > 0 && x % d == y % d
    ensures x < y ==> y - x >= d
  {
    assert x == x / d * d + x % d && y == y / d * d + y % d;
    assert y - x == (y / d - x / d) * d;
    BigMultiple(y / d - x / d, d);
    if y / d == x / d {
    }
  }

  // ---------------------------------------------------------------------------
  // Packets
  // ---------------------------------------------------------------------------

  function Crypt(aes: Block -> Block, p: Pos, text: seq<Byte>): (r: seq<Byte>)
    requires ValidPos(p)
    ensures |r| == |text|
  {
    seq(|text|, i requires 0 <= i < |text| => Xor(text[i], StreamByte(aes, After(p, i))))
  }

  /** The position as it is sent, counting sixteen bytes to the block, in 64 bits. */
  function SendCounter(p: Pos): (n: nat)
    ensures n < U64
  {
    (p.counter * BLOCK_SIZE + p.offset) % U64
  }

  function Authenticated(keys: Keys, z: Sizes, p: Pos, text: seq<Byte>): (s: seq<Byte>)
    requires ValidPos(p)
  {
    Crypt(keys.aes, p, text) + Digits(SendCounter(p), z.counter)
  }

  /** The packet that allnet_stream_encrypt_buffer makes. */
  function Packet(keys: Keys, z: Sizes, p: Pos, text: seq<Byte>): (s: seq<Byte>)
    requires ValidPos(p) && ValidSizes(z)
    ensures |s| == |text| + z.counter + z.hash
  {
    var a := Authenticated(keys, z, p, text);
    a + keys.hmac(a)[..z.hash]
  }

  /** A number with its low bits, the residue modulo `d`, cleared. */
  function Upper(u: nat, d: nat): (n: nat)
    requires d > 0
    ensures n == u - u % d
  {
    ModAtMost(u, d);
    u - u % d
  }

  lemma {:induction false} ModAtMost(u: nat, d: nat)
    requires d > 0
    ensures u % d <= u
  {
    assert u == u / d * d + u % d;
    assert u / d * d >= 0;
  }

  /** The receiver keeps the upper bits of its own position and takes the lower ones from the packet. */
  function Decoded(p: Pos, z: Sizes, received: nat): (n: nat) {
    if z.counter >= 8 then received else Upper(SendCounter(p), Pow256(z.counter)) + received
  }

  function ToPos(n: nat): (p: Pos) {
    Pos(n / BLOCK_SIZE, n % BLOCK_SIZE)
  }

  /** Where the receiver starts to decrypt. */
  function Start(p: Pos, z: Sizes, packet: seq<Byte>): (q: Pos)
    requires ValidPos(p) && ValidSizes(z) && z.counter + z.hash <= |packet|
    ensures ValidPos(q)
  {
    var bytes := packet[|packet| - z.hash - z.counter..|packet| - z.hash];
    DecodedFits(p, z, bytes);
    ToPos(Decoded(p, z, BigEndian(bytes)))
  }

  lemma {:induction false} DecodedFits(p: Pos, z: Sizes, bytes: seq<Byte>)
    requires ValidPos(p) && ValidSizes(z) && |bytes| == z.counter
    ensures Decoded(p, z, BigEndian(bytes)) < U64
  {
    ValueDigits(bytes);
    Powers();
    if z.counter < 8 {
      PowersDivide(z.counter);
      UpperFits(SendCounter(p), Pow256(z.counter), Pow256(8 - z.counter), BigEndian(bytes));
    }
  }

  lemma {:induction false} UpperFits(u: nat, d: nat, n: nat, r: nat)
    requires d > 0 && u < n * d && r < d
    ensures Upper(u, d) + r < n * d
  {
    var q := u / d;
    assert u == q * d + u % d;
    BigMultiple(q - n, d);
    assert (q - n) * d == q * d - n * d;
    BigMultiple(n - q, d);
    assert (n - q) * d == n * d - q * d;
  }

  lemma {:induction false} PowersDivide(k: nat)
    requires 0 < k < 8
    ensures Pow256(8 - k) * Pow256(k) == U64
  {
    Powers();
    assert k == 1 || k == 2 || k == 3 || k == 4 || k == 5 || k == 6 || k == 7;
  }

  lemma {:induction false} Powers()
    ensures Pow256(0) == 1 && Pow256(1) == 0x100 && Pow256(2) == 0x1_0000 && Pow256(3) == 0x100_0000
    ensures Pow256(4) == 0x1_0000_0000 && Pow256(5) == 0x100_0000_0000 && Pow256(6) == 0x1_0000_0000_0000
    ensures Pow256(7) == 0x100_0000_0000_0000 && Pow256(8) == U64
  {
  }

  predicate Authentic(keys: Keys, z: Sizes, packet: seq<Byte>)
    requires ValidSizes(z) && z.hash <= |packet|
  {
    packet[|packet| - z.hash..] == keys.hmac(packet[..|packet| - z.hash])[..z.hash]
  }

  /** What allnet_stream_decrypt_buffer makes of a packet, given room for `room` bytes of text. */
  function Open(keys: Keys, z: Sizes, p: Pos, packet: seq<Byte>, room: nat): (r: Option<(seq<Byte>, Pos)>)
    requires ValidPos(p) && ValidSizes(z)
    ensures r.Some? ==> ValidPos(r.value.1)
  {
    var n := |packet| - z.counter - z.hash;
    if n <= 0 || n > room || !Authentic(keys, z, packet) then None
    else
      var q := Start(p, z, packet);
      Some((Crypt(keys.aes, q, packet[..n]), After(q, n)))
  }

  /** The receiver's position has the upper bits that the packet leaves out, and the sender's position
      fits in 64 bits. */
  predicate Agree(z: Sizes, receiver: Pos, sender: Pos) {
    var s := sender.counter * BLOCK_SIZE + sender.offset;
    s < U64 && (z.counter < 8 ==> Upper(SendCounter(receiver), Pow256(z.counter)) == Upper(s, Pow256(z.counter)))
  }

  // ---------------------------------------------------------------------------
  // One packet
  // ---------------------------------------------------------------------------

  lemma {:induction false} PacketParts(keys: Keys, z: Sizes, p: Pos, text: seq<Byte>)
    requires ValidPos(p) && ValidSizes(z)
    ensures var s := Packet(keys, z, p, text);
            && Authentic(keys, z, s)
            && s[..|text|] == Crypt(keys.aes, p, text)
            && s[|text|..|text| + z.counter] == Digits(SendCounter(p), z.counter)
  {
    var s, a := Packet(keys, z, p, text), Authenticated(keys, z, p, text);
    assert s[..|text| + z.counter] == a;
    assert s[|text| + z.counter..] == keys.hmac(a)[..z.hash];
    assert s[..|text|] == a[..|text|];
    assert s[|text|..|text| + z.counter] == a[|text|..];
  }

  /** The receiver finds the sender's position exactly when the two agree. */
  lemma {:induction false} StartIff(keys: Keys, z: Sizes, receiver: Pos, sender: Pos, text: seq<Byte>)
    requires ValidPos(receiver) && ValidPos(sender) && ValidSizes(z)
    ensures Start(receiver, z, Packet(keys, z, sender, text)) == sender <==> Agree(z, receiver, sender)
    ensures Start(receiver, z, Packet(keys, z, sender, text)).offset == sender.offset
  {
    hide *;
    var n := Decoded(receiver, z, SendCounter(sender) % Pow256(z.counter));
    StartIs(keys, z, receiver, sender, text);
    DecodedIff(z, receiver, sender);
    SameOffset(sender);
    LowDigit(receiver, z, SendCounter(sender));
    LowNibble(n, SendCounter(sender));
    Split(n, sender);
  }

  lemma {:induction false} LowNibble(a: nat, b: nat)
    requires a % 256 == b % 256
    ensures a % BLOCK_SIZE == b % BLOCK_SIZE
  {
    DivModUnique(a, 16, 16 * (a / 256) + a % 256 / 16, a % 256 % 16);
    DivModUnique(b, 16, 16 * (b / 256) + b % 256 / 16, b % 256 % 16);
  }

  lemma {:induction false} StartIs(keys: Keys, z: Sizes, receiver: Pos, sender: Pos, text: seq<Byte>)
    requires ValidPos(receiver) && ValidPos(sender) && ValidSizes(z)
    ensures Start(receiver, z, Packet(keys, z, sender, text))
            == ToPos(Decoded(receiver, z, SendCounter(sender) % Pow256(z.counter)))
  {
    hide Crypt, Pow256, Digits, BigEndian, Decoded, SendCounter, ToPos;
    PacketParts(keys, z, sender, text);
    DigitsValue(SendCounter(sender), z.counter);
  }

  lemma {:induction false} SameOffset(p: Pos)
    requires ValidPos(p)
    ensures SendCounter(p) % BLOCK_SIZE == p.offset
  {
    SendCounterIs(p, U64);
  }

  lemma {:induction false} SendCounterIs(p: Pos, d: nat)
    requires d == U64 && ValidPos(p)
    ensures var s := p.counter * BLOCK_SIZE + p.offset;
            SendCounter(p) == s % d && SendCounter(p) % BLOCK_SIZE == p.offset && (s < d ==> SendCounter(p) == s)
  {
    var s := p.counter * BLOCK_SIZE + p.offset;
    var q := s / d;
    assert s == q * d + s % d;
    assert q * d == 16 * (q * (d / 16));
    if s < d {
      DivModUnique(s, d, 0, s);
    }
  }

  lemma {:induction false} Split(n: nat, p: Pos)
    requires ValidPos(p)
    ensures ToPos(n) == p <==> n == p.counter * BLOCK_SIZE + p.offset
    ensures ToPos(n).offset == n % BLOCK_SIZE
  {
  }

  lemma {:induction false} DecodedIff(z: Sizes, receiver: Pos, sender: Pos)
    requires ValidPos(receiver) && ValidPos(sender) && ValidSizes(z)
    ensures var c, s := SendCounter(sender), sender.counter * BLOCK_SIZE + sender.offset;
            Decoded(receiver, z, c % Pow256(z.counter)) == s <==> Agree(z, receiver, sender)
  {
    hide Digits, BigEndian, SendCounter, Pow256;
    var c := SendCounter(sender);
    SendCounterIs(sender, U64);
    DecodedFits(receiver, z, Digits(c, z.counter));
    DigitsValue(c, z.counter);
    Powers();
    if z.counter == 8 {
      DivModUnique(c, U64, 0, c);
    }
  }

  lemma {:induction false} LowDigit(p: Pos, z: Sizes, c: nat)
    requires ValidSizes(z)
    ensures Decoded(p, z, c % Pow256(z.counter)) % 256 == c % 256
  {
    hide Upper, SendCounter;
    var k := z.counter;
    ModBySteps(c, Pow256(k - 1));
    DivModUnique(c % Pow256(k), 256, c / 256 % Pow256(k - 1), c % 256);
    UpperLow(SendCounter(p), Pow256(k - 1), c % Pow256(k));
  }

  lemma {:induction false} UpperLow(u: nat, d: nat, r: nat)
    requires d > 0
    ensures (Upper(u, 256 * d) + r) % 256 == r % 256
  {
    hide Upper;
    UpperIs(u, 256 * d);
    Times256(u / (256 * d), d);
    Plus256(u / (256 * d) * d, r);
  }

  lemma {:induction false} UpperIs(u: nat, m: nat)
    requires m > 0
    ensures Upper(u, m) == u / m * m
  {
    assert u == u / m * m + u % m;
  }

  lemma {:induction false} Times256(q: nat, d: nat)
    ensures q * (256 * d) == 256 * (q * d)
  {
  }

  lemma {:induction false} Plus256(t: nat, r: nat)
    ensures (256 * t + r) % 256 == r % 256
  {
    DivModUnique(256 * t + r, 256, t + r / 256, r % 256);
  }

  lemma {:induction false} CryptAt(aes: Block -> Block, p: Pos, text: seq<Byte>, i: nat)
    requires ValidPos(p) && i < |text|
    ensures Crypt(aes, p, text)[i] == Xor(text[i], StreamByte(aes, After(p, i)))
  {
    hide Xor, StreamByte, After;
  }

  lemma {:induction false} CryptTwice(aes: Block -> Block, p: Pos, text: seq<Byte>)
    requires ValidPos(p)
    ensures Crypt(aes, p, Crypt(aes, p, text)) == text
  {
    hide StreamByte, After;
    forall i | 0 <= i < |text| ensures Crypt(aes, p, Crypt(aes, p, text))[i] == text[i] {
      XorTwice(text[i], StreamByte(aes, After(p, i)));
    }
  }

  /** Positions that count equally far into their blocks stay apart. */
  lemma {:induction false} AfterInjective(p: Pos, q: Pos, n: nat)
    requires ValidPos(p) && ValidPos(q) && p.offset == q.offset
    ensures After(p, n).offset == After(q, n).offset
    ensures After(p, n) == After(q, n) ==> p == q
    decreases n
  {
    if n > 0 {
      AfterInjective(p, q, n - 1);
    }
  }

  /** Every packet is accepted by a receiver with the same keys and sizes and enough room.  It is
      decrypted to the text, and leaves the receiver where the sender is, if the positions agreed; if they
      did not, the receiver ends somewhere else. */
  lemma {:induction false} DecryptsIffAgree(keys: Keys, z: Sizes, receiver: Pos, sender: Pos, text: seq<Byte>, room: nat)
    requires ValidPos(receiver) && ValidPos(sender) && ValidSizes(z) && 0 < |text| <= room
    ensures var r := Open(keys, z, receiver, Packet(keys, z, sender, text), room);
            && r.Some?
            && (Agree(z, receiver, sender) ==> r.value == (text, After(sender, |text|)))
            && (!Agree(z, receiver, sender) ==> r.value.1 != After(sender, |text|))
  {
    hide Crypt, Start, After, Authentic, Agree;
    var packet := Packet(keys, z, sender, text);
    PacketParts(keys, z, sender, text);
    StartIff(keys, z, receiver, sender, text);
    CryptTwice(keys.aes, sender, text);
    AfterInjective(Start(receiver, z, packet), sender, |text|);
  }

  // ---------------------------------------------------------------------------
  // A session in which packets are lost
  // ---------------------------------------------------------------------------

  datatype Item = Item(text: seq<Byte>, arrives: bool)

  /** The sender's position before packet `i`. */
  function SenderAt(p: Pos, items: seq<Item>, i: nat): (q: Pos)
    requires ValidPos(p) && i <= |items|
    ensures ValidPos(q)
  {
    if i == 0 then p else After(SenderAt(p, items, i - 1), |items[i - 1].text|)
  }

  /** The receiver's position before packet `i`: a packet that is lost or refused changes nothing. */
  function ReceiverAt(keys: Keys, z: Sizes, p: Pos, items: seq<Item>, room: nat, i: nat): (q: Pos)
    requires ValidPos(p) && ValidSizes(z) && i <= |items|
    ensures ValidPos(q)
  {
    if i == 0 then p
    else
      var r := ReceiverAt(keys, z, p, items, room, i - 1);
      var o := Open(keys, z, r, Packet(keys, z, SenderAt(p, items, i - 1), items[i - 1].text), room);
      if items[i - 1].arrives && o.Some? then o.value.1 else r
  }

  /** The packet just after the last one before `i` that arrived; 0 if none did. */
  function LastArrived(items: seq<Item>, i: nat): (k: nat)
    requires i <= |items|
    ensures k <= i
  {
    if i == 0 then 0 else if items[i - 1].arrives then i else LastArrived(items, i - 1)
  }

  /** Every packet that arrives left the sender while its upper bits were those it had just after the
      packet that arrived before. */
  ghost predicate LossesInWindow(z: Sizes, p: Pos, items: seq<Item>, n: nat)
    requires ValidPos(p) && n <= |items|
  {
    forall i | 0 <= i < n && items[i].arrives :: InWindow(z, p, items, i)
  }

  predicate InWindow(z: Sizes, p: Pos, items: seq<Item>, i: nat)
    requires ValidPos(p) && i < |items|
  {
    Agree(z, SenderAt(p, items, LastArrived(items, i)), SenderAt(p, items, i))
  }

  ghost predicate Sendable(items: seq<Item>, room: nat) {
    forall i | 0 <= i < |items| :: 0 < |items[i].text| <= room
  }

  /** In every session from equal positions: all packets that arrive are decrypted exactly, and the
      receiver follows the sender, if and only if the losses stay in the window. */
  lemma {:induction false} SessionExact(keys: Keys, z: Sizes, p: Pos, items: seq<Item>, room: nat, n: nat)
    requires ValidPos(p) && ValidSizes(z) && Sendable(items, room) && n <= |items|
    ensures LossesInWindow(z, p, items, n) ==>
              && ReceiverAt(keys, z, p, items, room, n) == SenderAt(p, items, LastArrived(items, n))
              && forall i | 0 <= i < n && items[i].arrives :: Exact(keys, z, p, items, room, i)
    ensures LossesInWindow(z, p, items, n) <==>
              forall i | 0 <= i < n && items[i].arrives :: Follows(keys, z, p, items, room, i)
    decreases n
  {
    hide After, Open, Packet, Agree;
    if n > 0 {
      SessionExact(keys, z, p, items, room, n - 1);
      assert LossesInWindow(z, p, items, n) <==>
             LossesInWindow(z, p, items, n - 1) && (items[n - 1].arrives ==> InWindow(z, p, items, n - 1));
      DecryptsIffAgree(keys, z, ReceiverAt(keys, z, p, items, room, n - 1), SenderAt(p, items, n - 1), items[n - 1].text, room);
    }
  }

  /** Packet `i` is decrypted to its text. */
  predicate Exact(keys: Keys, z: Sizes, p: Pos, items: seq<Item>, room: nat, i: nat)
    requires ValidPos(p) && ValidSizes(z) && i < |items|
  {
    var o := Open(keys, z, ReceiverAt(keys, z, p, items, room, i), Packet(keys, z, SenderAt(p, items, i), items[i].text), room);
    o.Some? && o.value.0 == items[i].text
  }

  /** Packet `i` leaves the receiver where the sender is. */
  predicate Follows(keys: Keys, z: Sizes, p: Pos, items: seq<Item>, room: nat, i: nat)
    requires ValidPos(p) && ValidSizes(z) && i < |items|
  {
    ReceiverAt(keys, z, p, items, room, i + 1) == SenderAt(p, items, i + 1)
  }

  // ---------------------------------------------------------------------------
  // The state as the program keeps it
  // ---------------------------------------------------------------------------

  lemma {:induction false} SameTail(a: seq<Byte>, b: seq<Byte>, at: nat, k: nat)
    requires |a| == |b| && at + k <= |a| && a[at..] == b[at..]
    ensures a[at + k..] == b[at + k..]
  {
    assert a[at + k..] == a[at..][k..] && b[at + k..] == b[at..][k..];
  }

  class StreamState {
    const keys: Keys
    const sizes: Sizes
    var counter: nat
    var blockOffset: nat

    ghost predicate Valid()
      reads this
    {
      ValidSizes(sizes) && ValidPos(Position())
    }

    function Position(): (p: Pos)
      reads this
    {
      Pos(counter, blockOffset)
    }

    /** allnet_stream_init with valid sizes */
    constructor (keys: Keys, sizes: Sizes)
      requires ValidSizes(sizes)
      ensures Valid() && this.keys == keys && this.sizes == sizes && Position() == Pos(1, 0)
    {
      this.keys, this.sizes, counter, blockOffset := keys, sizes, 1, 0;
    }

    /** aes_next_byte, called to initialize the block. */
    method InitBlock() returns (block: Block)
      requires Valid()
      ensures block == keys.aes(CounterBlock(counter))
    {
      block := keys.aes(CounterBlock(counter));
    }

    /** aes_next_byte */
    method NextByte(block: Block) returns (b: Byte, block': Block)
      requires Valid() && block == keys.aes(CounterBlock(counter))
      modifies this
      ensures Valid() && Position() == Next(old(Position()))
      ensures b == StreamByte(keys.aes, old(Position())) && block' == keys.aes(CounterBlock(counter))
    {
      block' := block;
      if (blockOffset + 1) % BLOCK_SIZE == 0 {
        counter := if counter + 1 == U64 then 0 else counter + 1;
        blockOffset := 0;
        block' := keys.aes(CounterBlock(counter));
      }
      b := block'[blockOffset];
      blockOffset := blockOffset + 1;
    }

    /** The loop of both directions: input and output may be the same buffer. */
    method CryptBuffer(input: array<Byte>, n: nat, output: array<Byte>)
      requires Valid() && n <= input.Length && n <= output.Length
      modifies this, output
      ensures Valid() && Position() == After(old(Position()), n)
      ensures output[..n] == Crypt(keys.aes, old(Position()), old(input[..n])) && output[n..] == old(output[n..])
    {
      hide StreamByte, Next, CounterBlock, Xor, Crypt, ValidSizes;
      ghost var p, text := Position(), input[..n];
      ghost var crypt := Crypt(keys.aes, p, text);
      var block := InitBlock();
      for i := 0 to n
        invariant Valid() && Position() == After(p, i) && block == keys.aes(CounterBlock(counter))
        invariant forall k | i <= k < n :: input[k] == text[k]
        invariant forall k | 0 <= k < i :: output[k] == crypt[k]
        invariant forall k | n <= k < output.Length :: output[k] == old(output[k])
      {
        var b;
        CryptAt(keys.aes, p, text, i);
        b, block := NextByte(block);
        output[i] := Xor(input[i], b);
      }
    }

    /** allnet_stream_encrypt_buffer: the size written, or 0 if there is no text or too little room. */
    method EncryptBuffer(text: array<Byte>, tsize: nat, result: array<Byte>) returns (written: nat)
      requires Valid() && tsize <= text.Length
      modifies this, result
      ensures Valid()
      ensures tsize == 0 || tsize + sizes.counter + sizes.hash > result.Length ==>
                written == 0 && Position() == old(Position()) && result[..] == old(result[..])
      ensures 0 < tsize && tsize + sizes.counter + sizes.hash <= result.Length ==>
                && written == tsize + sizes.counter + sizes.hash
                && result[..written] == Packet(keys, sizes, old(Position()), old(text[..tsize]))
                && result[written..] == old(result[written..])
                && Position() == After(old(Position()), tsize)
    {
      hide Crypt, After, SendCounter, Digits;
      if tsize == 0 || tsize + sizes.counter + sizes.hash > result.Length {
        return 0;
      }
      ghost var p, t, r0 := Position(), text[..tsize], result[..];
      var sendCounter := SendCounter(Position());
      CryptBuffer(text, tsize, result);
      written := tsize + sizes.counter;
      DigitsSuffix(sendCounter, 8, sizes.counter);
      SameTail(result[..], r0, tsize, sizes.counter);
      Put(result, tsize, Digits(sendCounter, 8)[8 - sizes.counter..]);
      assert result[..written] == Authenticated(keys, sizes, p, t);
      var mac := keys.hmac(result[..written]);
      SameTail(result[..], r0, written, sizes.hash);
      Put(result, written, mac[..sizes.hash]);
      written := written + sizes.hash;
    }

    /** memcpy of bytes into a buffer. */
    static method Put(a: array<Byte>, at: nat, s: seq<Byte>)
      requires at + |s| <= a.Length
      modifies a
      ensures a[..at + |s|] == old(a[..at]) + s && a[at + |s|..] == old(a[at + |s|..])
    {
      for i := 0 to |s|
        invariant forall k | at <= k < at + i :: a[k] == s[k - at]
        invariant forall k | 0 <= k < at || at + i <= k < a.Length :: a[k] == old(a[k])
      {
        a[at + i] := s[i];
      }
    }

    /** allnet_stream_decrypt_buffer: a refused packet changes nothing. */
    method DecryptBuffer(packet: array<Byte>, psize: nat, text: array<Byte>) returns (ok: bool)
      requires Valid() && psize <= packet.Length
      modifies this, text
      ensures Valid()
      ensures match Open(keys, sizes, old(Position()), old(packet[..psize]), text.Length)
              case None => !ok && Position() == old(Position()) && text[..] == old(text[..])
              case Some((t, q)) =>
                ok && Position() == q && |t| <= text.Length && text[..] == t + old(text[|t|..])
    {
      hide Crypt, After, Decoded, BigEndian;
      ghost var p, s := Position(), packet[..psize];
      if psize <= sizes.counter + sizes.hash || psize - (sizes.counter + sizes.hash) > text.Length {
        return false;
      }
      if !Authentic(keys, sizes, packet[..psize]) {
        return false;
      }
      var received := BigEndian(packet[psize - sizes.hash - sizes.counter..psize - sizes.hash]);
      assert packet[psize - sizes.hash - sizes.counter..psize - sizes.hash]
             == s[psize - sizes.hash - sizes.counter..psize - sizes.hash];
      var n := Decoded(Position(), sizes, received);
      assert ToPos(n) == Start(p, sizes, s);
      blockOffset, counter := n % BLOCK_SIZE, n / BLOCK_SIZE;
      var rsize := psize - (sizes.counter + sizes.hash);
      CryptBuffer(packet, rsize, text);
      assert s[..rsize] == old(packet[..rsize]);
      ok := true;
    }
  }
}
