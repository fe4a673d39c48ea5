/**
 Which packets a stream accepts, byte by byte, and what happens to a session when other packets are
 delivered to it as well.
 */
module StreamPackets {
  import opened Base
  import opened Stream

  // ---------------------------------------------------------------------------
  // The bytes of a packet
  // ---------------------------------------------------------------------------

  lemma {:induction false} LeadingZero(s: seq<Byte>)
    ensures BigEndian([0] + s) == BigEndian(s)
    decreases |s|
  {
    if s == [] {
      assert [0][..0] == [];
    } else {
      LeadingZero(s[..|s| - 1]);
      assert ([0] + s)[..|s|] == [0] + s[..|s| - 1];
    }
  }

  lemma {:induction false} LeadingZeros(zeros: seq<Byte>, s: seq<Byte>)
    requires forall i | 0 <= i < |zeros| :: zeros[i] == 0
    ensures BigEndian(zeros + s) == BigEndian(s)
    decreases |zeros|
  {
    hide BigEndian;
    if zeros == [] {
      assert zeros + s == s;
    } else {
      LeadingZeros(zeros[1..], s);
      LeadingZero(zeros[1..] + s);
      assert zeros + s == [0] + (zeros[1..] + s);
    }
  }

  /** The block that is encrypted is the counter as a number of sixteen bytes. */
  lemma {:induction false} CounterBlockValue(counter: nat)
    requires counter < U64
    ensures BigEndian(CounterBlock(counter)) == counter
  {
    hide BigEndian, Digits;
    LeadingZeros([0, 0, 0, 0, 0, 0, 0, 0], Digits(counter, 8));
    DigitsValue(counter, 8);
    Powers();
    DivModUnique(counter, U64, 0, counter);
  }

  /** The byte of the key stream for the i-th byte of text after a position. */
  function KeyByte(aes: Block -> Block, p: Pos, i: nat): (b: Byte) {
    aes(Numbered((15 * p.counter + p.offset + i) / 15 % U64))[(15 * p.counter + p.offset + i) % 15]
  }

  /** The block of sixteen bytes that is this number. */
  function Numbered(n: nat): (b: Block) {
    Digits(n, 16)
  }

  lemma {:induction false} NumberedIs(counter: nat)
    requires counter < U64
    ensures Numbered(counter) == CounterBlock(counter)
  {
    hide Digits, BigEndian;
    CounterBlockValue(counter);
    ValueDigits(CounterBlock(counter));
  }

  lemma {:induction false} CryptedByte(aes: Block -> Block, p: Pos, text: seq<Byte>, i: nat)
    requires ValidPos(p) && i < |text|
    ensures Crypt(aes, p, text)[i] == Xor(text[i], KeyByte(aes, p, i))
  {
    hide Crypt, StreamByte, After, Xor, Numbered, CounterBlock;
    CryptAt(aes, p, text, i);
    KeyStreamClosedForm(aes, p, i);
    NumberedIs((Linear(p) + i) / 15 % U64);
  }

  lemma {:induction false} PacketText(keys: Keys, z: Sizes, p: Pos, text: seq<Byte>)
    requires ValidPos(p) && ValidSizes(z)
    ensures forall i | 0 <= i < |text| :: Packet(keys, z, p, text)[i] == Xor(text[i], KeyByte(keys.aes, p, i))
  {
    hide *;
    var s := Packet(keys, z, p, text);
    PacketParts(keys, z, p, text);
    forall i | 0 <= i < |text| ensures s[i] == Xor(text[i], KeyByte(keys.aes, p, i)) {
      CryptedByte(keys.aes, p, text, i);
      assert s[i] == s[..|text|][i];
    }
  }

  lemma {:induction false} PacketCounter(keys: Keys, z: Sizes, p: Pos, text: seq<Byte>)
    requires ValidPos(p) && ValidSizes(z)
    ensures var s, n := Packet(keys, z, p, text), |text|;
            n + z.counter <= |s| && BigEndian(s[n..n + z.counter]) == (16 * p.counter + p.offset) % U64 % Pow256(z.counter)
  {
    hide *;
    PacketParts(keys, z, p, text);
    DigitsValue(SendCounter(p), z.counter);
    SentPosition(p);
  }

  lemma {:induction false} SentPosition(p: Pos)
    ensures SendCounter(p) == (16 * p.counter + p.offset) % U64
  {
  }

  lemma {:induction false} PacketCode(keys: Keys, z: Sizes, p: Pos, text: seq<Byte>)
    requires ValidPos(p) && ValidSizes(z)
    ensures var s, m := Packet(keys, z, p, text), |text| + z.counter;
            forall j | m <= j < |s| :: s[j] == keys.hmac(s[..m])[j - m]
  {
    hide Packet;
    PacketParts(keys, z, p, text);
    AuthenticIff(keys, z, Packet(keys, z, p, text));
  }

  /** A packet byte by byte: the text with the key stream, the low bytes of the position counted in sixteenths of
      a block, most significant first, and the first bytes of the authentication code of all that. */
  lemma {:induction false} PacketBytes(keys: Keys, z: Sizes, p: Pos, text: seq<Byte>)
    requires ValidPos(p) && ValidSizes(z)
    ensures var s, n := Packet(keys, z, p, text), |text|;
            && |s| == n + z.counter + z.hash
            && (forall i | 0 <= i < n :: s[i] == Xor(text[i], KeyByte(keys.aes, p, i)))
            && BigEndian(s[n..n + z.counter]) == (16 * p.counter + p.offset) % U64 % Pow256(z.counter)
            && forall j | n + z.counter <= j < |s| :: s[j] == keys.hmac(s[..n + z.counter])[j - (n + z.counter)]
  {
    hide *;
    PacketText(keys, z, p, text);
    PacketCounter(keys, z, p, text);
    PacketCode(keys, z, p, text);
  }

  // ---------------------------------------------------------------------------
  // What is accepted
  // ---------------------------------------------------------------------------

  /** There is some text, not too long for the buffer, and the last bytes are the code of all before them. */
  ghost predicate Genuine(keys: Keys, z: Sizes, packet: seq<Byte>, room: nat) {
    && 0 < |packet| - z.counter - z.hash <= room && z.hash <= MAC_SIZE
    && var n := |packet| - z.hash;
       forall j | n <= j < |packet| :: packet[j] == keys.hmac(packet[..n])[j - n]
  }

  /** Any packet whatsoever is accepted exactly if it is authentic and its text fits. */
  lemma {:induction false} OpenIff(keys: Keys, z: Sizes, p: Pos, packet: seq<Byte>, room: nat)
    requires ValidPos(p) && ValidSizes(z)
    ensures Open(keys, z, p, packet, room).Some? <==> Genuine(keys, z, packet, room)
  {
    hide Crypt, Start, After;
    if |packet| >= z.hash {
      AuthenticIff(keys, z, packet);
    }
  }

  lemma {:induction false} AuthenticIff(keys: Keys, z: Sizes, packet: seq<Byte>)
    requires ValidSizes(z) && z.hash <= |packet|
    ensures var n := |packet| - z.hash;
            Authentic(keys, z, packet) <==> forall j | n <= j < |packet| :: packet[j] == keys.hmac(packet[..n])[j - n]
  {
    var n := |packet| - z.hash;
    var mac := keys.hmac(packet[..n]);
    if Authentic(keys, z, packet) {
      forall j | n <= j < |packet| ensures packet[j] == mac[j - n] {
        assert packet[n..][j - n] == mac[..z.hash][j - n];
      }
    }
  }

  /** Where an accepted packet is taken to begin: the position, counted in sixteenths of a block, that has the bytes in
      the packet as its low bytes and those of the receiver above; what comes out; and where the receiver is then. */
  lemma {:induction false} OpenedAt(keys: Keys, z: Sizes, p: Pos, packet: seq<Byte>, room: nat) returns (q: Pos)
    requires ValidPos(p) && ValidSizes(z) && Genuine(keys, z, packet, room)
    ensures ValidPos(q)
    ensures var n, d := |packet| - z.counter - z.hash, Pow256(z.counter);
            && (16 * q.counter + q.offset) % d == BigEndian(packet[n..n + z.counter])
            && (16 * q.counter + q.offset) / d == (16 * p.counter + p.offset) % U64 / d
            && var r := Open(keys, z, p, packet, room);
               && r.Some? && |r.value.0| == n && r.value.1 == After(q, n)
               && forall i | 0 <= i < n :: r.value.0[i] == Xor(packet[i], KeyByte(keys.aes, q, i))
  {
    hide Crypt, After, Xor, KeyByte, BigEndian, Pow256, Authentic, Genuine, Decoded, SendCounter;
    var n := |packet| - z.counter - z.hash;
    assert 0 < n && |packet| >= z.counter + z.hash by {
      GenuineSize(keys, z, packet, room);
    }
    OpenIff(keys, z, p, packet, room);
    q := Start(p, z, packet);
    var bytes := packet[n..n + z.counter];
    DecodedFits(p, z, bytes);
    DecodedDigits(p, z, bytes);
    ToPosBack(Decoded(p, z, BigEndian(bytes)));
    var r := Open(keys, z, p, packet, room);
    forall i | 0 <= i < n ensures r.value.0[i] == Xor(packet[i], KeyByte(keys.aes, q, i)) {
      CryptedByte(keys.aes, q, packet[..n], i);
    }
    SentPosition(p);
  }

  lemma {:induction false} GenuineSize(keys: Keys, z: Sizes, packet: seq<Byte>, room: nat)
    requires Genuine(keys, z, packet, room)
    ensures 0 < |packet| - z.counter - z.hash <= room
  {
  }

  lemma {:induction false} ToPosBack(n: nat)
    ensures 16 * ToPos(n).counter + ToPos(n).offset == n
  {
  }

  /** The low digits are those received, the others those of the receiver. */
  lemma {:induction false} DecodedDigits(p: Pos, z: Sizes, bytes: seq<Byte>)
    requires ValidPos(p) && ValidSizes(z) && |bytes| == z.counter
    ensures var n, d := Decoded(p, z, BigEndian(bytes)), Pow256(z.counter);
            n % d == BigEndian(bytes) && n / d == SendCounter(p) / d
  {
    hide BigEndian, Pow256, SendCounter, Upper;
    var r, d := BigEndian(bytes), Pow256(z.counter);
    ValueDigits(bytes);
    if z.counter == 8 {
      Powers();
      DivModUnique(r, d, 0, r);
      DivModUnique(SendCounter(p), d, 0, SendCounter(p));
    } else {
      UpperIs(SendCounter(p), d);
      DivModUnique(SendCounter(p) / d * d + r, d, SendCounter(p) / d, r);
    }
  }

  // ---------------------------------------------------------------------------
  // Other packets in a session
  // ---------------------------------------------------------------------------

  /** A packet of a session with any change in its authentication code is refused wherever the receiver is. */
  lemma {:induction false} ChangedCodeIsRefused(keys: Keys, z: Sizes, sender: Pos, text: seq<Byte>, forged: seq<Byte>, receiver: Pos, room: nat)
    requires ValidPos(sender) && ValidPos(receiver) && ValidSizes(z)
    requires var s := Packet(keys, z, sender, text);
             |forged| == |s| && forged != s && forged[..|s| - z.hash] == s[..|s| - z.hash]
    ensures !Genuine(keys, z, forged, room) && Open(keys, z, receiver, forged, room).None?
  {
    hide Packet, Open, KeyByte, Xor, BigEndian;
    PacketBytes(keys, z, sender, text);
    var s := Packet(keys, z, sender, text);
    var n := |s| - z.hash;
    OpenIff(keys, z, receiver, forged, room);
    if Genuine(keys, z, forged, room) {
      forall i | 0 <= i < |s| ensures forged[i] == s[i] {
        if i < n {
          assert forged[i] == forged[..n][i] && s[i] == s[..n][i];
        }
      }
      assert false;
    }
  }

  /** One byte of the code. */
  lemma {:induction false} ChangedByteIsRefused(keys: Keys, z: Sizes, sender: Pos, text: seq<Byte>, j: nat, b: Byte, receiver: Pos, room: nat)
    requires ValidPos(sender) && ValidPos(receiver) && ValidSizes(z)
    requires |text| + z.counter <= j < |text| + z.counter + z.hash && b != Packet(keys, z, sender, text)[j]
    ensures Open(keys, z, receiver, Packet(keys, z, sender, text)[j := b], room).None?
  {
    hide Packet, Open;
    var s := Packet(keys, z, sender, text);
    assert s[j := b][j] == b;
    assert s[j := b][..|s| - z.hash] == s[..|s| - z.hash];
    ChangedCodeIsRefused(keys, z, sender, text, s[j := b], receiver, room);
  }

  /** The position after a number of packets of any kind. */
  function AfterPackets(keys: Keys, z: Sizes, p: Pos, packets: seq<seq<Byte>>, room: nat): (q: Pos)
    requires ValidPos(p) && ValidSizes(z)
    ensures ValidPos(q)
  {
    if packets == [] then p
    else
      var r := AfterPackets(keys, z, p, packets[..|packets| - 1], room);
      var o := Open(keys, z, r, packets[|packets| - 1], room);
      if o.Some? then o.value.1 else r
  }

  /** The receiver's position before packet `i` of a session and after the other packets delivered until then:
      others[k] are those delivered just before packet `k`. */
  function ReceiverAmong(keys: Keys, z: Sizes, p: Pos, items: seq<Item>, others: seq<seq<seq<Byte>>>, room: nat, i: nat): (q: Pos)
    requires ValidPos(p) && ValidSizes(z) && i <= |items| && i < |others|
    ensures ValidPos(q)
  {
    var r :=
      if i == 0 then p
      else
        var before := ReceiverAmong(keys, z, p, items, others, room, i - 1);
        var o := Open(keys, z, before, Packet(keys, z, SenderAt(p, items, i - 1), items[i - 1].text), room);
        if items[i - 1].arrives && o.Some? then o.value.1 else before;
    AfterPackets(keys, z, r, others[i], room)
  }

  ghost predicate NoneGenuine(keys: Keys, z: Sizes, packets: seq<seq<Byte>>, room: nat) {
    forall k | 0 <= k < |packets| :: !Genuine(keys, z, packets[k], room)
  }

  lemma {:induction false} RefusedChangeNothing(keys: Keys, z: Sizes, p: Pos, packets: seq<seq<Byte>>, room: nat)
    requires ValidPos(p) && ValidSizes(z) && NoneGenuine(keys, z, packets, room)
    ensures AfterPackets(keys, z, p, packets, room) == p
    decreases |packets|
  {
    hide Open, Genuine;
    if packets != [] {
      RefusedChangeNothing(keys, z, p, packets[..|packets| - 1], room);
      OpenIff(keys, z, p, packets[|packets| - 1], room);
    }
  }

  ghost predicate AllRefused(keys: Keys, z: Sizes, others: seq<seq<seq<Byte>>>, room: nat) {
    forall i | 0 <= i < |others| :: NoneGenuine(keys, z, others[i], room)
  }

  lemma {:induction false} AmongIsAt(keys: Keys, z: Sizes, p: Pos, items: seq<Item>, others: seq<seq<seq<Byte>>>, room: nat, i: nat)
    requires ValidPos(p) && ValidSizes(z) && i <= |items| && i < |others| && AllRefused(keys, z, others, room)
    ensures ReceiverAmong(keys, z, p, items, others, room, i) == ReceiverAt(keys, z, p, items, room, i)
    decreases i
  {
    hide Open, Packet, SenderAt, AfterPackets, NoneGenuine;
    if i > 0 {
      AmongIsAt(keys, z, p, items, others, room, i - 1);
    }
    assert NoneGenuine(keys, z, others[i], room);
    RefusedChangeNothing(keys, z, ReceiverAt(keys, z, p, items, room, i), others[i], room);
  }

  /** Packet `i` of the session is decrypted to its text where the receiver is then. */
  ghost predicate ExactAmong(keys: Keys, z: Sizes, p: Pos, items: seq<Item>, others: seq<seq<seq<Byte>>>, room: nat, i: nat)
    requires ValidPos(p) && ValidSizes(z) && i < |items| && i < |others|
  {
    var o := Open(keys, z, ReceiverAmong(keys, z, p, items, others, room, i),
                  Packet(keys, z, SenderAt(p, items, i), items[i].text), room);
    o == Some((items[i].text, SenderAt(p, items, i + 1)))
  }

  /** A session stays exact when packets are delivered to the receiver, at any time and any number of them, that no
      holder of the key made: all packets of the session that arrive are decrypted exactly, and leave the receiver where
      the sender is, if and only if the losses stay in the window. */
  lemma {:induction false} ForgeriesChangeNothing(keys: Keys, z: Sizes, p: Pos, items: seq<Item>, others: seq<seq<seq<Byte>>>, room: nat, n: nat)
    requires ValidPos(p) && ValidSizes(z) && Sendable(items, room) && n <= |items| && n < |others|
    requires AllRefused(keys, z, others, room)
    ensures LossesInWindow(z, p, items, n) ==>
              ReceiverAmong(keys, z, p, items, others, room, n) == SenderAt(p, items, LastArrived(items, n))
    ensures LossesInWindow(z, p, items, n) <==>
              forall i | 0 <= i < n && items[i].arrives :: ExactAmong(keys, z, p, items, others, room, i)
  {
    hide Open, Packet, SenderAt, ReceiverAmong, ReceiverAt, AllRefused, InWindow, LastArrived, Sendable, Exact, Follows,
      ExactAmong;
    SessionExact(keys, z, p, items, room, n);
    AmongIsAt(keys, z, p, items, others, room, n);
    forall i | 0 <= i < n && items[i].arrives
      ensures ExactAmong(keys, z, p, items, others, room, i)
              <==> Exact(keys, z, p, items, room, i) && Follows(keys, z, p, items, room, i)
    {
      ExactAmongIff(keys, z, p, items, others, room, i);
    }
  }

  lemma {:induction false} ExactAmongIff(keys: Keys, z: Sizes, p: Pos, items: seq<Item>, others: seq<seq<seq<Byte>>>, room: nat, i: nat)
    requires ValidPos(p) && ValidSizes(z) && Sendable(items, room) && i < |items| && i < |others| && items[i].arrives
    requires AllRefused(keys, z, others, room)
    ensures ExactAmong(keys, z, p, items, others, room, i)
            <==> Exact(keys, z, p, items, room, i) && Follows(keys, z, p, items, room, i)
  {
    hide Open, Packet, SenderAt, ReceiverAmong, AllRefused, Agree;
    AmongIsAt(keys, z, p, items, others, room, i);
    DecryptsIffAgree(keys, z, ReceiverAt(keys, z, p, items, room, i), SenderAt(p, items, i), items[i].text, room);
  }
}
