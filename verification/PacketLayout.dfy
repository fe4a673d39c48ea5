/** Packets put together from their parts, and what caching reads in them. */
module PacketLayout {
  import opened Base
  import opened Packets

  /** The optional parts of the header: the ID of a stream, the ID of the message, which asks for an ack, the three
      fields of a packet that is part of a larger message, and the time after which the message has expired. */
  datatype Options = Options(stream: Option<seq<Byte>>, ack: Option<Id>, large: Option<seq<Byte>>, expiration: Option<seq<Byte>>)

  predicate ValidOptions(o: Options) {
    && (o.stream.Some? ==> |o.stream.value| == 4) && (o.large.Some? ==> |o.large.value| == 48)
    && (o.expiration.Some? ==> |o.expiration.value| == 8)
  }

  /** A fixed part of the header whose four lowest transport bits announce the optional parts. */
  predicate Announces(h: seq<Byte>, o: Options) {
    && |h| == 24
    && (h[7] % 2 == 1 <==> o.stream.Some?) && (h[7] / 2 % 2 == 1 <==> o.ack.Some?)
    && (h[7] / 4 % 2 == 1 <==> o.large.Some?) && (h[7] / 8 % 2 == 1 <==> o.expiration.Some?)
  }

  function Bytes(o: Option<seq<Byte>>): (s: seq<Byte>) {
    if o.None? then [] else o.value
  }

  /** The parts of the header in front of the expiration time. */
  function Front(h: seq<Byte>, o: Options): (s: seq<Byte>) {
    h + Bytes(o.stream) + Bytes(o.ack) + Bytes(o.large)
  }

  function Assembled(h: seq<Byte>, o: Options, payload: seq<Byte>): (m: seq<Byte>) {
    Front(h, o) + Bytes(o.expiration) + payload
  }

  lemma {:induction false} Sizes(h: seq<Byte>, o: Options)
    requires Announces(h, o) && ValidOptions(o)
    ensures MessageIdOffset(h[7]) == 24 + |Bytes(o.stream)|
    ensures ExpirationOffset(h[7]) == |Front(h, o)|
    ensures FullHeaderSize(h[7]) == |Front(h, o)| + |Bytes(o.expiration)|
  {
  }

  lemma {:induction false} TransportOf(h: seq<Byte>, o: Options, payload: seq<Byte>)
    requires Announces(h, o)
    ensures |Assembled(h, o, payload)| == |Front(h, o)| + |Bytes(o.expiration)| + |payload| >= 24
    ensures Assembled(h, o, payload)[7] == h[7]
  {
  }

  /** The ID of a packet with a payload is the one that it carries, or else the hash of the payload; without payload there
      is none. */
  lemma {:induction false} IdOfAssembled(sha: seq<Byte> -> Id, h: seq<Byte>, o: Options, payload: seq<Byte>)
    requires Announces(h, o) && ValidOptions(o)
    ensures MessageId(sha, Assembled(h, o, payload)) ==
            if payload == [] then None else if o.ack.Some? then Some(o.ack.value) else Some(sha(payload))
  {
    hide Flag, Bytes;
    var m := Assembled(h, o, payload);
    Sizes(h, o);
    TransportOf(h, o, payload);
    AckFlag(h, o);
    assert m[|Front(h, o)| + |Bytes(o.expiration)|..] == payload;
    if o.ack.Some? {
      AckPart(h, o, payload);
    }
  }

  lemma {:induction false} AckFlag(h: seq<Byte>, o: Options)
    requires Announces(h, o)
    ensures Flag(h[7], TRANSPORT_ACK_REQ) <==> o.ack.Some?
    ensures Flag(h[7], TRANSPORT_EXPIRATION) <==> o.expiration.Some?
  {
  }

  lemma {:induction false} AckPart(h: seq<Byte>, o: Options, payload: seq<Byte>)
    requires Announces(h, o) && ValidOptions(o) && o.ack.Some?
    ensures var at, m := 24 + |Bytes(o.stream)|, Assembled(h, o, payload);
            at + 16 <= |m| && m[at..at + 16] == o.ack.value
  {
    hide Announces;
    var a, b, c := h + Bytes(o.stream), o.ack.value, Bytes(o.large) + Bytes(o.expiration) + payload;
    assert Assembled(h, o, payload) == a + b + c;
    assert |a| == 24 + |Bytes(o.stream)| by {
      assert |h| == 24 by {
        HeaderSize(h, o);
      }
    }
  }

  lemma {:induction false} HeaderSize(h: seq<Byte>, o: Options)
    requires Announces(h, o)
    ensures |h| == 24
  {
  }

  /** A packet has expired exactly if it carries a time, most significant byte first, that has passed. */
  lemma {:induction false} AssembledExpires(h: seq<Byte>, o: Options, payload: seq<Byte>, now: nat)
    requires Announces(h, o) && ValidOptions(o)
    ensures Expired(Assembled(h, o, payload), now) <==> o.expiration.Some? && BigEndian(o.expiration.value) < now
  {
    hide Flag, Bytes, Front, BigEndian;
    var m := Assembled(h, o, payload);
    Sizes(h, o);
    TransportOf(h, o, payload);
    AckFlag(h, o);
    if o.expiration.Some? {
      BytesOf(o.expiration);
      assert m[|Front(h, o)|..] == o.expiration.value + payload;
      assert (o.expiration.value + payload)[..8] == o.expiration.value;
    }
  }

  lemma {:induction false} BytesOf(o: Option<seq<Byte>>)
    requires o.Some?
    ensures Bytes(o) == o.value
  {
  }

  function Part(present: bool, m: seq<Byte>, at: nat, n: nat): (o: Option<seq<Byte>>)
    requires present ==> at + n <= |m|
  {
    if present then Some(m[at..at + n]) else None
  }

  /** Every packet is put together in this way, or too short for the parts that it announces; then it has no ID, and never
      expires. */
  lemma {:induction false} EveryPacket(sha: seq<Byte> -> Id, m: seq<Byte>, now: nat) returns (o: Options, payload: seq<Byte>)
    requires |m| >= 24
    ensures || (Announces(m[..24], o) && ValidOptions(o) && m == Assembled(m[..24], o, payload))
            || (MessageId(sha, m).None? && !Expired(m, now))
  {
    var t := m[7];
    var full := FullHeaderSize(t);
    if |m| < full {
      o, payload := Options(None, None, None, None), [];
    } else {
      hide MessageId, Expired;
      var a := 24 + When(t % 2 == 1, 4);
      var b := a + When(t / 2 % 2 == 1, 16);
      var c := b + When(t / 4 % 2 == 1, 48);
      assert full == c + When(t / 8 % 2 == 1, 8);
      var ack := Part(t / 2 % 2 == 1, m, a, 16);
      o := Options(Part(t % 2 == 1, m, 24, 4), if ack.None? then None else Some(ack.value),
                   Part(t / 4 % 2 == 1, m, b, 48), Part(t / 8 % 2 == 1, m, c, 8));
      payload := m[full..];
      Cuts(m, a, b, c, full);
      assert m[24..24] == [] && m[a..a] == [] && m[b..b] == [] && m[c..c] == [];
    }
  }

  lemma {:induction false} Cuts(m: seq<Byte>, a: nat, b: nat, c: nat, d: nat)
    requires 24 <= a <= b <= c <= d <= |m|
    ensures m == m[..24] + m[24..a] + m[a..b] + m[b..c] + m[c..d] + m[d..]
  {
  }
}
