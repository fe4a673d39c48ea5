/** The packet header fields that caching and forwarding look at. */
module Packets {
  import opened Base

  const ALLNET_HEADER_SIZE := 24

  const MESSAGE_TYPE := 1
  const HOPS := 2
  const MAX_HOPS := 3
  const TRANSPORT := 7

  const TRANSPORT_STREAM := 1
  const TRANSPORT_ACK_REQ := 2
  const TRANSPORT_LARGE := 4
  const TRANSPORT_EXPIRATION := 8
  const TRANSPORT_DO_NOT_CACHE := 16

  predicate Flag(transport: Byte, mask: nat)
    requires mask > 0
  {
    transport / mask % 2 == 1
  }

  function When(c: bool, n: nat): nat {
    if c then n else 0
  }

  function MessageIdOffset(transport: Byte): (n: nat) {
    ALLNET_HEADER_SIZE + When(Flag(transport, TRANSPORT_STREAM), 4)
  }

  function ExpirationOffset(transport: Byte): (n: nat) {
    MessageIdOffset(transport) + When(Flag(transport, TRANSPORT_ACK_REQ), 16)
    + When(Flag(transport, TRANSPORT_LARGE), 48)
  }

  /** ALLNET_SIZE: the size of the whole header. */
  function FullHeaderSize(transport: Byte): (n: nat) {
    ExpirationOffset(transport) + When(Flag(transport, TRANSPORT_EXPIRATION), 8)
  }

  /** is_expired_message */
  predicate Expired(m: seq<Byte>, now: nat) {
    && |m| >= ALLNET_HEADER_SIZE
    && Flag(m[TRANSPORT], TRANSPORT_EXPIRATION)
    && |m| >= FullHeaderSize(m[TRANSPORT])
    && ReadB64(m[ExpirationOffset(m[TRANSPORT])..]) < now
  }

  /** pcache_message_id: the explicit ID of a message that asks for an ack, or else a hash of
      everything after the header. */
  function MessageId(sha: seq<Byte> -> Id, m: seq<Byte>): (id: Option<Id>) {
    if |m| < ALLNET_HEADER_SIZE then None
    else
      var transport := m[TRANSPORT];
      if |m| <= FullHeaderSize(transport) then None
      else if Flag(transport, TRANSPORT_ACK_REQ) then
        Some(m[MessageIdOffset(transport)..MessageIdOffset(transport) + MESSAGE_ID_SIZE])
      else Some(sha(m[FullHeaderSize(transport)..]))
  }

  /** The ID of a packet depends on neither hop field. */
  lemma {:induction false} MessageIdIgnoresHops(sha: seq<Byte> -> Id, m: seq<Byte>, field: nat, value: Byte)
    requires field == HOPS || field == MAX_HOPS
    requires |m| >= ALLNET_HEADER_SIZE
    ensures MessageId(sha, m[field := value]) == MessageId(sha, m)
  {
    var transport := m[TRANSPORT];
    if |m| > FullHeaderSize(transport) {
      var off := MessageIdOffset(transport);
      assert m[field := value][FullHeaderSize(transport)..] == m[FullHeaderSize(transport)..];
      if Flag(transport, TRANSPORT_ACK_REQ) {
        assert m[field := value][off..off + MESSAGE_ID_SIZE] == m[off..off + MESSAGE_ID_SIZE];
      }
    }
  }

  lemma {:induction false} ExpiryIsFinal(m: seq<Byte>, now: nat, later: nat)
    requires now <= later && Expired(m, now)
    ensures Expired(m, later)
  {
  }

  const LEAST_ACK_REQUEST := ALLNET_HEADER_SIZE + MESSAGE_ID_SIZE + 1

  /** A message of a given size that asks for an ack under a given ID and never expires. */
  function AckRequest(id: Id, size: nat): (m: seq<Byte>)
    requires size >= LEAST_ACK_REQUEST
    ensures |m| == size && m[TRANSPORT] == TRANSPORT_ACK_REQ
  {
    seq(size, i requires 0 <= i < size =>
      if i == TRANSPORT then TRANSPORT_ACK_REQ
      else if ALLNET_HEADER_SIZE <= i < ALLNET_HEADER_SIZE + MESSAGE_ID_SIZE then id[i - ALLNET_HEADER_SIZE]
      else 0)
  }

  lemma {:induction false} AckRequestId(sha: seq<Byte> -> Id, id: Id, size: nat, now: nat)
    requires size >= LEAST_ACK_REQUEST
    ensures MessageId(sha, AckRequest(id, size)) == Some(id)
    ensures !Expired(AckRequest(id, size), now)
  {
    var m := AckRequest(id, size);
    assert m[ALLNET_HEADER_SIZE..ALLNET_HEADER_SIZE + MESSAGE_ID_SIZE] == id;
  }
}
