/**
 The packet cache as a state machine on values: message table, ack table, token table, the memo of
 fruitless requests, and the Bloom filters.  The class in Pcache.dfy refines these functions.

 Random choices of the program are arguments.  One component is history only, never read by a step:
 `asked` is the request for which a memo bit was set.
 */
module PcacheModel {
  import opened Base
  import opened Bloom
  import opened MessageGc
  import opened Packets
  import opened Records
  import opened TokenBits

  const ACKS_PER_SLOT := 64
  const TOKEN_GC_SECONDS := 60

  datatype Ack = Ack(ack: Id, id: Id, used: bool, maxHops: nat, sent: Bits)

  /** A data request; which messages match it is not modelled further. */
  datatype Request = Request(token: Token, matches: seq<Byte> -> bool)

  datatype Cache = Cache(
    entries: seq<seq<Rec>>,
    acks: seq<Ack>,
    tokens: seq<Token>,
    zero: Bits,
    asked: map<int, Request>,
    bloom: Bloom,
    now: nat,
    lastTokenGc: nat)

  /** The byte order of the host, and the hash function. */
  datatype Config = Config(order: ByteOrder, sha: seq<Byte> -> Id)

  predicate Sized(s: Cache) {
    |s.entries| > 0 && AckSlots(s.acks)
  }

  predicate AckSlots(acks: seq<Ack>) {
    |acks| > 0 && |acks| % ACKS_PER_SLOT == 0
  }

  // ---------------------------------------------------------------------------
  // Lookups
  // ---------------------------------------------------------------------------

  /** The position of the first record with an ID among the first `n`. */
  function FindRec(rs: seq<Rec>, id: Id, n: nat): (i: Option<nat>)
    requires n <= |rs|
    ensures i.Some? ==> i.value < n && rs[i.value].id == id
    ensures i.None? ==> forall k | 0 <= k < n :: rs[k].id != id
  {
    if n == 0 then None
    else
      var i := FindRec(rs, id, n - 1);
      if i.Some? then i else if rs[n - 1].id == id then Some(n - 1) else None
  }

  function Bucket(s: Cache, id: Id): (e: nat)
    requires Sized(s)
    ensures e < |s.entries|
  {
    ReadB64(id) % |s.entries|
  }

  ghost predicate InMessages(s: Cache, id: Id)
    requires Sized(s)
  {
    FindRec(s.entries[Bucket(s, id)], id, |s.entries[Bucket(s, id)]|).Some?
  }

  function SlotBase(i: nat): (base: nat)
    ensures base <= i < base + ACKS_PER_SLOT
  {
    i - i % ACKS_PER_SLOT
  }

  function AckHome(acks: seq<Ack>, id: Id): (i: nat)
    requires AckSlots(acks)
    ensures i < |acks| && SlotBase(i) + ACKS_PER_SLOT <= |acks|
  {
    var i := ReadB64(id) % |acks|;
    SlotFits(acks, i);
    i
  }

  lemma {:induction false} SlotFits(acks: seq<Ack>, i: nat)
    requires AckSlots(acks) && i < |acks|
    ensures SlotBase(i) + ACKS_PER_SLOT <= |acks|
  {
    assert |acks| == ACKS_PER_SLOT * (|acks| / ACKS_PER_SLOT);
    assert i / ACKS_PER_SLOT < |acks| / ACKS_PER_SLOT;
  }

  /** find_one_ack: the first used entry with an ID among the first `n` of the slot at `base`. */
  function FindAck(acks: seq<Ack>, base: nat, id: Id, n: nat): (i: Option<nat>)
    requires base + n <= |acks|
    ensures i.Some? ==> base <= i.value < base + n && acks[i.value].used && acks[i.value].id == id
    ensures i.None? ==> forall k | base <= k < base + n :: !(acks[k].used && acks[k].id == id)
  {
    if n == 0 then None
    else
      var i := FindAck(acks, base, id, n - 1);
      if i.Some? then i
      else if acks[base + n - 1].used && acks[base + n - 1].id == id then Some(base + n - 1) else None
  }

  function AckIndex(acks: seq<Ack>, id: Id): (i: Option<nat>)
    requires AckSlots(acks)
    ensures i.Some? ==> i.value < |acks| && acks[i.value].used && acks[i.value].id == id
  {
    FindAck(acks, SlotBase(AckHome(acks, id)), id, ACKS_PER_SLOT)
  }

  ghost predicate InAcks(s: Cache, id: Id)
    requires Sized(s)
  {
    AckIndex(s.acks, id).Some?
  }

  /** The ID is in one of the two main tables. */
  ghost predicate InTables(s: Cache, id: Id)
    requires Sized(s)
  {
    InMessages(s, id) || InAcks(s, id)
  }

  /** What the daemon asks before it forwards: acked, in the filter, or in the message table. */
  ghost predicate Remembered(s: Cache, id: Id)
    requires Sized(s)
  {
    InTables(s, id) || Contains(s.bloom, MESSAGE_FILTER, id)
  }

  /** find_free_ack_in_slot */
  function FindFree(acks: seq<Ack>, base: nat, n: nat): (i: Option<nat>)
    requires base + n <= |acks|
    ensures i.Some? ==> base <= i.value < base + n && !acks[i.value].used
    ensures i.None? ==> forall k | base <= k < base + n :: acks[k].used
  {
    if n == 0 then None
    else
      var i := FindFree(acks, base, n - 1);
      if i.Some? then i else if !acks[base + n - 1].used then Some(base + n - 1) else None
  }

  function FindToken(tokens: seq<Token>, token: Token, n: nat): (i: Option<nat>)
    requires n <= |tokens|
    ensures i.Some? ==> i.value < n && tokens[i.value] == token
    ensures i.None? ==> forall k | 0 <= k < n :: tokens[k] != token
  {
    if n == 0 then None
    else
      var i := FindToken(tokens, token, n - 1);
      if i.Some? then i else if tokens[n - 1] == token then Some(n - 1) else None
  }

  // ---------------------------------------------------------------------------
  // Garbage collection
  // ---------------------------------------------------------------------------

  /** An ack that leaves the table is noted in one filter, and its message ID in another. */
  function NoteAck(b: Bloom, a: Ack): (b': Bloom) {
    Note(Note(b, ACK_FILTER, a.ack), MESSAGE_FILTER, a.id)
  }

  function UsedCount(acks: seq<Ack>, base: nat, n: nat): (count: nat)
    requires base + n <= |acks|
    ensures count <= n
  {
    if n == 0 then 0 else UsedCount(acks, base, n - 1) + if acks[base + n - 1].used then 1 else 0
  }

  /** One random deletion of gc_ack_slot that hits a used entry. */
  function DropAck(acks: seq<Ack>, i: nat): (acks': seq<Ack>)
    requires i < |acks|
  {
    acks[i := acks[i].(used := false)]
  }

  /** The successive deletions in one slot: only hits are listed, a pick of an unused entry does nothing. */
  ghost predicate ValidPicks(acks: seq<Ack>, base: nat, picks: seq<nat>)
    requires base + ACKS_PER_SLOT <= |acks|
    decreases |picks|
  {
    if UsedCount(acks, base, ACKS_PER_SLOT) <= ACKS_PER_SLOT / 2 then picks == []
    else
      && picks != [] && base <= picks[0] < base + ACKS_PER_SLOT && acks[picks[0]].used
      && ValidPicks(DropAck(acks, picks[0]), base, picks[1..])
  }

  /** Delete the picked acks, noting each ack and its ID. */
  ghost function DropAcks(acks: seq<Ack>, b: Bloom, picks: seq<nat>): (r: (seq<Ack>, Bloom))
    ensures |r.0| == |acks|
    decreases |picks|
  {
    if picks == [] || picks[0] >= |acks| then (acks, b)
    else
      DropAcks(DropAck(acks, picks[0]), NoteAck(b, acks[picks[0]]), picks[1..])
  }

  /** The bitmaps of all entries of a slot, used or not, move with the token table. */
  function ShiftSlot(order: ByteOrder, acks: seq<Ack>, base: nat, shift: nat): (acks': seq<Ack>)
    ensures |acks'| == |acks|
  {
    if shift > 0 then
      seq(|acks|, i requires 0 <= i < |acks| =>
        if base <= i < base + ACKS_PER_SLOT then acks[i].(sent := ShiftToken(order, acks[i].sent, shift)) else acks[i])
    else acks
  }

  ghost function GcSlot(order: ByteOrder, acks: seq<Ack>, b: Bloom, base: nat, picks: seq<nat>, shift: nat)
    : (r: (seq<Ack>, Bloom))
    ensures |r.0| == |acks|
  {
    var d := DropAcks(acks, b, picks);
    (ShiftSlot(order, d.0, base, shift), d.1)
  }

  /** The first `n` slots collected in turn. */
  ghost function GcSlots(order: ByteOrder, acks: seq<Ack>, b: Bloom, picks: seq<seq<nat>>, shift: nat, n: nat)
    : (r: (seq<Ack>, Bloom))
    requires n <= |picks|
    ensures |r.0| == |acks|
  {
    if n == 0 then (acks, b)
    else
      var r := GcSlots(order, acks, b, picks, shift, n - 1);
      GcSlot(order, r.0, r.1, ACKS_PER_SLOT * (n - 1), picks[n - 1], shift)
  }

  ghost predicate ValidChoices(order: ByteOrder, acks: seq<Ack>, b: Bloom, picks: seq<seq<nat>>, shift: nat, n: nat)
    requires n <= |picks| && ACKS_PER_SLOT * n <= |acks|
  {
    if n == 0 then true
    else
      && ValidChoices(order, acks, b, picks, shift, n - 1)
      && ValidPicks(GcSlots(order, acks, b, picks, shift, n - 1).0, ACKS_PER_SLOT * (n - 1), picks[n - 1])
  }

  /** The size a gc makes room for in entry `i`: only one entry, if any, has a message waiting. */
  function RoomFor(eindex: int, msize: nat, i: int): nat {
    if i == eindex then msize else 0
  }

  function GcEntriesBloom(b: Bloom, entries: seq<seq<Rec>>, eindex: int, msize: nat, now: nat, n: nat): (b': Bloom)
    requires n <= |entries|
  {
    if n == 0 then b
    else GcBloom(GcEntriesBloom(b, entries, eindex, msize, now, n - 1), entries[n - 1], RoomFor(eindex, msize, n - 1), now)
  }

  function GcEntries(order: ByteOrder, entries: seq<seq<Rec>>, eindex: int, msize: nat, shift: nat, now: nat)
    : (entries': seq<seq<Rec>>)
    ensures |entries'| == |entries|
  {
    seq(|entries|, i requires 0 <= i < |entries| =>
      GcRecords(order, entries[i], RoomFor(eindex, msize, i), shift, now))
  }

  /** do_gc */
  ghost function Gc(cfg: Config, s: Cache, eindex: int, msize: nat, picks: seq<seq<nat>>): (s': Cache)
    requires Sized(s) && |picks| == |s.acks| / ACKS_PER_SLOT
    ensures Sized(s') && |s'.entries| == |s.entries| && |s'.acks| == |s.acks|
  {
    var shift := TokenShift(|s.tokens|);
    var r := GcSlots(cfg.order, s.acks, s.bloom, picks, shift, |picks|);
    var b := GcEntriesBloom(r.1, s.entries, eindex, msize, s.now, |s.entries|);
    s.(entries := GcEntries(cfg.order, s.entries, eindex, msize, shift, s.now),
       acks := r.0, tokens := s.tokens[shift..], zero := {}, asked := map[],
       bloom := Advance(b))
  }

  ghost predicate GcChoices(cfg: Config, s: Cache, picks: seq<seq<nat>>)
    requires Sized(s)
  {
    && |picks| == |s.acks| / ACKS_PER_SLOT
    && ValidChoices(cfg.order, s.acks, s.bloom, picks, TokenShift(|s.tokens|), |picks|)
  }

  // ---------------------------------------------------------------------------
  // Messages
  // ---------------------------------------------------------------------------

  /** The filter lookup that starts pcache_id_found. */
  function Looked(s: Cache, sel: Selector, id: Id): (s': Cache) {
    s.(bloom := AfterLookup(s.bloom, sel, id))
  }

  ghost predicate FoundMessage(s: Cache, id: Id)
    requires Sized(s)
  {
    Contains(s.bloom, MESSAGE_FILTER, id) || InMessages(s, id)
  }

  /** Whether saving a message of this size and ID finds too little room. */
  ghost predicate NeedsGc(s: Cache, id: Id, msize: nat)
    requires Sized(s)
  {
    TotalSize(s.entries[Bucket(s, id)]) + HEADER_SIZE + msize > STORAGE_SIZE
  }

  function Store1(s: Cache, e: nat, r: Rec): (s': Cache)
    requires e < |s.entries|
  {
    s.(entries := s.entries[e := s.entries[e] + [r]])
  }

  /** pcache_save_packet; None when the program exits with a gc error. */
  ghost function Save(cfg: Config, s: Cache, message: seq<Byte>, priority: U32, picks: seq<seq<nat>>): (r: Option<Cache>)
    requires Sized(s) && |picks| == |s.acks| / ACKS_PER_SLOT
  {
    match MessageId(cfg.sha, message)
    case None => Some(s)
    case Some(id) =>
      var s1 := Looked(s, MESSAGE_FILTER, id);
      if FoundMessage(s, id) then Some(s1)
      else
        var e := Bucket(s, id);
        var s2 := s1.(zero := {}, asked := map[]);
        var s3 := if NeedsGc(s, id, |message|) then Gc(cfg, s2, e, |message|, picks) else s2;
        if TotalSize(s3.entries[e]) + HEADER_SIZE + |message| <= STORAGE_SIZE then
          Some(Store1(s3, e, Rec(id, priority, {}, message)))
        else None
  }

  /** pcache_record_packet: only the filter learns about the packet. */
  function RecordPacket(cfg: Config, s: Cache, message: seq<Byte>): (s': Cache) {
    match MessageId(cfg.sha, message)
    case None => s
    case Some(id) => s.(bloom := Note(s.bloom, MESSAGE_FILTER, id))
  }

  function Without(rs: seq<Rec>, i: nat): (rs': seq<Rec>)
    requires i < |rs|
  {
    rs[..i] + rs[i + 1..]
  }

  /** The deletion half of pcache_id_found_delete. */
  function DeleteRec(rs: seq<Rec>, id: Id): (rs': seq<Rec>) {
    match FindRec(rs, id, |rs|)
    case None => rs
    case Some(i) => Without(rs, i)
  }

  // ---------------------------------------------------------------------------
  // Acks
  // ---------------------------------------------------------------------------

  /** The end of save_one_ack: fill the entry, and stop caching the message. */
  function PutAck(s: Cache, i: nat, ack: Id, id: Id, maxHops: nat): (s': Cache)
    requires Sized(s) && i < |s.acks|
  {
    s.(acks := s.acks[i := Ack(ack, id, true, maxHops, {})],
       entries := s.entries[Bucket(s, id) := DeleteRec(s.entries[Bucket(s, id)], id)])
  }

  /** Where a new ack goes: its home if free, else any free place in the slot. */
  function PlaceFor(acks: seq<Ack>, id: Id): (i: Option<nat>)
    requires AckSlots(acks)
    ensures i.Some? ==> i.value < |acks| && !acks[i.value].used
  {
    var home := AckHome(acks, id);
    if !acks[home].used then Some(home) else FindFree(acks, SlotBase(home), ACKS_PER_SLOT)
  }

  /** save_one_ack; None when no place is free even after a gc, where the program crashes. */
  ghost function SaveAck(cfg: Config, s: Cache, ack: Id, maxHops: nat, picks: seq<seq<nat>>): (r: Option<Cache>)
    requires Sized(s) && |picks| == |s.acks| / ACKS_PER_SLOT
  {
    var s1 := Looked(s, ACK_FILTER, ack);
    if Contains(s.bloom, ACK_FILTER, ack) then Some(s1)
    else
      var id := cfg.sha(ack);
      match AckIndex(s.acks, id)
      case Some(i) =>
        Some(if s.acks[i].maxHops < maxHops then s1.(acks := s.acks[i := s.acks[i].(maxHops := maxHops)]) else s1)
      case None =>
        var s2 := if PlaceFor(s.acks, id).None? then Gc(cfg, s1, -1, 0, picks) else s1;
        match PlaceFor(s2.acks, id)
        case None => None
        case Some(i) => Some(PutAck(s2, i, ack, id, maxHops))
  }

  // ---------------------------------------------------------------------------
  // Tokens
  // ---------------------------------------------------------------------------

  predicate RefusesTokenGc(s: Cache) {
    |s.tokens| + 1 > MAX_TOKENS && s.lastTokenGc + TOKEN_GC_SECONDS > s.now
  }

  /** token_to_send_to: the table index to mark, or None when the token already had it (or when the
      table is full and was collected less than a minute ago). */
  ghost function TokenToSendTo(cfg: Config, s: Cache, token: Token, bitmap: Bits, picks: seq<seq<nat>>): (r: (Cache, Option<nat>))
    requires Sized(s) && |picks| == |s.acks| / ACKS_PER_SLOT
    ensures Sized(r.0) && |r.0.acks| == |s.acks| && |r.0.entries| == |s.entries|
    ensures |s.tokens| <= MAX_TOKENS && r.1.Some? ==> r.1.value < MAX_TOKENS && r.1.value < |r.0.tokens|
  {
    match FindToken(s.tokens, token, |s.tokens|)
    case Some(i) => (s, if i in bitmap then None else Some(i))
    case None =>
      if RefusesTokenGc(s) then (s, None)
      else
        var s1 := if |s.tokens| + 1 > MAX_TOKENS then Gc(cfg, s, -1, 0, picks).(lastTokenGc := s.now) else s;
        (s1.(tokens := s1.tokens + [token]), Some(|s1.tokens|))
  }

  /** pcache_ack_for_token.  When the ack is not in the table the program reads the bitmap of the entry
      before the table; `stray` is what it finds there. */
  ghost function AckForToken(cfg: Config, s: Cache, token: Token, ack: Id, stray: Bits, picks: seq<seq<nat>>): (r: (Cache, bool))
    requires Sized(s) && |picks| == |s.acks| / ACKS_PER_SLOT && |s.tokens| <= MAX_TOKENS
  {
    var s1 := Looked(s, ACK_FILTER, ack);
    if Contains(s.bloom, ACK_FILTER, ack) then (s1, false)
    else
      var a := AckIndex(s1.acks, cfg.sha(ack));
      var t := TokenToSendTo(cfg, s1, token, if a.Some? then s1.acks[a.value].sent else stray, picks);
      if t.1.None? then (t.0, false)
      else if a.None? then (t.0, true)
      else
        var prior := t.0.acks[a.value];
        (t.0.(acks := t.0.acks[a.value := prior.(sent := prior.sent + {t.1.value})]), true)
  }

  /** pcache_mark_token_sent */
  ghost function MarkSent(cfg: Config, s: Cache, token: Token, message: seq<Byte>, picks: seq<seq<nat>>): (s': Cache)
    requires Sized(s) && |picks| == |s.acks| / ACKS_PER_SLOT && |s.tokens| <= MAX_TOKENS
  {
    match MessageId(cfg.sha, message)
    case None => s
    case Some(id) =>
      var t := TokenToSendTo(cfg, s, token, {}, picks);
      var e := Bucket(t.0, id);
      var rs := t.0.entries[e];
      var i := FindRec(rs, id, |rs|);
      if t.1.None? || i.None? then t.0
      else t.0.(entries := t.0.entries[e := rs[i.value := rs[i.value].(sent := rs[i.value].sent + {t.1.value})]])
  }

  // ---------------------------------------------------------------------------
  // Requests
  // ---------------------------------------------------------------------------

  const NO_TOKEN: Token := [0, 0, 0, 0, 0, 0, 0, 0, 0, 0, 0, 0, 0, 0, 0, 0]

  function RequestIndex(s: Cache, req: Request): (i: Option<nat>) {
    FindToken(s.tokens, req.token, |s.tokens|)
  }

  /** Whether pcache_request would hand out this record if nothing limited the answer. */
  predicate Eligible(req: Request, index: Option<nat>, now: nat, r: Rec) {
    && req.matches(r.body)
    && !Expired(r.body, now)
    && !(index.Some? && req.token != NO_TOKEN && index.value in r.sent)
  }

  /** Something in the table would be handed out. */
  ghost predicate Answerable(s: Cache, req: Request) {
    exists e, i :: 0 <= e < |s.entries| && 0 <= i < |s.entries[e]| &&
      Eligible(req, RequestIndex(s, req), s.now, s.entries[e][i])
  }

  ghost predicate MemoSet(s: Cache, req: Request) {
    RequestIndex(s, req).Some? && RequestIndex(s, req).value in s.zero
  }

  /** The effect of pcache_request on the state, when the buffer takes at least one message: an empty
      answer to a known token sets its memo bit. */
  ghost function AfterRequest(s: Cache, req: Request): (s': Cache)
    requires |s.tokens| <= MAX_TOKENS
  {
    var i := RequestIndex(s, req);
    if i.None? || i.value in s.zero || Answerable(s, req) then s
    else s.(zero := s.zero + {i.value}, asked := s.asked[i.value := req])
  }
}
