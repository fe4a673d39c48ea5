/** Runs of the packet cache, and what every reachable state satisfies. */
module PcacheInvariants {
  import opened Base
  import opened Bloom
  import opened MessageGc
  import opened Packets
  import opened PcacheModel
  import opened Records
  import opened TokenBits

  datatype Event =
    | SaveEvent(message: seq<Byte>, priority: U32, picks: seq<seq<nat>>)
    | RecordEvent(message: seq<Byte>)
    | AckEvent(ack: Id, maxHops: nat, picks: seq<seq<nat>>)
    | AckForEvent(token: Token, ack: Id, stray: Bits, picks: seq<seq<nat>>)
    | MarkEvent(token: Token, message: seq<Byte>, picks: seq<seq<nat>>)
    | RequestEvent(req: Request)
    | FindEvent(sel: Selector, id: Id)
    | NoteEvent(sel: Selector, id: Id)
    | TimeEvent(now: nat)

  /** One public operation.  FindEvent is the lookup of pcache_id_found, NoteEvent the bookkeeping of
      pcache_trace_request and pcache_trace_reply. */
  ghost function Step(cfg: Config, s: Cache, ev: Event): (r: Option<Cache>)
    requires Sized(s) && |s.tokens| <= MAX_TOKENS && WellSized(s, ev)
  {
    match ev
    case SaveEvent(message, priority, picks) => Save(cfg, s, message, priority, picks)
    case RecordEvent(message) => Some(RecordPacket(cfg, s, message))
    case AckEvent(ack, maxHops, picks) => SaveAck(cfg, s, ack, maxHops, picks)
    case AckForEvent(token, ack, stray, picks) => Some(AckForToken(cfg, s, token, ack, stray, picks).0)
    case MarkEvent(token, message, picks) => Some(MarkSent(cfg, s, token, message, picks))
    case RequestEvent(req) => Some(AfterRequest(s, req))
    case FindEvent(sel, id) => Some(Looked(s, sel, id))
    case NoteEvent(sel, id) => Some(s.(bloom := Note(s.bloom, sel, id)))
    case TimeEvent(now) => Some(s.(now := if now < s.now then s.now else now))
  }

  predicate HasPicks(ev: Event) {
    ev.SaveEvent? || ev.AckEvent? || ev.AckForEvent? || ev.MarkEvent?
  }

  /** One list of picks per ack slot. */
  predicate WellSized(s: Cache, ev: Event) {
    HasPicks(ev) ==> |ev.picks| == |s.acks| / ACKS_PER_SLOT
  }

  /** The random picks are ones the gc, if there is one, can make. */
  ghost predicate ValidEvent(cfg: Config, s: Cache, ev: Event)
    requires Sized(s)
  {
    HasPicks(ev) ==> |ev.picks| == |s.acks| / ACKS_PER_SLOT && GcChoices(cfg, s, ev.picks)
  }

  // ---------------------------------------------------------------------------
  // The message table
  // ---------------------------------------------------------------------------

  /** An entry holds storable messages that fit, each ID at most once and in the bucket it hashes to. */
  ghost predicate EntryOk(rs: seq<Rec>, e: nat, buckets: nat)
    requires buckets > 0
  {
    && AllStorable(rs) && TotalSize(rs) <= STORAGE_SIZE
    && (forall i | 0 <= i < |rs| :: ReadB64(rs[i].id) % buckets == e)
    && DistinctIds(rs)
  }

  ghost predicate DistinctIds(rs: seq<Rec>) {
    forall i, j | 0 <= i < j < |rs| :: rs[i].id != rs[j].id
  }

  ghost predicate EntriesOk(entries: seq<seq<Rec>>)
  {
    forall e | 0 <= e < |entries| :: EntryOk(entries[e], e, |entries|)
  }

  /** Every survivor is one of the records, with a new bitmap. */
  ghost predicate ComesFrom(r: Rec, rs: seq<Rec>, n: nat)
    requires n <= |rs|
  {
    exists i | 0 <= i < n :: SameMessage(r, rs[i])
  }

  predicate SameMessage(r: Rec, r': Rec) {
    r.id == r'.id && r.priority == r'.priority && r.body == r'.body
  }

  lemma {:induction false} SurvivorsComeFrom(order: ByteOrder, rs: seq<Rec>, keep: seq<bool>, shift: nat, n: nat)
    requires |keep| == |rs| && n <= |rs|
    ensures forall j | 0 <= j < |Survivors(order, rs, keep, shift, n)| ::
              ComesFrom(Survivors(order, rs, keep, shift, n)[j], rs, n)
    decreases n
  {
    hide ShiftToken;
    if n > 0 {
      SurvivorsComeFrom(order, rs, keep, shift, n - 1);
      var s := Survivors(order, rs, keep, shift, n - 1);
      var s' := Survivors(order, rs, keep, shift, n);
      SurvivorsNext(order, rs, keep, shift, n - 1);
      forall j | 0 <= j < |s'| ensures ComesFrom(s'[j], rs, n) {
        if j < |s| {
          assert s'[j] == s[j];
          var i :| 0 <= i < n - 1 && SameMessage(s[j], rs[i]);
        } else {
          assert SameMessage(s'[j], rs[n - 1]);
        }
      }
    }
  }

  lemma {:induction false} SurvivorsDistinct(order: ByteOrder, rs: seq<Rec>, keep: seq<bool>, shift: nat, n: nat)
    requires |keep| == |rs| && n <= |rs| && DistinctIds(rs)
    ensures DistinctIds(Survivors(order, rs, keep, shift, n))
    decreases n
  {
    hide ShiftToken;
    if n > 0 {
      hide Survivors;
      SurvivorsDistinct(order, rs, keep, shift, n - 1);
      SurvivorsComeFrom(order, rs, keep, shift, n - 1);
      SurvivorsNext(order, rs, keep, shift, n - 1);
      var s, s' := Survivors(order, rs, keep, shift, n - 1), Survivors(order, rs, keep, shift, n);
      forall i, j | 0 <= i < j < |s'| ensures s'[i].id != s'[j].id {
        assert s'[i] == s[i] && ComesFrom(s[i], rs, n - 1);
        if j == |s| {
          assert s'[j].id == rs[n - 1].id;
        }
      }
    }
  }

  /** A gc leaves an entry in order, with room for the message it was run for. */
  lemma {:induction false} GcRecordsOk(order: ByteOrder, rs: seq<Rec>, e: nat, buckets: nat, msize: nat, shift: nat, now: nat)
    requires buckets > 0 && EntryOk(rs, e, buckets)
    ensures EntryOk(GcRecords(order, rs, msize, shift, now), e, buckets)
    ensures msize <= ALLNET_MTU ==>
              TotalSize(GcRecords(order, rs, msize, shift, now)) + HEADER_SIZE + msize <= STORAGE_SIZE
  {
    hide ShiftToken, TotalSize, Kept;
    TotalSizeEmpty();
    if !ClearsEntry(msize) {
      var keep := Kept(rs, msize, now);
      KeptIsExact(rs, msize, now);
      SurvivorsFit(order, rs, keep, shift, |rs|);
      SurvivorsStorable(order, rs, keep, shift, |rs|);
      SurvivorsDistinct(order, rs, keep, shift, |rs|);
      SurvivorsComeFrom(order, rs, keep, shift, |rs|);
    }
  }

  lemma {:induction false} TotalSizeEmpty()
    ensures TotalSize([]) == 0
  {
  }

  // ---------------------------------------------------------------------------
  // The ack table
  // ---------------------------------------------------------------------------

  ghost predicate AckOk(cfg: Config, acks: seq<Ack>, i: nat)
    requires AckSlots(acks) && i < |acks|
  {
    acks[i].used ==>
      acks[i].id == cfg.sha(acks[i].ack) && SlotBase(AckHome(acks, acks[i].id)) == SlotBase(i)
  }

  /** Every used entry holds an ack with its ID, in the slot of that ID, and no other entry does. */
  ghost predicate AcksOk(cfg: Config, acks: seq<Ack>)
    requires AckSlots(acks)
  {
    && (forall i | 0 <= i < |acks| :: AckOk(cfg, acks, i))
    && forall i, j | 0 <= i < j < |acks| && acks[i].used && acks[j].used :: acks[i].id != acks[j].id
  }

  /** The one operation that a gc applies to acks: entries become unused, or get another bitmap. */
  ghost predicate AcksFewer(acks: seq<Ack>, acks': seq<Ack>) {
    && |acks'| == |acks|
    && forall i | 0 <= i < |acks| ::
         acks'[i].used ==> acks[i].used && acks'[i].id == acks[i].id && acks'[i].ack == acks[i].ack
  }

  lemma {:induction false} AcksFewerOk(cfg: Config, acks: seq<Ack>, acks': seq<Ack>)
    requires AckSlots(acks) && AcksOk(cfg, acks) && AcksFewer(acks, acks')
    ensures AcksOk(cfg, acks')
  {
    forall i | 0 <= i < |acks'| ensures AckOk(cfg, acks', i) {
      assert AckOk(cfg, acks, i);
    }
  }

  lemma {:induction false} DropAcksFewer(acks: seq<Ack>, b: Bloom, picks: seq<nat>)
    ensures AcksFewer(acks, DropAcks(acks, b, picks).0)
    decreases |picks|
  {
    hide NoteAck;
    if picks != [] && picks[0] < |acks| {
      DropAcksFewer(DropAck(acks, picks[0]), NoteAck(b, acks[picks[0]]), picks[1..]);
    }
  }

  lemma {:induction false} GcSlotsFewer(order: ByteOrder, acks: seq<Ack>, b: Bloom, picks: seq<seq<nat>>, shift: nat, n: nat)
    requires n <= |picks|
    ensures AcksFewer(acks, GcSlots(order, acks, b, picks, shift, n).0)
    decreases n
  {
    hide ShiftToken, DropAcks;
    if n > 0 {
      GcSlotsFewer(order, acks, b, picks, shift, n - 1);
      var r := GcSlots(order, acks, b, picks, shift, n - 1);
      DropAcksFewer(r.0, r.1, picks[n - 1]);
    }
  }

  /** A slot holds no more than half its capacity. */
  ghost predicate HalfFree(acks: seq<Ack>, base: nat)
    requires base + ACKS_PER_SLOT <= |acks|
  {
    UsedCount(acks, base, ACKS_PER_SLOT) <= ACKS_PER_SLOT / 2
  }

  ghost predicate SameUse(acks: seq<Ack>, acks': seq<Ack>, lo: nat, hi: nat) {
    lo <= hi <= |acks| == |acks'| && forall i | lo <= i < hi :: acks[i].used == acks'[i].used
  }

  lemma {:induction false} UsedCountSame(acks: seq<Ack>, acks': seq<Ack>, base: nat, n: nat)
    requires SameUse(acks, acks', base, base + n)
    ensures UsedCount(acks, base, n) == UsedCount(acks', base, n)
    decreases n
  {
    if n > 0 {
      UsedCountSame(acks, acks', base, n - 1);
    }
  }

  lemma {:induction false} UsedCountDrop(acks: seq<Ack>, base: nat, i: nat, n: nat)
    requires base + n <= |acks| && i < |acks| && acks[i].used
    ensures UsedCount(DropAck(acks, i), base, n) == UsedCount(acks, base, n) - if base <= i < base + n then 1 else 0
    decreases n
  {
    if n > 0 {
      UsedCountDrop(acks, base, i, n - 1);
    }
  }

  /** Valid picks stay in their slot and leave it half free. */
  lemma {:induction false} DropAcksFree(acks: seq<Ack>, b: Bloom, base: nat, picks: seq<nat>)
    requires base + ACKS_PER_SLOT <= |acks| && ValidPicks(acks, base, picks)
    ensures HalfFree(DropAcks(acks, b, picks).0, base)
    ensures SameUse(acks, DropAcks(acks, b, picks).0, 0, base)
    ensures SameUse(acks, DropAcks(acks, b, picks).0, base + ACKS_PER_SLOT, |acks|)
    decreases |picks|
  {
    hide NoteAck;
    if UsedCount(acks, base, ACKS_PER_SLOT) > ACKS_PER_SLOT / 2 {
      DropAcksFree(DropAck(acks, picks[0]), NoteAck(b, acks[picks[0]]), base, picks[1..]);
    }
  }

  /** After the gc of the first `n` slots those are half free, and the others have not been touched. */
  lemma {:induction false} GcSlotsFree(order: ByteOrder, acks: seq<Ack>, b: Bloom, picks: seq<seq<nat>>, shift: nat, n: nat)
    requires n <= |picks| && ACKS_PER_SLOT * n <= |acks|
    requires ValidChoices(order, acks, b, picks, shift, n)
    ensures var r := GcSlots(order, acks, b, picks, shift, n).0;
            && (forall k | 0 <= k < n :: HalfFree(r, ACKS_PER_SLOT * k))
            && SameUse(acks, r, ACKS_PER_SLOT * n, |acks|)
    decreases n
  {
    hide ShiftToken, DropAcks, UsedCount;
    if n > 0 {
      GcSlotsFree(order, acks, b, picks, shift, n - 1);
      var base := ACKS_PER_SLOT * (n - 1);
      var r := GcSlots(order, acks, b, picks, shift, n - 1);
      var d := DropAcks(r.0, r.1, picks[n - 1]).0;
      var r' := GcSlots(order, acks, b, picks, shift, n).0;
      DropAcksFree(r.0, r.1, base, picks[n - 1]);
      assert SameUse(d, r', 0, |acks|);
      UsedCountSame(d, r', base, ACKS_PER_SLOT);
      forall k | 0 <= k < n - 1 ensures HalfFree(r', ACKS_PER_SLOT * k) {
        assert HalfFree(r.0, ACKS_PER_SLOT * k);
        UsedCountSame(r.0, r', ACKS_PER_SLOT * k, ACKS_PER_SLOT);
      }
    }
  }

  lemma {:induction false} HalfFreeHasFree(acks: seq<Ack>, base: nat, n: nat)
    requires base + n <= |acks|
    ensures FindFree(acks, base, n).None? ==> UsedCount(acks, base, n) == n
    decreases n
  {
    if n > 0 {
      HalfFreeHasFree(acks, base, n - 1);
    }
  }

  // ---------------------------------------------------------------------------
  // The whole state
  // ---------------------------------------------------------------------------

  ghost predicate TablesOk(cfg: Config, s: Cache) {
    && Sized(s) && EntriesOk(s.entries) && AcksOk(cfg, s.acks)
    && |s.tokens| <= MAX_TOKENS && Distinct(s.tokens)
  }

  lemma {:induction false} GcOk(cfg: Config, s: Cache, eindex: int, msize: nat, picks: seq<seq<nat>>)
    requires TablesOk(cfg, s) && |picks| == |s.acks| / ACKS_PER_SLOT
    ensures TablesOk(cfg, Gc(cfg, s, eindex, msize, picks))
    ensures |Gc(cfg, s, eindex, msize, picks).tokens| < MAX_TOKENS
    ensures 0 <= eindex < |s.entries| && msize <= ALLNET_MTU ==>
              TotalSize(Gc(cfg, s, eindex, msize, picks).entries[eindex]) + HEADER_SIZE + msize <= STORAGE_SIZE
  {
    hide GcRecords, GcEntriesBloom, GcSlots, AckOk, TotalSize;
    var shift := TokenShift(|s.tokens|);
    GcSlotsFewer(cfg.order, s.acks, s.bloom, picks, shift, |picks|);
    AcksFewerOk(cfg, s.acks, GcSlots(cfg.order, s.acks, s.bloom, picks, shift, |picks|).0);
    forall e | 0 <= e < |s.entries|
      ensures EntryOk(GcRecords(cfg.order, s.entries[e], RoomFor(eindex, msize, e), shift, s.now), e, |s.entries|)
      ensures RoomFor(eindex, msize, e) <= ALLNET_MTU ==>
                TotalSize(GcRecords(cfg.order, s.entries[e], RoomFor(eindex, msize, e), shift, s.now))
                + HEADER_SIZE + RoomFor(eindex, msize, e) <= STORAGE_SIZE
    {
      assert EntryOk(s.entries[e], e, |s.entries|);
      GcRecordsOk(cfg.order, s.entries[e], e, |s.entries|, RoomFor(eindex, msize, e), shift, s.now);
    }
  }

  lemma {:induction false} SlotNumber(acks: seq<Ack>, i: nat)
    requires AckSlots(acks) && i < |acks|
    ensures SlotBase(i) == ACKS_PER_SLOT * (SlotBase(i) / ACKS_PER_SLOT)
    ensures SlotBase(i) / ACKS_PER_SLOT < |acks| / ACKS_PER_SLOT
  {
    SlotFits(acks, i);
  }

  /** After a gc with valid picks every slot has a free place. */
  lemma {:induction false} GcFrees(cfg: Config, s: Cache, eindex: int, msize: nat, picks: seq<seq<nat>>, id: Id)
    requires Sized(s) && GcChoices(cfg, s, picks)
    ensures PlaceFor(Gc(cfg, s, eindex, msize, picks).acks, id).Some?
  {
    hide GcEntries, GcEntriesBloom, GcSlots, ValidChoices, UsedCount, AckHome;
    var shift := TokenShift(|s.tokens|);
    assert ACKS_PER_SLOT * |picks| == |s.acks|;
    GcSlotsFree(cfg.order, s.acks, s.bloom, picks, shift, |picks|);
    var acks := Gc(cfg, s, eindex, msize, picks).acks;
    var base := SlotBase(AckHome(acks, id));
    SlotNumber(acks, AckHome(acks, id));
    assert HalfFree(acks, ACKS_PER_SLOT * (base / ACKS_PER_SLOT));
    HalfFreeHasFree(acks, base, ACKS_PER_SLOT);
  }

  lemma {:induction false} GcBringsNoId(order: ByteOrder, rs: seq<Rec>, id: Id, msize: nat, shift: nat, now: nat)
    requires forall i | 0 <= i < |rs| :: rs[i].id != id
    ensures forall i | 0 <= i < |GcRecords(order, rs, msize, shift, now)| :: GcRecords(order, rs, msize, shift, now)[i].id != id
  {
    hide ShiftToken, Kept;
    if !ClearsEntry(msize) {
      var s := GcRecords(order, rs, msize, shift, now);
      SurvivorsComeFrom(order, rs, Kept(rs, msize, now), shift, |rs|);
      forall i | 0 <= i < |s| ensures s[i].id != id {
        assert ComesFrom(s[i], rs, |rs|);
      }
    }
  }

  lemma {:induction false} AppendOk(rs: seq<Rec>, r: Rec, e: nat, buckets: nat)
    requires buckets > 0 && EntryOk(rs, e, buckets) && Storable(r) && ReadB64(r.id) % buckets == e
    requires TotalSize(rs) + r.Size() <= STORAGE_SIZE
    requires forall i | 0 <= i < |rs| :: rs[i].id != r.id
    ensures EntryOk(rs + [r], e, buckets)
  {
    hide TotalSize, ReadB64;
    TotalSizeEmpty();
    LayoutSnocSize(rs, r);
    forall i | 0 <= i < |rs| ensures (rs + [r])[i] == rs[i] {
    }
  }

  lemma {:induction false} LayoutSnocSize(rs: seq<Rec>, r: Rec)
    ensures TotalSize(rs + [r]) == TotalSize(rs) + r.Size()
  {
    TotalSizeConcat(rs, [r]);
    assert [r][..0] == [];
  }

  lemma {:induction false} RemovedSize(rs: seq<Rec>, i: nat)
    requires i < |rs|
    ensures TotalSize(Without(rs, i)) == TotalSize(rs) - rs[i].Size()
  {
    hide TotalSize;
    TotalSizeConcat(rs[..i], rs[i + 1..]);
    TotalSizeConcat(rs[..i + 1], rs[i + 1..]);
    assert rs == rs[..i + 1] + rs[i + 1..];
    TotalSizeNext(rs, i);
  }

  /** Where the k-th record was before the i-th was removed. */
  function Skip(i: nat, k: nat): nat {
    if k < i then k else k + 1
  }

  lemma {:induction false} RemovedAt(rs: seq<Rec>, i: nat, k: nat)
    requires i < |rs| && k < |rs| - 1
    ensures Without(rs, i)[k] == rs[Skip(i, k)]
  {
  }

  lemma {:induction false} RemoveOk(rs: seq<Rec>, i: nat, e: nat, buckets: nat)
    requires buckets > 0 && EntryOk(rs, e, buckets) && i < |rs|
    ensures EntryOk(Without(rs, i), e, buckets)
    ensures forall k | 0 <= k < |Without(rs, i)| :: Without(rs, i)[k].id != rs[i].id
  {
    hide TotalSize, ReadB64;
    var rest := Without(rs, i);
    RemovedSize(rs, i);
    forall k | 0 <= k < |rest|
      ensures Storable(rest[k]) && ReadB64(rest[k].id) % buckets == e && rest[k].id != rs[i].id
    {
      RemovedAt(rs, i, k);
      assert rs[Skip(i, k)].id != rs[i].id;
    }
    forall j, k | 0 <= j < k < |rest| ensures rest[j].id != rest[k].id {
      RemovedAt(rs, i, j);
      RemovedAt(rs, i, k);
      assert rs[Skip(i, j)].id != rs[Skip(i, k)].id;
    }
  }

  lemma {:induction false} DeleteOk(rs: seq<Rec>, id: Id, e: nat, buckets: nat)
    requires buckets > 0 && EntryOk(rs, e, buckets)
    ensures EntryOk(DeleteRec(rs, id), e, buckets)
    ensures forall k | 0 <= k < |DeleteRec(rs, id)| :: DeleteRec(rs, id)[k].id != id
  {
    hide EntryOk;
    if FindRec(rs, id, |rs|).Some? {
      RemoveOk(rs, FindRec(rs, id, |rs|).value, e, buckets);
    }
  }

  lemma {:induction false} ResendOk(rs: seq<Rec>, i: nat, sent: Bits, e: nat, buckets: nat)
    requires buckets > 0 && EntryOk(rs, e, buckets) && i < |rs|
    ensures EntryOk(rs[i := rs[i].(sent := sent)], e, buckets)
  {
    hide TotalSize;
    var rs' := rs[i := rs[i].(sent := sent)];
    assert rs'[..i] == rs[..i] && rs'[i + 1..] == rs[i + 1..];
    SameTotalSize(rs, rs', i);
  }

  /** Saving exits the program on exactly the new messages that are too large for a packet. */
  lemma {:induction false} SaveOk(cfg: Config, s: Cache, message: seq<Byte>, priority: U32, picks: seq<seq<nat>>)
    requires TablesOk(cfg, s) && |picks| == |s.acks| / ACKS_PER_SLOT
    ensures var id := MessageId(cfg.sha, message);
            Save(cfg, s, message, priority, picks).None? <==>
            id.Some? && !FoundMessage(s, id.value) && |message| > ALLNET_MTU
    ensures Save(cfg, s, message, priority, picks).Some? ==> TablesOk(cfg, Save(cfg, s, message, priority, picks).value)
  {
    hide GcRecords, GcEntriesBloom, GcSlots, AckOk, EntryOk, AfterLookup, TotalSize, MessageId, Contains;
    if MessageId(cfg.sha, message).Some? {
      var id := MessageId(cfg.sha, message).value;
      if !FoundMessage(s, id) {
        var e := Bucket(s, id);
        var s2 := Looked(s, MESSAGE_FILTER, id).(zero := {}, asked := map[]);
        assert EntryOk(s.entries[e], e, |s.entries|);
        assert TablesOk(cfg, s2);
        GcOk(cfg, s2, e, |message|, picks);
        GcBringsNoId(cfg.order, s.entries[e], id, |message|, TokenShift(|s.tokens|), s.now);
        var s3 := if NeedsGc(s, id, |message|) then Gc(cfg, s2, e, |message|, picks) else s2;
        assert EntryOk(s3.entries[e], e, |s3.entries|);
        if TotalSize(s3.entries[e]) + HEADER_SIZE + |message| <= STORAGE_SIZE {
          AppendOk(s3.entries[e], Rec(id, priority, {}, message), e, |s.entries|);
        }
      }
    }
  }

  lemma {:induction false} PutAckOk(cfg: Config, s: Cache, i: nat, ack: Id, maxHops: nat)
    requires TablesOk(cfg, s) && i < |s.acks| && !s.acks[i].used
    requires var id := cfg.sha(ack);
             SlotBase(AckHome(s.acks, id)) == SlotBase(i) && AckIndex(s.acks, id).None?
    ensures TablesOk(cfg, PutAck(s, i, ack, cfg.sha(ack), maxHops))
  {
    hide DeleteRec, EntryOk;
    var id := cfg.sha(ack);
    var s' := PutAck(s, i, ack, id, maxHops);
    var b := Bucket(s, id);
    assert EntryOk(s.entries[b], b, |s.entries|);
    DeleteOk(s.entries[b], id, b, |s.entries|);
    forall k | 0 <= k < |s.acks| && k != i && s.acks[k].used ensures s.acks[k].id != id {
      assert AckOk(cfg, s.acks, k);
    }
    forall k | 0 <= k < |s'.acks| ensures AckOk(cfg, s'.acks, k) {
      assert AckOk(cfg, s.acks, k);
    }
  }

  /** A free place is found in the slot of the ID. */
  lemma {:induction false} PlaceInSlot(acks: seq<Ack>, id: Id)
    requires AckSlots(acks)
    ensures PlaceFor(acks, id).Some? ==> SlotBase(PlaceFor(acks, id).value) == SlotBase(AckHome(acks, id))
  {
    var base := SlotBase(AckHome(acks, id));
    assert base % ACKS_PER_SLOT == 0;
  }

  lemma {:induction false} FewerAcksLessFound(acks: seq<Ack>, acks': seq<Ack>, id: Id)
    requires AckSlots(acks) && AcksFewer(acks, acks') && AckIndex(acks, id).None?
    ensures AckIndex(acks', id).None?
  {
  }

  /** Saving an ack never fails. */
  lemma {:induction false} SaveAckOk(cfg: Config, s: Cache, ack: Id, maxHops: nat, picks: seq<seq<nat>>)
    requires TablesOk(cfg, s) && GcChoices(cfg, s, picks)
    ensures SaveAck(cfg, s, ack, maxHops, picks).Some?
    ensures TablesOk(cfg, SaveAck(cfg, s, ack, maxHops, picks).value)
  {
    hide GcEntries, GcEntriesBloom, GcSlots, AckOk, EntriesOk, AfterLookup, Contains, ValidChoices, PlaceFor;
    var s1 := Looked(s, ACK_FILTER, ack);
    var id := cfg.sha(ack);
    assert TablesOk(cfg, s1);
    if !Contains(s.bloom, ACK_FILTER, ack) {
      var a := AckIndex(s.acks, id);
      if a.Some? {
        RaiseHopsOk(cfg, s.acks, a.value, maxHops);
      } else {
        if PlaceFor(s.acks, id).None? {
          ChoicesIgnoreBloom(cfg.order, s.acks, s.bloom, s1.bloom, picks, TokenShift(|s.tokens|), |picks|);
          GcOk(cfg, s1, -1, 0, picks);
          GcFrees(cfg, s1, -1, 0, picks, id);
          GcSlotsFewer(cfg.order, s.acks, s1.bloom, picks, TokenShift(|s.tokens|), |picks|);
          FewerAcksLessFound(s.acks, Gc(cfg, s1, -1, 0, picks).acks, id);
        }
        var s2 := if PlaceFor(s.acks, id).None? then Gc(cfg, s1, -1, 0, picks) else s1;
        PlaceInSlot(s2.acks, id);
        PutAckOk(cfg, s2, PlaceFor(s2.acks, id).value, ack, maxHops);
      }
    }
  }

  lemma {:induction false} RaiseHopsOk(cfg: Config, acks: seq<Ack>, i: nat, maxHops: nat)
    requires AckSlots(acks) && AcksOk(cfg, acks) && i < |acks|
    ensures AcksOk(cfg, acks[i := acks[i].(maxHops := maxHops)])
  {
    AcksFewerOk(cfg, acks, acks[i := acks[i].(maxHops := maxHops)]);
  }

  /** Which picks are valid depends on the ack table only. */
  lemma {:induction false} ChoicesIgnoreBloom(order: ByteOrder, acks: seq<Ack>, b: Bloom, b': Bloom, picks: seq<seq<nat>>, shift: nat, n: nat)
    requires n <= |picks| && ACKS_PER_SLOT * n <= |acks|
    ensures ValidChoices(order, acks, b, picks, shift, n) <==> ValidChoices(order, acks, b', picks, shift, n)
    ensures GcSlots(order, acks, b, picks, shift, n).0 == GcSlots(order, acks, b', picks, shift, n).0
    decreases n
  {
    hide ShiftToken, ValidPicks, DropAcks;
    if n > 0 {
      ChoicesIgnoreBloom(order, acks, b, b', picks, shift, n - 1);
      var r, r' := GcSlots(order, acks, b, picks, shift, n - 1), GcSlots(order, acks, b', picks, shift, n - 1);
      DropsIgnoreBloom(r.0, r.1, r'.1, picks[n - 1]);
    }
  }

  lemma {:induction false} DropsIgnoreBloom(acks: seq<Ack>, b: Bloom, b': Bloom, picks: seq<nat>)
    ensures DropAcks(acks, b, picks).0 == DropAcks(acks, b', picks).0
    decreases |picks|
  {
    hide NoteAck;
    if picks != [] && picks[0] < |acks| {
      DropsIgnoreBloom(DropAck(acks, picks[0]), NoteAck(b, acks[picks[0]]), NoteAck(b', acks[picks[0]]), picks[1..]);
    }
  }

  lemma {:induction false} TokenToSendToOk(cfg: Config, s: Cache, token: Token, bitmap: Bits, picks: seq<seq<nat>>)
    requires TablesOk(cfg, s) && |picks| == |s.acks| / ACKS_PER_SLOT
    ensures TablesOk(cfg, TokenToSendTo(cfg, s, token, bitmap, picks).0)
    ensures AcksFewer(s.acks, TokenToSendTo(cfg, s, token, bitmap, picks).0.acks)
  {
    hide GcEntries, GcEntriesBloom, GcSlots, AcksOk, EntriesOk;
    if FindToken(s.tokens, token, |s.tokens|).None? && |s.tokens| + 1 > MAX_TOKENS {
      GcOk(cfg, s, -1, 0, picks);
      GcSlotsFewer(cfg.order, s.acks, s.bloom, picks, TokenShift(|s.tokens|), |picks|);
    }
  }

  lemma {:induction false} AckForTokenOk(cfg: Config, s: Cache, token: Token, ack: Id, stray: Bits, picks: seq<seq<nat>>)
    requires TablesOk(cfg, s) && |picks| == |s.acks| / ACKS_PER_SLOT
    ensures TablesOk(cfg, AckForToken(cfg, s, token, ack, stray, picks).0)
  {
    hide EntriesOk, AcksOk, AfterLookup, Contains, TokenToSendTo, AckIndex;
    var s1 := Looked(s, ACK_FILTER, ack);
    assert TablesOk(cfg, s1);
    if !Contains(s.bloom, ACK_FILTER, ack) {
      var a := AckIndex(s1.acks, cfg.sha(ack));
      var bitmap := if a.Some? then s1.acks[a.value].sent else stray;
      TokenToSendToOk(cfg, s1, token, bitmap, picks);
      var t := TokenToSendTo(cfg, s1, token, bitmap, picks);
      if t.1.Some? && a.Some? {
        var prior := t.0.acks[a.value];
        AcksFewerOk(cfg, t.0.acks, t.0.acks[a.value := prior.(sent := prior.sent + {t.1.value})]);
      }
    }
  }

  lemma {:induction false} MarkSentOk(cfg: Config, s: Cache, token: Token, message: seq<Byte>, picks: seq<seq<nat>>)
    requires TablesOk(cfg, s) && |picks| == |s.acks| / ACKS_PER_SLOT
    ensures TablesOk(cfg, MarkSent(cfg, s, token, message, picks))
  {
    hide EntryOk, AcksOk, TokenToSendTo, MessageId;
    if MessageId(cfg.sha, message).Some? {
      var id := MessageId(cfg.sha, message).value;
      TokenToSendToOk(cfg, s, token, {}, picks);
      var t := TokenToSendTo(cfg, s, token, {}, picks);
      var e := Bucket(t.0, id);
      var i := FindRec(t.0.entries[e], id, |t.0.entries[e]|);
      assert EntryOk(t.0.entries[e], e, |t.0.entries|);
      if t.1.Some? && i.Some? {
        ResendOk(t.0.entries[e], i.value, t.0.entries[e][i.value].sent + {t.1.value}, e, |t.0.entries|);
      }
    }
  }

  // ---------------------------------------------------------------------------
  // Runs
  // ---------------------------------------------------------------------------

  predicate TooLarge(ev: Event) {
    ev.SaveEvent? && |ev.message| > ALLNET_MTU
  }

  lemma {:induction false} StepOk(cfg: Config, s: Cache, ev: Event)
    requires TablesOk(cfg, s) && ValidEvent(cfg, s, ev)
    ensures !TooLarge(ev) ==> Step(cfg, s, ev).Some?
    ensures Step(cfg, s, ev).Some? ==> TablesOk(cfg, Step(cfg, s, ev).value)
  {
    hide EntriesOk, AcksOk, Save, SaveAck, AckForToken, MarkSent, GcChoices, AfterLookup, Note;
    match ev
    case SaveEvent(message, priority, picks) => SaveOk(cfg, s, message, priority, picks);
    case AckEvent(ack, maxHops, picks) => SaveAckOk(cfg, s, ack, maxHops, picks);
    case AckForEvent(token, ack, stray, picks) => AckForTokenOk(cfg, s, token, ack, stray, picks);
    case MarkEvent(token, message, picks) => MarkSentOk(cfg, s, token, message, picks);
    case _ =>
  }

  /** The state after each event of a run is the next state; all states but the last accept the event. */
  ghost predicate IsRun(cfg: Config, states: seq<Cache>, evs: seq<Event>) {
    && |states| == |evs| + 1
    && forall k | 0 <= k < |evs| :: IsStep(cfg, states[k], evs[k], states[k + 1])
  }

  ghost predicate IsStep(cfg: Config, s: Cache, ev: Event, s': Cache) {
    && Sized(s) && |s.tokens| <= MAX_TOKENS
    && ValidEvent(cfg, s, ev) && WellSized(s, ev)
    && Step(cfg, s, ev) == Some(s')
  }

  /** Every state of a run from a good state is good. */
  lemma {:induction false} RunOk(cfg: Config, states: seq<Cache>, evs: seq<Event>, k: nat)
    requires IsRun(cfg, states, evs) && TablesOk(cfg, states[0]) && k < |states|
    ensures TablesOk(cfg, states[k])
    decreases k
  {
    hide TablesOk, Step, ValidEvent, WellSized;
    if k > 0 {
      RunOk(cfg, states, evs, k - 1);
      assert IsStep(cfg, states[k - 1], evs[k - 1], states[k]);
      StepOk(cfg, states[k - 1], evs[k - 1]);
    }
  }

  const UNUSED := Ack(NO_TOKEN, NO_TOKEN, false, 0, {})

  /** initialize_from_scratch, with the given numbers of buckets and ack slots. */
  function EmptyCache(buckets: nat, slots: nat): (s: Cache) {
    Cache(seq(buckets, _ => []), seq(ACKS_PER_SLOT * slots, _ => UNUSED), [], {}, map[], EMPTY, 0, 0)
  }

  lemma {:induction false} EmptyCacheOk(cfg: Config, buckets: nat, slots: nat)
    requires buckets > 0 && slots > 0
    ensures TablesOk(cfg, EmptyCache(buckets, slots))
  {
    TotalSizeEmpty();
  }

  // ---------------------------------------------------------------------------
  // Reachable states
  // ---------------------------------------------------------------------------

  ghost predicate RunTo(cfg: Config, buckets: nat, slots: nat, states: seq<Cache>, evs: seq<Event>, s: Cache) {
    && buckets > 0 && slots > 0 && IsRun(cfg, states, evs)
    && states[0] == EmptyCache(buckets, slots) && states[|evs|] == s
  }

  /** Some run from an empty cache ends in the state. */
  ghost predicate Reachable(cfg: Config, s: Cache) {
    exists buckets, slots, states, evs :: RunTo(cfg, buckets, slots, states, evs, s)
  }

  lemma {:induction false} EmptyIsReachable(cfg: Config, buckets: nat, slots: nat)
    requires buckets > 0 && slots > 0
    ensures Reachable(cfg, EmptyCache(buckets, slots))
  {
    hide EmptyCache;
    assert RunTo(cfg, buckets, slots, [EmptyCache(buckets, slots)], [], EmptyCache(buckets, slots));
  }

  lemma {:induction false} RunLonger(cfg: Config, buckets: nat, slots: nat, states: seq<Cache>, evs: seq<Event>, s: Cache, ev: Event, s': Cache)
    requires RunTo(cfg, buckets, slots, states, evs, s) && IsStep(cfg, s, ev, s')
    ensures RunTo(cfg, buckets, slots, states + [s'], evs + [ev], s')
  {
    hide IsStep, EmptyCache;
    var states', evs' := states + [s'], evs + [ev];
    forall k | 0 <= k < |evs'| ensures IsStep(cfg, states'[k], evs'[k], states'[k + 1]) {
      if k < |evs| {
        assert IsStep(cfg, states[k], evs[k], states[k + 1]);
      }
    }
  }

  lemma {:induction false} NextIsReachable(cfg: Config, s: Cache, ev: Event, s': Cache)
    requires Reachable(cfg, s) && IsStep(cfg, s, ev, s')
    ensures Reachable(cfg, s')
  {
    hide IsStep, EmptyCache, RunTo;
    var buckets, slots, states, evs :| RunTo(cfg, buckets, slots, states, evs, s);
    RunLonger(cfg, buckets, slots, states, evs, s, ev, s');
  }

  lemma {:induction false} ReachableOk(cfg: Config, s: Cache)
    requires Reachable(cfg, s)
    ensures TablesOk(cfg, s)
  {
    hide TablesOk, IsStep, EmptyCache;
    var buckets, slots, states, evs :| RunTo(cfg, buckets, slots, states, evs, s);
    EmptyCacheOk(cfg, buckets, slots);
    RunOk(cfg, states, evs, |evs|);
  }
}
