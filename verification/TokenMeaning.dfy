/**
 What the token bitmaps say, over whole runs, on a host that stores words most significant byte
 first: a message (or ack) carries the bit of a listed token exactly when it was sent to that token
 since both have been in the tables.  Hence no ack is handed out twice to a token.

 On other hosts the first gc of a full token table breaks this (TokenBits.ShiftTokenKeepsMeaning).
 */
module TokenMeaning {
  import opened Base
  import opened Bloom
  import opened MessageGc
  import opened Packets
  import opened PcacheInvariants
  import opened PcacheModel
  import opened Records
  import opened Remembering
  import opened TokenBits

  /** No bitmap has a bit for a token that is not in the table. */
  ghost predicate BitsOk(s: Cache) {
    && (forall e | 0 <= e < |s.entries| :: RecsWithin(s.entries[e], |s.tokens|))
    && AcksWithin(s.acks, |s.tokens|)
    && Within(s.zero, |s.tokens|)
  }

  ghost predicate RecsWithin(rs: seq<Rec>, n: nat) {
    forall i | 0 <= i < |rs| :: Within(rs[i].sent, n)
  }

  ghost predicate AcksWithin(acks: seq<Ack>, n: nat) {
    forall i | 0 <= i < |acks| :: Within(acks[i].sent, n)
  }

  /** The stored message with this ID has the bit of this listed token. */
  ghost predicate SentTo(s: Cache, id: Id, t: Token)
    requires Sized(s)
  {
    SentIn(s.entries[Bucket(s, id)], s.tokens, id, t)
  }

  ghost predicate SentIn(rs: seq<Rec>, tokens: seq<Token>, id: Id, t: Token) {
    exists i :: 0 <= i < |rs| && rs[i].id == id && t in Meaning(tokens, rs[i].sent)
  }

  ghost predicate AckSentTo(s: Cache, id: Id, t: Token) {
    exists i :: 0 <= i < |s.acks| && AckSentAt(s.acks, s.tokens, i, id, t)
  }

  ghost predicate AckSentAt(acks: seq<Ack>, tokens: seq<Token>, i: nat, id: Id, t: Token)
    requires i < |acks|
  {
    acks[i].used && acks[i].id == id && t in Meaning(tokens, acks[i].sent)
  }

  // ---------------------------------------------------------------------------
  // A gc keeps the meaning of what it keeps
  // ---------------------------------------------------------------------------

  /** Bitmaps are safe: the host stores words most significant byte first, or the token table is not full
      and a gc will not shift them. */
  predicate Aligned(order: ByteOrder, n: nat) {
    order.MostSignificantFirst? || n < MAX_TOKENS
  }

  lemma {:induction false} ShiftKeeps(order: ByteOrder, tokens: seq<Token>, bits: Bits)
    requires Distinct(tokens) && |tokens| <= MAX_TOKENS && Within(bits, |tokens|) && Aligned(order, |tokens|)
    ensures KeepsMeaning(tokens, bits, TokenShift(|tokens|), ShiftToken(order, bits, TokenShift(|tokens|)))
  {
    hide ShiftToken, ShiftRight, KeepsMeaning;
    var shift := TokenShift(|tokens|);
    ShiftRightKeepsMeaning(tokens, bits, shift);
    if order.MostSignificantFirst? {
      ShiftOnMostSignificantFirst(bits, shift);
    } else {
      NoShift(order, bits);
      ShiftByNothing(bits);
    }
  }

  lemma {:induction false} ShiftByNothing(bits: Bits)
    ensures ShiftRight(bits, 0) == bits
  {
  }

  lemma {:induction false} NoShift(order: ByteOrder, bits: Bits)
    ensures ShiftToken(order, bits, 0) == bits
  {
    LoadStoreSame(order, bits);
  }

  /** When a full token table is shortened, the bitmaps an entry keeps all keep their meaning if and only
      if the host stores words most significant byte first, or no kept bitmap has any bit. */
  lemma {:induction false} EntryKeepsMeaning(order: ByteOrder, rs: seq<Rec>, keep: seq<bool>, tokens: seq<Token>)
    requires |keep| == |rs| && Distinct(tokens) && |tokens| == MAX_TOKENS
    ensures var shift := TokenShift(|tokens|);
            (forall i | 0 <= i < |rs| && keep[i] ::
               KeepsMeaning(tokens, rs[i].sent, shift, Shifted(order, rs[i], shift).sent)) <==>
            order.MostSignificantFirst? || forall i | 0 <= i < |rs| && keep[i] :: rs[i].sent == {}
  {
    hide ShiftToken, KeepsMeaning;
    forall i | 0 <= i < |rs|
      ensures KeepsMeaning(tokens, rs[i].sent, TokenShift(|tokens|), Shifted(order, rs[i], TokenShift(|tokens|)).sent) <==>
              order.MostSignificantFirst? || rs[i].sent == {}
    {
      ShiftTokenKeepsMeaning(order, tokens, rs[i].sent);
    }
  }

  ghost predicate IsShifted(order: ByteOrder, r: Rec, rs: seq<Rec>, shift: nat, n: nat)
    requires n <= |rs|
  {
    exists i | 0 <= i < n :: r == Shifted(order, rs[i], shift)
  }

  lemma {:induction false} SurvivorsShifted(order: ByteOrder, rs: seq<Rec>, keep: seq<bool>, shift: nat, n: nat)
    requires |keep| == |rs| && n <= |rs|
    ensures forall j | 0 <= j < |Survivors(order, rs, keep, shift, n)| ::
              IsShifted(order, Survivors(order, rs, keep, shift, n)[j], rs, shift, n)
    decreases n
  {
    hide ShiftToken;
    if n > 0 {
      SurvivorsShifted(order, rs, keep, shift, n - 1);
      SurvivorsNext(order, rs, keep, shift, n - 1);
      var s, s' := Survivors(order, rs, keep, shift, n - 1), Survivors(order, rs, keep, shift, n);
      forall j | 0 <= j < |s'| ensures IsShifted(order, s'[j], rs, shift, n) {
        if j < |s| {
          assert s'[j] == s[j] && IsShifted(order, s[j], rs, shift, n - 1);
        } else {
          assert s'[j] == Shifted(order, rs[n - 1], shift);
        }
      }
    }
  }

  lemma {:induction false} RecsGcShifted(order: ByteOrder, rs: seq<Rec>, msize: nat, shift: nat, now: nat)
    ensures forall j | 0 <= j < |GcRecords(order, rs, msize, shift, now)| ::
              IsShifted(order, GcRecords(order, rs, msize, shift, now)[j], rs, shift, |rs|)
  {
    hide Survivors, Kept;
    if !ClearsEntry(msize) {
      SurvivorsShifted(order, rs, Kept(rs, msize, now), shift, |rs|);
    }
  }

  /** After the gc of an entry a record that is still there is marked for exactly the same tokens, of
      those still listed. */
  lemma {:induction false} RecsGcMeaning(order: ByteOrder, rs: seq<Rec>, tokens: seq<Token>, msize: nat, now: nat, id: Id, t: Token)
    requires Distinct(tokens) && |tokens| <= MAX_TOKENS && RecsWithin(rs, |tokens|) && DistinctIds(rs)
    requires Aligned(order, |tokens|)
    ensures var shift := TokenShift(|tokens|);
            var rs' := GcRecords(order, rs, msize, shift, now);
            && RecsWithin(rs', |tokens| - shift)
            && (SentIn(rs', tokens[shift..], id, t) <==>
                HasRecord(rs', id) && t in tokens[shift..] && SentIn(rs, tokens, id, t))
  {
    hide ShiftToken, GcRecords, Meaning, Within;
    var shift := TokenShift(|tokens|);
    var rest := tokens[shift..];
    var rs' := GcRecords(order, rs, msize, shift, now);
    RecsGcShifted(order, rs, msize, shift, now);
    forall j | 0 <= j < |rs'|
      ensures Within(rs'[j].sent, |rest|)
      ensures rs'[j].id == id ==> (t in Meaning(rest, rs'[j].sent) <==> t in rest && SentIn(rs, tokens, id, t))
    {
      assert IsShifted(order, rs'[j], rs, shift, |rs|);
      var i :| 0 <= i < |rs| && rs'[j] == Shifted(order, rs[i], shift);
      ShiftKeeps(order, tokens, rs[i].sent);
    }
    if SentIn(rs', rest, id, t) {
      var j :| 0 <= j < |rs'| && rs'[j].id == id && t in Meaning(rest, rs'[j].sent);
    }
    if HasRecord(rs', id) && t in rest && SentIn(rs, tokens, id, t) {
      var j :| 0 <= j < |rs'| && rs'[j].id == id;
      assert t in Meaning(rest, rs'[j].sent);
    }
  }

  /** What the gc of the ack slots does to the bitmaps: each moves once, when its slot is done. */
  ghost predicate BitsMoved(order: ByteOrder, acks: seq<Ack>, acks': seq<Ack>, shift: nat, n: nat) {
    && AcksFewer(acks, acks')
    && forall i | 0 <= i < |acks| ::
         acks'[i].sent == if i < n then ShiftToken(order, acks[i].sent, shift) else acks[i].sent
  }

  lemma {:induction false} DropsKeepBits(acks: seq<Ack>, b: Bloom, picks: seq<nat>)
    ensures forall i | 0 <= i < |acks| :: DropAcks(acks, b, picks).0[i].sent == acks[i].sent
    decreases |picks|
  {
    hide NoteAck;
    if picks != [] && picks[0] < |acks| {
      DropsKeepBits(DropAck(acks, picks[0]), NoteAck(b, acks[picks[0]]), picks[1..]);
    }
  }

  lemma {:induction false} SlotsGcBits(order: ByteOrder, acks: seq<Ack>, b: Bloom, picks: seq<seq<nat>>, shift: nat, n: nat)
    requires n <= |picks| && ACKS_PER_SLOT * n <= |acks|
    ensures BitsMoved(order, acks, GcSlots(order, acks, b, picks, shift, n).0, shift, ACKS_PER_SLOT * n)
    decreases n
  {
    hide ShiftToken, DropAcks;
    GcSlotsFewer(order, acks, b, picks, shift, n);
    if n > 0 {
      SlotsGcBits(order, acks, b, picks, shift, n - 1);
      var r := GcSlots(order, acks, b, picks, shift, n - 1);
      DropsKeepBits(r.0, r.1, picks[n - 1]);
      var r' := GcSlots(order, acks, b, picks, shift, n).0;
      forall i | 0 <= i < |acks|
        ensures r'[i].sent == if i < ACKS_PER_SLOT * n then ShiftToken(order, acks[i].sent, shift) else acks[i].sent
      {
        if shift == 0 {
          NoShift(order, acks[i].sent);
        }
      }
    }
  }

  lemma {:induction false} AcksGcMeaning(order: ByteOrder, acks: seq<Ack>, acks': seq<Ack>, tokens: seq<Token>, i: nat, id: Id, t: Token)
    requires Distinct(tokens) && |tokens| <= MAX_TOKENS && AcksWithin(acks, |tokens|) && i < |acks|
    requires Aligned(order, |tokens|) && BitsMoved(order, acks, acks', TokenShift(|tokens|), |acks|)
    ensures var rest := tokens[TokenShift(|tokens|)..];
            && AcksWithin(acks', |rest|)
            && (AckSentAt(acks', rest, i, id, t) <==>
                acks'[i].used && acks'[i].id == id && t in rest && AckSentAt(acks, tokens, i, id, t))
  {
    hide ShiftToken, Meaning, Within;
    var rest := tokens[TokenShift(|tokens|)..];
    forall k | 0 <= k < |acks'|
      ensures Within(acks'[k].sent, |rest|)
      ensures Meaning(rest, acks'[k].sent) == Meaning(tokens, acks[k].sent) * TokenSet(rest)
    {
      ShiftKeeps(order, tokens, acks[k].sent);
    }
  }

  lemma {:induction false} GcMeaning(cfg: Config, s: Cache, eindex: int, msize: nat, picks: seq<seq<nat>>, id: Id, t: Token)
    requires Aligned(cfg.order, |s.tokens|) && TablesOk(cfg, s) && BitsOk(s) && |picks| == |s.acks| / ACKS_PER_SLOT
    ensures var s' := Gc(cfg, s, eindex, msize, picks);
            && BitsOk(s')
            && (SentTo(s', id, t) <==> InMessages(s', id) && t in s'.tokens && SentTo(s, id, t))
            && (AckSentTo(s', id, t) <==> HasEntry(s'.acks, id) && t in s'.tokens && AckSentTo(s, id, t))
  {
    hide GcRecords, GcEntriesBloom, GcSlots, SentIn, RecsWithin, AcksWithin, AckSentAt, Within, HasRecord, AckOk, EntryOk;
    var shift := TokenShift(|s.tokens|);
    var s' := Gc(cfg, s, eindex, msize, picks);
    var b := Bucket(s, id);
    forall e | 0 <= e < |s.entries| ensures RecsWithin(s'.entries[e], |s'.tokens|) {
      EntryDistinct(s.entries, e);
      RecsGcMeaning(cfg.order, s.entries[e], s.tokens, RoomFor(eindex, msize, e), s.now, id, t);
    }
    EntryDistinct(s.entries, b);
    RecsGcMeaning(cfg.order, s.entries[b], s.tokens, RoomFor(eindex, msize, b), s.now, id, t);
    InMessagesIff(s', id);
    assert ACKS_PER_SLOT * |picks| == |s.acks|;
    SlotsGcBits(cfg.order, s.acks, s.bloom, picks, shift, |picks|);
    forall i | 0 <= i < |s.acks|
      ensures AckSentAt(s'.acks, s'.tokens, i, id, t) <==>
              s'.acks[i].used && s'.acks[i].id == id && t in s'.tokens && AckSentAt(s.acks, s.tokens, i, id, t)
    {
      AcksGcMeaning(cfg.order, s.acks, s'.acks, s.tokens, i, id, t);
    }
    AcksGcMeaning(cfg.order, s.acks, s'.acks, s.tokens, 0, id, t);
    AckEntriesMatch(cfg, s, s', id, t);
    assert Within(s'.zero, |s'.tokens|) by { ZeroWithin(|s'.tokens|); }
  }

  lemma {:induction false} ZeroWithin(n: nat)
    ensures Within({}, n)
  {
  }

  lemma {:induction false} EntryDistinct(entries: seq<seq<Rec>>, e: nat)
    requires EntriesOk(entries) && e < |entries|
    ensures DistinctIds(entries[e])
  {
    assert EntryOk(entries[e], e, |entries|);
  }

  /** Only one entry is in use for an ID, before and after. */
  lemma {:induction false} AckEntriesMatch(cfg: Config, s: Cache, s': Cache, id: Id, t: Token)
    requires Sized(s) && AcksOk(cfg, s.acks) && AcksFewer(s.acks, s'.acks)
    requires forall i | 0 <= i < |s.acks| ::
               AckSentAt(s'.acks, s'.tokens, i, id, t) <==>
               s'.acks[i].used && s'.acks[i].id == id && t in s'.tokens && AckSentAt(s.acks, s.tokens, i, id, t)
    ensures AckSentTo(s', id, t) <==> HasEntry(s'.acks, id) && t in s'.tokens && AckSentTo(s, id, t)
  {
    hide Meaning;
    if i :| 0 <= i < |s'.acks| && AckSentAt(s'.acks, s'.tokens, i, id, t) {
      assert UsedFor(s'.acks, i, id);
    }
    if HasEntry(s'.acks, id) && t in s'.tokens && AckSentTo(s, id, t) {
      var i: nat :| UsedFor(s'.acks, i, id);
      var j :| 0 <= j < |s.acks| && AckSentAt(s.acks, s.tokens, j, id, t);
      assert i == j;
    }
  }

  // ---------------------------------------------------------------------------
  // Tokens added, bits set
  // ---------------------------------------------------------------------------

  lemma {:induction false} SentToListed(s: Cache, id: Id, t: Token)
    requires Sized(s)
    ensures SentTo(s, id, t) ==> InMessages(s, id) && t in s.tokens
    ensures AckSentTo(s, id, t) ==> HasEntry(s.acks, id) && t in s.tokens
  {
    if i :| 0 <= i < |s.acks| && AckSentAt(s.acks, s.tokens, i, id, t) {
      assert UsedFor(s.acks, i, id);
    }
  }

  lemma {:induction false} MeaningOfAppend(tokens: seq<Token>, x: Token, bits: Bits)
    requires Within(bits, |tokens|)
    ensures Meaning(tokens + [x], bits) == Meaning(tokens, bits)
    ensures Within(bits, |tokens| + 1)
  {
    forall t ensures t in Meaning(tokens + [x], bits) <==> t in Meaning(tokens, bits) {
      if t in Meaning(tokens, bits) {
        var i :| i in bits && 0 <= i < |tokens| && tokens[i] == t;
        assert (tokens + [x])[i] == t;
      }
    }
  }

  lemma {:induction false} MeaningOfSet(tokens: seq<Token>, bits: Bits, i: nat)
    requires i < |tokens| && i < MAX_TOKENS
    ensures Meaning(tokens, bits + {i}) == Meaning(tokens, bits) + {tokens[i]}
    ensures Within(bits, |tokens|) ==> Within(bits + {i}, |tokens|)
  {
  }

  lemma {:induction false} AppendMeaning(s: Cache, x: Token, id: Id, t: Token)
    requires Sized(s) && BitsOk(s)
    ensures var s' := s.(tokens := s.tokens + [x]);
            && BitsOk(s')
            && (SentTo(s', id, t) <==> SentTo(s, id, t))
            && (AckSentTo(s', id, t) <==> AckSentTo(s, id, t))
  {
    hide Meaning, Within;
    var s' := s.(tokens := s.tokens + [x]);
    forall e, i | 0 <= e < |s.entries| && 0 <= i < |s.entries[e]|
      ensures Within(s.entries[e][i].sent, |s'.tokens|)
      ensures Meaning(s'.tokens, s.entries[e][i].sent) == Meaning(s.tokens, s.entries[e][i].sent)
    {
      assert RecsWithin(s.entries[e], |s.tokens|);
      MeaningOfAppend(s.tokens, x, s.entries[e][i].sent);
    }
    forall i | 0 <= i < |s.acks|
      ensures Within(s.acks[i].sent, |s'.tokens|)
      ensures AckSentAt(s'.acks, s'.tokens, i, id, t) <==> AckSentAt(s.acks, s.tokens, i, id, t)
    {
      MeaningOfAppend(s.tokens, x, s.acks[i].sent);
    }
    MeaningOfAppend(s.tokens, x, s.zero);
  }

  /** Making a place for a token changes nobody's bitmap but by what the gc forgets. */
  lemma {:induction false} TokenToSendToMeaning(cfg: Config, s: Cache, token: Token, bitmap: Bits, picks: seq<seq<nat>>, id: Id, t: Token)
    requires Aligned(cfg.order, |s.tokens|) && TablesOk(cfg, s) && BitsOk(s) && |picks| == |s.acks| / ACKS_PER_SLOT
    ensures var r := TokenToSendTo(cfg, s, token, bitmap, picks);
            var s' := r.0;
            && BitsOk(s')
            && (SentTo(s', id, t) <==> InMessages(s', id) && t in s'.tokens && SentTo(s, id, t))
            && (AckSentTo(s', id, t) <==> HasEntry(s'.acks, id) && t in s'.tokens && AckSentTo(s, id, t))
            && (r.1.Some? ==> r.1.value < |s'.tokens| <= MAX_TOKENS && s'.tokens[r.1.value] == token)
            && (r.1.None? ==> s' == s && (token !in s'.tokens || token in Meaning(s'.tokens, bitmap)))
  {
    hide BitsOk, SentTo, AckSentTo, GcSlots, GcEntries, GcEntriesBloom, EntriesOk, AcksOk, Meaning;
    SentToListed(s, id, t);
    var f := FindToken(s.tokens, token, |s.tokens|);
    if f.Some? {
      MeaningHas(s.tokens, bitmap, f.value);
    } else if !RefusesTokenGc(s) {
      var s0 := Gc(cfg, s, -1, 0, picks);
      var s1 := s0.(lastTokenGc := s.now);
      GcOk(cfg, s, -1, 0, picks);
      GcMeaning(cfg, s, -1, 0, picks, id, t);
      Unstamped(s0, s.now, id, t);
      var s2 := if |s.tokens| + 1 > MAX_TOKENS then s1 else s;
      AppendMeaning(s2, token, id, t);
      var s' := s2.(tokens := s2.tokens + [token]);
      assert s' == TokenToSendTo(cfg, s, token, bitmap, picks).0;
      SentToListed(s', id, t);
      InMessagesIff(s', id);
      InMessagesIff(s2, id);
      SentToListed(s2, id, t);
    }
  }

  lemma {:induction false} Unstamped(s: Cache, now: nat, id: Id, t: Token)
    requires Sized(s)
    ensures var s' := s.(lastTokenGc := now);
            && (BitsOk(s') <==> BitsOk(s))
            && (SentTo(s', id, t) <==> SentTo(s, id, t))
            && (AckSentTo(s', id, t) <==> AckSentTo(s, id, t))
            && (InMessages(s', id) <==> InMessages(s, id))
  {
  }

  // ---------------------------------------------------------------------------
  // Every operation
  // ---------------------------------------------------------------------------

  /** From s to s', a bit is there for a listed token exactly if it was before, or is set now. */
  ghost predicate Follows(s: Cache, s': Cache, id: Id, t: Token, marked: bool, ackMarked: bool)
    requires Sized(s) && Sized(s')
  {
    && BitsOk(s')
    && (SentTo(s', id, t) <==> InMessages(s', id) && t in s'.tokens && (marked || SentTo(s, id, t)))
    && (AckSentTo(s', id, t) <==> HasEntry(s'.acks, id) && t in s'.tokens && (ackMarked || AckSentTo(s, id, t)))
  }

  lemma {:induction false} SameFollows(s: Cache, s': Cache, id: Id, t: Token)
    requires Sized(s) && BitsOk(s) && s'.entries == s.entries && s'.tokens == s.tokens
    requires s'.zero == s.zero || Within(s'.zero, |s.tokens|)
    requires |s'.acks| == |s.acks|
    requires forall i | 0 <= i < |s.acks| ::
               s'.acks[i].used == s.acks[i].used && s'.acks[i].id == s.acks[i].id && s'.acks[i].sent == s.acks[i].sent
    ensures Follows(s, s', id, t, false, false)
    ensures SentTo(s', id, t) <==> SentTo(s, id, t)
    ensures AckSentTo(s', id, t) <==> AckSentTo(s, id, t)
  {
    hide Meaning, SentIn, RecsWithin, Within;
    forall i | 0 <= i < |s.acks|
      ensures AckSentAt(s'.acks, s'.tokens, i, id, t) <==> AckSentAt(s.acks, s.tokens, i, id, t)
    {
    }
    SentToListed(s', id, t);
  }

  lemma {:induction false} SentInAppend(rs: seq<Rec>, r: Rec, tokens: seq<Token>, id: Id, t: Token)
    requires r.sent == {}
    ensures SentIn(rs + [r], tokens, id, t) <==> SentIn(rs, tokens, id, t)
    ensures RecsWithin(rs, |tokens|) ==> RecsWithin(rs + [r], |tokens|)
  {
    if i :| 0 <= i < |rs| && rs[i].id == id && t in Meaning(tokens, rs[i].sent) {
      assert (rs + [r])[i] == rs[i];
    }
  }

  lemma {:induction false} SaveMeaning(cfg: Config, s: Cache, ev: Event, id: Id, t: Token)
    requires Aligned(cfg.order, |s.tokens|) && TablesOk(cfg, s) && BitsOk(s) && ev.SaveEvent? && ValidEvent(cfg, s, ev)
    requires Save(cfg, s, ev.message, ev.priority, ev.picks).Some?
    ensures Sized(Save(cfg, s, ev.message, ev.priority, ev.picks).value)
    ensures Follows(s, Save(cfg, s, ev.message, ev.priority, ev.picks).value, id, t, false, false)
  {
    hide GcSlots, GcEntriesBloom, GcEntries, ValidChoices, EntriesOk, AcksOk, MessageId, AfterLookup, TotalSize,
      Contains, HasRecord, SentIn, RecsWithin, AckSentTo, AcksWithin;
    ZeroWithin(|s.tokens|);
    SentToListed(s, id, t);
    if MessageId(cfg.sha, ev.message).Some? {
      var saved := MessageId(cfg.sha, ev.message).value;
      var s1 := Looked(s, MESSAGE_FILTER, saved);
      SameFollows(s, s1, id, t);
      if !FoundMessage(s, saved) {
        var s2 := s1.(zero := {}, asked := map[]);
        var e := Bucket(s, saved);
        SameFollows(s, s2, id, t);
        GcOk(cfg, s2, e, |ev.message|, ev.picks);
        GcMeaning(cfg, s2, e, |ev.message|, ev.picks, id, t);
        var s3 := if NeedsGc(s, saved, |ev.message|) then Gc(cfg, s2, e, |ev.message|, ev.picks) else s2;
        var r := Rec(saved, ev.priority, {}, ev.message);
        var s' := Store1(s3, e, r);
        SentInAppend(s3.entries[e], r, s3.tokens, id, t);
        SameAcks(s3, s', id, t);
        InMessagesIff(s3, id);
        InMessagesIff(s', id);
        InMessagesIff(s, id);
        SentToListed(s3, id, t);
        AppendedHas(s3.entries[e], r, id);
      }
    } else {
      SameFollows(s, s, id, t);
    }
  }

  lemma {:induction false} AppendedHas(rs: seq<Rec>, r: Rec, id: Id)
    ensures HasRecord(rs + [r], id) <==> HasRecord(rs, id) || r.id == id
  {
    RecordAdded(rs, r, id);
  }

  lemma {:induction false} SameAcks(s: Cache, s': Cache, id: Id, t: Token)
    requires s'.acks == s.acks && s'.tokens == s.tokens
    ensures AckSentTo(s', id, t) <==> AckSentTo(s, id, t)
  {
  }

  lemma {:induction false} SentInDelete(rs: seq<Rec>, x: Id, tokens: seq<Token>, id: Id, t: Token)
    requires DistinctIds(rs)
    ensures SentIn(DeleteRec(rs, x), tokens, id, t) <==> id != x && SentIn(rs, tokens, id, t)
    ensures RecsWithin(rs, |tokens|) ==> RecsWithin(DeleteRec(rs, x), |tokens|)
  {
    hide Meaning, Within;
    var f := FindRec(rs, x, |rs|);
    if f.Some? {
      SentInWithout(rs, f.value, tokens, id, t);
    }
  }

  lemma {:induction false} SentInWithout(rs: seq<Rec>, i: nat, tokens: seq<Token>, id: Id, t: Token)
    requires DistinctIds(rs) && i < |rs|
    ensures SentIn(Without(rs, i), tokens, id, t) <==> id != rs[i].id && SentIn(rs, tokens, id, t)
    ensures RecsWithin(rs, |tokens|) ==> RecsWithin(Without(rs, i), |tokens|)
  {
    hide Meaning, Within, Without;
    var rest := Without(rs, i);
    WithoutSize(rs, i);
    forall k | 0 <= k < |rs| - 1 ensures rest[k] == rs[Skip(i, k)] {
      RemovedAt(rs, i, k);
    }
    if id != rs[i].id {
      if k :| 0 <= k < |rs| && rs[k].id == id && t in Meaning(tokens, rs[k].sent) {
        assert rest[if k < i then k else k - 1] == rs[k];
      }
    }
    if k :| 0 <= k < |rest| && rest[k].id == id && t in Meaning(tokens, rest[k].sent) {
      assert rs[Skip(i, k)].id == id;
    }
  }

  lemma {:induction false} WithoutSize(rs: seq<Rec>, i: nat)
    requires i < |rs|
    ensures |Without(rs, i)| == |rs| - 1
  {
  }

  lemma {:induction false} PutAckMeaning(cfg: Config, s: Cache, i: nat, ack: Id, maxHops: nat, id: Id, t: Token)
    requires TablesOk(cfg, s) && BitsOk(s) && i < |s.acks| && !s.acks[i].used && !HasEntry(s.acks, cfg.sha(ack))
    ensures Follows(s, PutAck(s, i, ack, cfg.sha(ack), maxHops), id, t, false, false)
  {
    hide Meaning, Within, SentIn, RecsWithin, EntryOk, AckOk, DeleteRec;
    var x := cfg.sha(ack);
    var s' := PutAck(s, i, ack, x, maxHops);
    var b := Bucket(s, x);
    EntryDistinct(s.entries, b);
    SentInDelete(s.entries[b], x, s.tokens, id, t);
    ZeroWithin(|s.tokens|);
    DeletedHas(s.entries[b], x, id);
    InMessagesIff(s', id);
    SentToListed(s', id, t);
    SentToListed(s, id, t);
    forall k | 0 <= k < |s.acks| && k != i
      ensures AckSentAt(s'.acks, s'.tokens, k, id, t) <==> AckSentAt(s.acks, s.tokens, k, id, t)
    {
    }
    EmptyMeaning(s.tokens);
    assert !AckSentAt(s'.acks, s'.tokens, i, id, t);
    assert !AckSentAt(s.acks, s.tokens, i, id, t);
  }

  lemma {:induction false} EmptyMeaning(tokens: seq<Token>)
    ensures Meaning(tokens, {}) == {}
  {
  }

  lemma {:induction false} DeletedHas(rs: seq<Rec>, x: Id, id: Id)
    requires DistinctIds(rs)
    ensures HasRecord(DeleteRec(rs, x), id) ==> id != x && HasRecord(rs, id)
  {
    var f := FindRec(rs, x, |rs|);
    if f.Some? {
      var i := f.value;
      if k :| 0 <= k < |Without(rs, i)| && Without(rs, i)[k].id == id {
        RemovedAt(rs, i, k);
        assert rs[Skip(i, k)].id == id;
      }
    }
  }

  lemma {:induction false} SaveAckMeaning(cfg: Config, s: Cache, ack: Id, maxHops: nat, picks: seq<seq<nat>>, id: Id, t: Token)
    requires Aligned(cfg.order, |s.tokens|) && TablesOk(cfg, s) && BitsOk(s) && GcChoices(cfg, s, picks)
    ensures SaveAck(cfg, s, ack, maxHops, picks).Some? && Sized(SaveAck(cfg, s, ack, maxHops, picks).value)
    ensures Follows(s, SaveAck(cfg, s, ack, maxHops, picks).value, id, t, false, false)
  {
    hide GcSlots, GcEntriesBloom, GcEntries, ValidChoices, EntriesOk, AcksOk, AfterLookup, Contains, PlaceFor, PutAck,
      RecsWithin, AcksWithin, SentTo, AckSentTo;
    SaveAckOk(cfg, s, ack, maxHops, picks);
    var s1 := Looked(s, ACK_FILTER, ack);
    SameFollows(s, s1, id, t);
    var x := cfg.sha(ack);
    if !Contains(s.bloom, ACK_FILTER, ack) {
      if AckIndex(s.acks, x).Some? {
        SameFollows(s, SaveAck(cfg, s, ack, maxHops, picks).value, id, t);
      } else {
        InAcksIff(cfg, s, x);
        GcOk(cfg, s1, -1, 0, picks);
        GcMeaning(cfg, s1, -1, 0, picks, id, t);
        GcSlotsFewer(cfg.order, s.acks, s1.bloom, picks, TokenShift(|s.tokens|), |picks|);
        FewerEntries(s.acks, Gc(cfg, s1, -1, 0, picks).acks, x);
        var s2 := if PlaceFor(s.acks, x).None? then Gc(cfg, s1, -1, 0, picks) else s1;
        var i := PlaceFor(s2.acks, x).value;
        PutAckMeaning(cfg, s2, i, ack, maxHops, id, t);
        var s' := PutAck(s2, i, ack, x, maxHops);
        SentToListed(s2, id, t);
        SentToListed(s, id, t);
        PutAckTables(cfg, s2, i, ack, maxHops, id);
        InMessagesIff(s2, id);
      }
    }
  }

  lemma {:induction false} PutAckTables(cfg: Config, s: Cache, i: nat, ack: Id, maxHops: nat, id: Id)
    requires TablesOk(cfg, s) && i < |s.acks| && !s.acks[i].used
    ensures var s' := PutAck(s, i, ack, cfg.sha(ack), maxHops);
            && s'.tokens == s.tokens
            && (InMessages(s', id) ==> InMessages(s, id))
            && (HasEntry(s'.acks, id) ==> HasEntry(s.acks, id) || id == cfg.sha(ack))
  {
    hide EntryOk, DeleteRec;
    var s' := PutAck(s, i, ack, cfg.sha(ack), maxHops);
    var b := Bucket(s, cfg.sha(ack));
    EntryDistinct(s.entries, b);
    DeletedHas(s.entries[b], cfg.sha(ack), id);
    InMessagesIff(s, id);
    InMessagesIff(s', id);
    if k: nat :| UsedFor(s'.acks, k, id) {
      assert k != i ==> UsedFor(s.acks, k, id);
    }
  }

  /** The event is a mark of this message for this token. */
  predicate MarksMessage(cfg: Config, ev: Event, id: Id, t: Token) {
    ev.MarkEvent? && ev.token == t && MessageId(cfg.sha, ev.message) == Some(id)
  }

  /** The event hands this ack to this token, unless the ack is already in the filter. */
  ghost predicate MarksAck(cfg: Config, s: Cache, ev: Event, id: Id, t: Token) {
    ev.AckForEvent? && ev.token == t && cfg.sha(ev.ack) == id && !Contains(s.bloom, ACK_FILTER, ev.ack)
  }

  lemma {:induction false} MarkSentMeaning(cfg: Config, s: Cache, ev: Event, id: Id, t: Token)
    requires Aligned(cfg.order, |s.tokens|) && TablesOk(cfg, s) && BitsOk(s) && ev.MarkEvent? && ValidEvent(cfg, s, ev)
    ensures Sized(MarkSent(cfg, s, ev.token, ev.message, ev.picks))
    ensures Follows(s, MarkSent(cfg, s, ev.token, ev.message, ev.picks), id, t, MarksMessage(cfg, ev, id, t), false)
  {
    hide EntriesOk, AcksOk, TokenToSendTo, MessageId, ValidChoices, RecsWithin, AcksWithin, SentIn, AckSentTo, Within;
    SentToListed(s, id, t);
    if MessageId(cfg.sha, ev.message).None? {
      SameFollows(s, s, id, t);
    } else {
      var x := MessageId(cfg.sha, ev.message).value;
      TokenToSendToOk(cfg, s, ev.token, {}, ev.picks);
      TokenToSendToMeaning(cfg, s, ev.token, {}, ev.picks, id, t);
      EmptyMeaning(s.tokens);
      var r := TokenToSendTo(cfg, s, ev.token, {}, ev.picks);
      var e := Bucket(r.0, x);
      var rs := r.0.entries[e];
      var i := FindRec(rs, x, |rs|);
      InMessagesIff(r.0, id);
      if r.1.Some? && i.Some? {
        EntryDistinct(r.0.entries, e);
        SetBitMeaning(rs, r.0.tokens, i.value, r.1.value, id, t);
        var s' := MarkSent(cfg, s, ev.token, ev.message, ev.picks);
        SameAcks(r.0, s', id, t);
        InMessagesIff(s', id);
        SentToListed(r.0, id, t);
      }
    }
  }

  lemma {:induction false} SetBitMeaning(rs: seq<Rec>, tokens: seq<Token>, i: nat, bit: nat, id: Id, t: Token)
    requires i < |rs| && bit < |tokens| <= MAX_TOKENS && DistinctIds(rs)
    ensures var rs' := rs[i := rs[i].(sent := rs[i].sent + {bit})];
            && (SentIn(rs', tokens, id, t) <==> SentIn(rs, tokens, id, t) || (rs[i].id == id && t == tokens[bit]))
            && (RecsWithin(rs, |tokens|) ==> RecsWithin(rs', |tokens|))
            && (HasRecord(rs', id) <==> HasRecord(rs, id))
  {
    hide Meaning;
    var rs' := rs[i := rs[i].(sent := rs[i].sent + {bit})];
    MeaningOfSet(tokens, rs[i].sent, bit);
    if k :| 0 <= k < |rs| && rs[k].id == id && t in Meaning(tokens, rs[k].sent) {
      assert rs'[k].id == id && t in Meaning(tokens, rs'[k].sent);
    }
    if k :| 0 <= k < |rs| && rs[k].id == id {
      assert rs'[k].id == id;
    }
    if rs[i].id == id && t == tokens[bit] {
      assert rs'[i].id == id && t in Meaning(tokens, rs'[i].sent);
    }
  }

  /** After the entry of an ID was found, it is the only one that can be in use for it. */
  lemma {:induction false} OnlyEntry(cfg: Config, acks: seq<Ack>, acks': seq<Ack>, i: nat, x: Id)
    requires AckSlots(acks) && AcksOk(cfg, acks) && AcksFewer(acks, acks') && UsedFor(acks, i, x)
    ensures i < |acks'| && (acks'[i].used ==> acks'[i].id == x)
    ensures forall k: nat | UsedFor(acks', k, x) :: k == i
  {
    hide AckOk;
    forall k: nat | UsedFor(acks', k, x) ensures k == i {
      assert UsedFor(acks, k, x);
    }
  }

  lemma {:induction false} AckForTokenMeaning(cfg: Config, s: Cache, ev: Event, id: Id, t: Token)
    requires Aligned(cfg.order, |s.tokens|) && TablesOk(cfg, s) && BitsOk(s) && ev.AckForEvent? && ValidEvent(cfg, s, ev)
    ensures var s' := AckForToken(cfg, s, ev.token, ev.ack, ev.stray, ev.picks).0;
            Sized(s') && Follows(s, s', id, t, false, MarksAck(cfg, s, ev, id, t))
  {
    hide EntriesOk, AcksOk, TokenToSendTo, ValidChoices, BitsOk, SentTo, AckSentTo, AfterLookup, AcksFewer,
      Contains, AckIndex, Meaning;
    var s1 := Looked(s, ACK_FILTER, ev.ack);
    SameFollows(s, s1, id, t);
    var x := cfg.sha(ev.ack);
    if !Contains(s.bloom, ACK_FILTER, ev.ack) {
      var a := AckIndex(s1.acks, x);
      var bitmap := if a.Some? then s1.acks[a.value].sent else ev.stray;
      TokenToSendToOk(cfg, s1, ev.token, bitmap, ev.picks);
      TokenToSendToMeaning(cfg, s1, ev.token, bitmap, ev.picks, id, t);
      var r := TokenToSendTo(cfg, s1, ev.token, bitmap, ev.picks);
      if r.1.None? {
        RefusedFollows(cfg, s1, a, ev.token, bitmap, x);
      } else if a.Some? {
        OnlyEntry(cfg, s1.acks, r.0.acks, a.value, x);
        SetAckBit(cfg, r.0, a.value, r.1.value, x, id, t);
      } else {
        InAcksIff(cfg, s1, x);
        FewerEntries(s1.acks, r.0.acks, x);
      }
    }
  }

  /** No index is given for a token that is not listed, or already has this ack. */
  lemma {:induction false} RefusedFollows(cfg: Config, s: Cache, a: Option<nat>, token: Token, bitmap: Bits, x: Id)
    requires TablesOk(cfg, s) && a == AckIndex(s.acks, x)
    requires a.Some? ==> bitmap == s.acks[a.value].sent
    requires token !in s.tokens || token in Meaning(s.tokens, bitmap)
    ensures HasEntry(s.acks, x) && token in s.tokens ==> AckSentTo(s, x, token)
  {
    hide EntriesOk, AckOk, Meaning;
    InAcksIff(cfg, s, x);
    if a.Some? && token in s.tokens {
      HasAckSent(s, a.value, x, token);
    }
  }

  lemma {:induction false} HasAckSent(s: Cache, i: nat, id: Id, t: Token)
    requires i < |s.acks| && AckSentAt(s.acks, s.tokens, i, id, t)
    ensures AckSentTo(s, id, t)
  {
  }

  /** Setting a bit of the entry of x, if it is still in use. */
  lemma {:induction false} SetAckBit(cfg: Config, s: Cache, i: nat, bit: nat, x: Id, id: Id, t: Token)
    requires TablesOk(cfg, s) && BitsOk(s) && i < |s.acks| && bit < |s.tokens|
    requires forall k: nat | UsedFor(s.acks, k, x) :: k == i
    requires s.acks[i].used ==> s.acks[i].id == x
    ensures var s' := s.(acks := s.acks[i := s.acks[i].(sent := s.acks[i].sent + {bit})]);
            && Follows(s, s', id, t, false, id == x && t == s.tokens[bit])
            && (InMessages(s', id) <==> InMessages(s, id))
            && (HasEntry(s'.acks, id) <==> HasEntry(s.acks, id))
  {
    hide Meaning, Within, SentIn, RecsWithin, EntryOk, AckOk;
    var s' := s.(acks := s.acks[i := s.acks[i].(sent := s.acks[i].sent + {bit})]);
    MeaningOfSet(s.tokens, s.acks[i].sent, bit);
    SentToListed(s, id, t);
    SentToListed(s', id, t);
    forall k | 0 <= k < |s.acks|
      ensures AckSentAt(s'.acks, s'.tokens, k, id, t) <==>
              AckSentAt(s.acks, s.tokens, k, id, t) || (k == i && s.acks[k].used && s.acks[k].id == id && t == s.tokens[bit])
    {
    }
    if k: nat :| UsedFor(s'.acks, k, id) {
      assert UsedFor(s.acks, k, id);
    }
    if k: nat :| UsedFor(s.acks, k, id) {
      assert UsedFor(s'.acks, k, id);
    }
  }

  /** One operation, exactly. */
  lemma {:induction false} StepMeaning(cfg: Config, s: Cache, ev: Event, s': Cache, id: Id, t: Token)
    requires Aligned(cfg.order, |s.tokens|) && TablesOk(cfg, s) && BitsOk(s) && IsStep(cfg, s, ev, s')
    ensures Sized(s') && Follows(s, s', id, t, MarksMessage(cfg, ev, id, t), MarksAck(cfg, s, ev, id, t))
  {
    hide EntriesOk, AcksOk, Save, SaveAck, AckForToken, MarkSent, GcChoices, RecsWithin, AcksWithin, SentTo, AckSentTo,
      Contains, Note, AfterLookup, InMessages, HasEntry, Within, Answerable;
    match ev
    case SaveEvent(message, priority, picks) => SaveMeaning(cfg, s, ev, id, t);
    case AckEvent(ack, maxHops, picks) => SaveAckMeaning(cfg, s, ack, maxHops, picks, id, t);
    case AckForEvent(token, ack, stray, picks) => AckForTokenMeaning(cfg, s, ev, id, t);
    case MarkEvent(token, message, picks) => MarkSentMeaning(cfg, s, ev, id, t);
    case RequestEvent(req) =>
      MemoWithin(s, req);
      SameFollows(s, s', id, t);
    case _ => SameFollows(s, s', id, t);
  }

  lemma {:induction false} MemoWithin(s: Cache, req: Request)
    requires |s.tokens| <= MAX_TOKENS && Within(s.zero, |s.tokens|)
    ensures Within(AfterRequest(s, req).zero, |s.tokens|)
  {
    hide Answerable;
  }

  /** The bitmaps are safe in the first `k` states of the run. */
  ghost predicate AlignedUntil(cfg: Config, states: seq<Cache>, k: nat) {
    forall j | 0 <= j < k && j < |states| :: Aligned(cfg.order, |states[j].tokens|)
  }

  lemma {:induction false} RunBitsOk(cfg: Config, states: seq<Cache>, evs: seq<Event>, k: nat)
    requires IsRun(cfg, states, evs) && TablesOk(cfg, states[0]) && BitsOk(states[0]) && k < |states|
    requires AlignedUntil(cfg, states, k)
    ensures TablesOk(cfg, states[k]) && BitsOk(states[k])
    decreases k
  {
    hide EntriesOk, AcksOk, Step, ValidEvent, WellSized, BitsOk;
    if k > 0 {
      RunBitsOk(cfg, states, evs, k - 1);
      assert IsStep(cfg, states[k - 1], evs[k - 1], states[k]);
      StepOk(cfg, states[k - 1], evs[k - 1]);
      StepMeaning(cfg, states[k - 1], evs[k - 1], states[k], NO_TOKEN, NO_TOKEN);
    }
  }

  // ---------------------------------------------------------------------------
  // Runs
  // ---------------------------------------------------------------------------

  /** What history says: the message was marked for the token, and since then the message has been
      stored and the token listed without interruption. */
  ghost predicate MarkedSince(cfg: Config, states: seq<Cache>, evs: seq<Event>, k: nat, id: Id, t: Token)
    requires |states| == |evs| + 1 && k < |states| && forall j | 0 <= j < |states| :: Sized(states[j])
    decreases k
  {
    if k == 0 then SentTo(states[0], id, t)
    else
      && InMessages(states[k], id) && t in states[k].tokens
      && (MarksMessage(cfg, evs[k - 1], id, t) || MarkedSince(cfg, states, evs, k - 1, id, t))
  }

  /** In every reachable state bit i of a stored message means "sent to token_list[i]": it is set
      exactly if the message was marked for that token since both are in the tables. */
  lemma {:induction false} BitsMeanSent(cfg: Config, states: seq<Cache>, evs: seq<Event>, k: nat, id: Id, t: Token)
    requires IsRun(cfg, states, evs) && TablesOk(cfg, states[0]) && BitsOk(states[0]) && k < |states|
    requires AlignedUntil(cfg, states, k)
    requires forall j | 0 <= j < |states| :: Sized(states[j])
    ensures SentTo(states[k], id, t) <==> MarkedSince(cfg, states, evs, k, id, t)
    decreases k
  {
    hide TablesOk, BitsOk, SentTo, AckSentTo, Step, ValidEvent, WellSized, InMessages, MarksMessage, MarksAck;
    if k > 0 {
      BitsMeanSent(cfg, states, evs, k - 1, id, t);
      RunBitsOk(cfg, states, evs, k - 1);
      assert IsStep(cfg, states[k - 1], evs[k - 1], states[k]);
      StepMeaning(cfg, states[k - 1], evs[k - 1], states[k], id, t);
    }
  }

  /** The same for an ack: it was handed to the token, and since then it has had an entry and the token has
      been listed without interruption. */
  ghost predicate GivenSince(cfg: Config, states: seq<Cache>, evs: seq<Event>, k: nat, id: Id, t: Token)
    requires |states| == |evs| + 1 && k < |states| && forall j | 0 <= j < |states| :: Sized(states[j])
    decreases k
  {
    if k == 0 then AckSentTo(states[0], id, t)
    else
      && HasEntry(states[k].acks, id) && t in states[k].tokens
      && (MarksAck(cfg, states[k - 1], evs[k - 1], id, t) || GivenSince(cfg, states, evs, k - 1, id, t))
  }

  /** In every reachable state a bit of an ack is set exactly if the ack was handed to that token since both are
      in the tables. */
  lemma {:induction false} AckBitsMeanGiven(cfg: Config, states: seq<Cache>, evs: seq<Event>, k: nat, id: Id, t: Token)
    requires IsRun(cfg, states, evs) && TablesOk(cfg, states[0]) && BitsOk(states[0]) && k < |states|
    requires AlignedUntil(cfg, states, k)
    requires forall j | 0 <= j < |states| :: Sized(states[j])
    ensures AckSentTo(states[k], id, t) <==> GivenSince(cfg, states, evs, k, id, t)
    decreases k
  {
    hide TablesOk, BitsOk, SentTo, AckSentTo, Step, ValidEvent, WellSized, InMessages, HasEntry, MarksMessage, MarksAck;
    if k > 0 {
      AckBitsMeanGiven(cfg, states, evs, k - 1, id, t);
      RunBitsOk(cfg, states, evs, k - 1);
      assert IsStep(cfg, states[k - 1], evs[k - 1], states[k]);
      StepMeaning(cfg, states[k - 1], evs[k - 1], states[k], id, t);
    }
  }
}
