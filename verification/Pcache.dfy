/**
 The packet cache as the program keeps it, updated in place.  Each method is tied to the function of
 PcacheModel that describes it; the random choices it made come back as ghost results.
 */
module Pcache {
  import AcksOnce
  import opened Answers
  import opened Base
  import opened Bloom
  import opened MessageGc
  import opened Packets
  import opened PcacheInvariants
  import opened PcacheModel
  import opened PidBloom
  import opened Records
  import opened Tables
  import opened TokenBits

  class PacketCache {
    const cfg: Config
    const messages: Messages
    const ackTable: AckTable
    const tokenTable: TokenTable
    const bloom: BloomTable
    var zeroReturned: Bits
    var now: nat
    var lastTokenGc: nat
    ghost var asked: map<int, Request>

    ghost function Repr(): set<object> {
      {this, messages} + messages.Repr + ackTable.Repr() + tokenTable.Repr() + bloom.Repr()
    }

    ghost predicate Apart() {
      && this !in messages.Repr && this !in ackTable.Repr() && this !in tokenTable.Repr() && this !in bloom.Repr()
      && messages.Repr !! ackTable.Repr() && messages.Repr !! tokenTable.Repr() && messages.Repr !! bloom.Repr()
      && ackTable.Repr() !! tokenTable.Repr() && ackTable.Repr() !! bloom.Repr() && tokenTable.Repr() !! bloom.Repr()
    }

    ghost predicate Valid()
      reads Repr()
    {
      && Apart()
      && messages.Valid() && messages.order == cfg.order && |messages.entries| > 0
      && ackTable.Valid() && ackTable.order == cfg.order
      && tokenTable.Valid() && bloom.Valid()
    }

    /** The abstract value of the cache. */
    ghost function View(): (s: Cache)
      requires Valid()
      reads Repr()
      ensures Sized(s) && |s.tokens| <= MAX_TOKENS && |s.acks| == ackTable.acks.Length
      ensures |s.entries| == |messages.entries|
    {
      Cache(messages.contents, ackTable.acks[..], tokenTable.Tokens(), zeroReturned, asked, bloom.View(), now,
            lastTokenGc)
    }

    /** initialize_from_scratch */
    constructor (cfg: Config, buckets: nat, slots: nat)
      requires buckets > 0 && slots > 0
      ensures Valid() && fresh(Repr()) && this.cfg == cfg
      ensures View() == EmptyCache(buckets, slots)
    {
      hide Messages.Valid, BloomTable.View, BloomTable.Valid;
      this.cfg := cfg;
      messages := new Messages(cfg.order, buckets);
      ackTable := new AckTable(cfg.order, slots);
      tokenTable := new TokenTable();
      bloom := new BloomTable();
      zeroReturned, now, lastTokenGc := {}, 0, 0;
      asked := map[];
    }

    /** The ack table's share of do_gc. */
    method GcAcks(shift: nat) returns (ghost picks: seq<seq<nat>>)
      requires Valid()
      modifies ackTable.Repr(), bloom.Repr()
      ensures Valid()
      ensures |picks| == ackTable.acks.Length / ACKS_PER_SLOT
      ensures ValidChoices(cfg.order, old(View()).acks, old(View()).bloom, picks, shift, |picks|)
      ensures GcSlots(cfg.order, old(View()).acks, old(View()).bloom, picks, shift, |picks|)
              == (ackTable.acks[..], bloom.View())
    {
      hide PcacheModel.GcSlot, ValidPicks, Messages.Valid, BloomTable.View, BloomTable.Valid;
      ghost var acks0, b0 := View().acks, View().bloom;
      picks := [];
      for i := 0 to ackTable.acks.Length / ACKS_PER_SLOT
        invariant Valid() && |picks| == i
        invariant ValidChoices(cfg.order, acks0, b0, picks, shift, i)
        invariant GcSlots(cfg.order, acks0, b0, picks, shift, i) == (ackTable.acks[..], bloom.View())
      {
        ghost var more := ackTable.GcSlot(ACKS_PER_SLOT * i, shift, bloom);
        MorePicks(cfg.order, acks0, b0, picks, more, shift, i);
        picks := picks + [more];
      }
    }

    /** The message table's share of do_gc; the result is the free offset in the entry with a message
        waiting, if there is one. */
    method GcMessages(eindex: int, msize: nat, shift: nat) returns (offset: nat)
      requires Valid()
      modifies messages.Repr, bloom.Repr()
      ensures Valid()
      ensures messages.contents == GcEntries(cfg.order, old(messages.contents), eindex, msize, shift, now)
      ensures bloom.View() ==
              GcEntriesBloom(old(View()).bloom, old(messages.contents), eindex, msize, now, |old(messages.contents)|)
      ensures 0 <= eindex < |messages.contents| ==> offset == TotalSize(messages.contents[eindex])
    {
      hide GcRecords, GcBloom, TotalSize, Messages.Valid, BloomTable.View, BloomTable.Valid,
        AckTable.Valid, TokenTable.Valid, TokenTable.Tokens;
      ghost var entries0, b0 := messages.contents, View().bloom;
      offset := 0;
      for i := 0 to |messages.entries|
        invariant Valid() && |messages.contents| == |entries0|
        invariant forall k | 0 <= k < |entries0| ::
                    messages.contents[k] ==
                    if k < i then GcRecords(cfg.order, entries0[k], RoomFor(eindex, msize, k), shift, now) else entries0[k]
        invariant bloom.View() == GcEntriesBloom(b0, entries0, eindex, msize, now, i)
        invariant 0 <= eindex < i ==> offset == TotalSize(messages.contents[eindex])
      {
        if i == eindex {
          offset := messages.GcEntry(i, msize, shift, now, bloom);
        } else {
          var _ := messages.GcEntry(i, 0, shift, now, bloom);
        }
      }
    }

    /** do_gc */
    method DoGc(eindex: int, msize: nat) returns (offset: nat, ghost picks: seq<seq<nat>>)
      requires Valid()
      modifies Repr()
      ensures Valid()
      ensures GcChoices(cfg, old(View()), picks) && |picks| == |old(View()).acks| / ACKS_PER_SLOT
      ensures View() == Gc(cfg, old(View()), eindex, msize, picks)
      ensures 0 <= eindex < |messages.contents| ==> offset == TotalSize(messages.contents[eindex])
    {
      hide GcSlots, GcEntries, GcEntriesBloom, ValidChoices, TotalSize, Advance, Messages.Valid,
        BloomTable.View, BloomTable.Valid, TokenTable.Tokens;
      zeroReturned := {};
      asked := map[];
      var shift := tokenTable.Gc();
      picks := GcAcks(shift);
      offset := GcMessages(eindex, msize, shift);
      bloom.AdvanceBloom();
    }

    // -------------------------------------------------------------------------
    // Messages
    // -------------------------------------------------------------------------

    /** pcache_id_found */
    method IdFound(id: Id) returns (found: bool)
      requires Valid()
      modifies Repr()
      ensures Valid()
      ensures found <==> FoundMessage(old(View()), id)
      ensures View() == Looked(old(View()), MESSAGE_FILTER, id)
    {
      hide Contains, AfterLookup, FindRec, Messages.Valid, BloomTable.View, BloomTable.Valid, TokenTable.Tokens;
      found := bloom.IsInBloom(id, MESSAGE_FILTER);
      if !found {
        ghost var at;
        var offset;
        found, offset, at := messages.FindDelete(ReadB64(id) % |messages.entries|, id, false);
      }
    }

    /** The middle of pcache_save_packet: where the new record goes, after a gc if it does not fit. */
    method MakeRoom(id: Id, msize: nat) returns (offset: nat, ghost picks: seq<seq<nat>>)
      requires Valid()
      modifies Repr()
      ensures Valid()
      ensures GcChoices(cfg, old(View()), picks)
      ensures View() == if NeedsGc(old(View()), id, msize) then Gc(cfg, old(View()), Bucket(old(View()), id), msize, picks)
                        else old(View())
      ensures offset == TotalSize(View().entries[Bucket(View(), id)])
    {
      hide GcChoices, Gc, TotalSize, Messages.Valid, BloomTable.View, BloomTable.Valid, TokenTable.Tokens;
      picks := SomeChoices(cfg, View());
      var e := ReadB64(id) % |messages.entries|;
      offset := messages.UsedBytes(e);
      if offset + HEADER_SIZE + msize > STORAGE_SIZE {
        offset, picks := DoGc(e, msize);
      }
    }

    /** pcache_save_packet; not ok when the program would exit with a gc error. */
    method SavePacket(message: seq<Byte>, priority: U32) returns (ok: bool, ghost picks: seq<seq<nat>>)
      requires Valid()
      modifies Repr()
      ensures Valid()
      ensures GcChoices(cfg, old(View()), picks)
      ensures Save(cfg, old(View()), message, priority, picks) == if ok then Some(View()) else None
    {
      hide AfterLookup, GcChoices, Gc, TotalSize, MessageId, FoundMessage,
        Messages.Valid, BloomTable.View, BloomTable.Valid, AckTable.Valid, TokenTable.Valid, TokenTable.Tokens;
      ghost var s := View();
      picks := SomeChoices(cfg, s);
      var mid := MessageId(cfg.sha, message);
      if mid.None? {
        return true, picks;
      }
      var found := IdFound(mid.value);
      if found {
        return true, picks;
      }
      zeroReturned := {};
      asked := map[];
      ghost var s2 := View();
      var offset;
      offset, picks := MakeRoom(mid.value, |message|);
      ChoicesCarryOver(cfg, s2, s, picks);
      ok := offset + HEADER_SIZE + |message| <= STORAGE_SIZE;
      if ok {
        messages.Append(ReadB64(mid.value) % |messages.entries|, offset, mid.value, priority, message);
      }
    }

    /** pcache_record_packet */
    method RecordPacket(message: seq<Byte>)
      requires Valid()
      modifies Repr()
      ensures Valid()
      ensures View() == PcacheModel.RecordPacket(cfg, old(View()), message)
    {
      hide Note, MessageId, Messages.Valid, BloomTable.View, BloomTable.Valid, TokenTable.Tokens;
      var mid := MessageId(cfg.sha, message);
      if mid.Some? {
        bloom.NoteId(mid.value, MESSAGE_FILTER);
      }
    }

    // -------------------------------------------------------------------------
    // Acks
    // -------------------------------------------------------------------------

    /** pcache_id_acked */
    method IdAcked(id: Id) returns (acked: bool, ack: Id)
      requires Valid()
      ensures acked <==> InAcks(View(), id)
      ensures acked ==> exists i | 0 <= i < |View().acks| :: View().acks[i].used && View().acks[i].id == id && View().acks[i].ack == ack
    {
      hide Messages.Valid, BloomTable.View, BloomTable.Valid, TokenTable.Tokens;
      var aindex := ackTable.FindOne(id);
      acked := aindex >= 0;
      ack := if acked then ackTable.acks[aindex].ack else NO_TOKEN;
      if acked {
        assert View().acks[aindex] == ackTable.acks[aindex];
      }
    }

    /** The middle of save_one_ack: a free place for a new ack, after a gc if there is none. */
    method MakePlace(id: Id) returns (place: nat, ghost picks: seq<seq<nat>>)
      requires Valid()
      modifies Repr()
      ensures Valid()
      ensures GcChoices(cfg, old(View()), picks)
      ensures View() == if PlaceFor(old(View()).acks, id).None? then Gc(cfg, old(View()), -1, 0, picks) else old(View())
      ensures PlaceFor(View().acks, id) == Some(place)
    {
      hide GcChoices, Gc, UsedCount, Messages.Valid, BloomTable.View, BloomTable.Valid, TokenTable.Tokens;
      ghost var s := View();
      picks := SomeChoices(cfg, s);
      var home := ReadB64(id) % ackTable.acks.Length;
      SlotFits(ackTable.acks[..], home);
      assert home == AckHome(ackTable.acks[..], id);
      if !ackTable.acks[home].used {
        return home, picks;
      }
      var found := ackTable.FindFreeInSlot(home);
      if found >= 0 {
        return found, picks;
      }
      var unused;
      unused, picks := DoGc(-1, 0);
      GcFrees(cfg, s, -1, 0, picks, id);
      assert home == AckHome(ackTable.acks[..], id);
      if !ackTable.acks[home].used {
        return home, picks;
      }
      found := ackTable.FindFreeInSlot(home);
      place := found;
    }

    /** The end of save_one_ack: fill the entry and stop caching the message. */
    method PutAck(place: nat, ack: Id, id: Id, maxHops: nat)
      requires Valid() && place < ackTable.acks.Length
      modifies Repr()
      ensures Valid()
      ensures View() == PcacheModel.PutAck(old(View()), place, ack, id, maxHops)
    {
      hide DeleteRec, Messages.Valid, BloomTable.View, BloomTable.Valid, TokenTable.Tokens;
      ackTable.acks[place] := Ack(ack, id, true, maxHops, {});
      ghost var at;
      var found, offset;
      found, offset, at := messages.FindDelete(ReadB64(id) % |messages.entries|, id, true);
    }

    /** save_one_ack */
    method SaveOneAck(ack: Id, maxHops: nat) returns (ghost picks: seq<seq<nat>>)
      requires Valid()
      modifies Repr()
      ensures Valid()
      ensures GcChoices(cfg, old(View()), picks)
      ensures SaveAck(cfg, old(View()), ack, maxHops, picks) == Some(View())
    {
      hide Contains, AfterLookup, GcChoices, Gc, PlaceFor, AckIndex, PcacheModel.PutAck,
        Messages.Valid, BloomTable.View, BloomTable.Valid, TokenTable.Tokens;
      ghost var s := View();
      picks := SomeChoices(cfg, s);
      var seen := bloom.IsInBloom(ack, ACK_FILTER);
      if seen {
        return;
      }
      var id := cfg.sha(ack);
      var aindex := ackTable.FindOne(id);
      if aindex >= 0 {
        if ackTable.acks[aindex].maxHops < maxHops {
          ackTable.acks[aindex] := ackTable.acks[aindex].(maxHops := maxHops);
        }
        return;
      }
      ghost var s1 := View();
      var place;
      place, picks := MakePlace(id);
      ChoicesCarryOver(cfg, s1, s, picks);
      PutAck(place, ack, id, maxHops);
    }

    // -------------------------------------------------------------------------
    // Tokens
    // -------------------------------------------------------------------------

    /** The middle of token_to_send_to: make room for one more token, unless the last gc was too recent. */
    method TokenRoom() returns (ok: bool, ghost picks: seq<seq<nat>>)
      requires Valid()
      modifies Repr()
      ensures Valid()
      ensures GcChoices(cfg, old(View()), picks) && |picks| == |old(View()).acks| / ACKS_PER_SLOT
      ensures ok <==> !RefusesTokenGc(old(View()))
      ensures View() == if ok && |old(View()).tokens| + 1 > MAX_TOKENS
                        then Gc(cfg, old(View()), -1, 0, picks).(lastTokenGc := now) else old(View())
      ensures ok ==> |View().tokens| < MAX_TOKENS
      ensures now == old(now)
    {
      hide GcChoices, GcSlots, GcEntries, GcEntriesBloom, Messages.Valid, BloomTable.View, BloomTable.Valid;
      picks := SomeChoices(cfg, View());
      ok := true;
      if tokenTable.count + 1 > MAX_TOKENS {
        if lastTokenGc + TOKEN_GC_SECONDS > now {
          return false, picks;
        }
        var unused;
        unused, picks := DoGc(-1, 0);
        lastTokenGc := now;
      }
    }

    /** token_to_send_to: the table index to mark, or -1. */
    method TokenToSendTo(token: Token, bitmap: Bits) returns (index: int, ghost picks: seq<seq<nat>>)
      requires Valid()
      modifies Repr()
      ensures Valid()
      ensures GcChoices(cfg, old(View()), picks) && |picks| == |old(View()).acks| / ACKS_PER_SLOT
      ensures PcacheModel.TokenToSendTo(cfg, old(View()), token, bitmap, picks)
              == (View(), if index < 0 then None else Some(index))
      ensures -1 <= index < MAX_TOKENS
    {
      hide GcChoices, Gc, RefusesTokenGc, Messages.Valid, BloomTable.View, BloomTable.Valid;
      ghost var s := View();
      picks := SomeChoices(cfg, s);
      index := tokenTable.FindIndex(token);
      if index >= 0 {
        return if index in bitmap then -1 else index, picks;
      }
      var ok;
      ok, picks := TokenRoom();
      if !ok {
        return -1, picks;
      }
      index := tokenTable.Add(token);
    }

    /** pcache_ack_for_token; `stray` is the bitmap before the table, read when the ack has no entry. */
    method AckForToken(token: Token, ack: Id, stray: Bits) returns (give: bool, ghost picks: seq<seq<nat>>)
      requires Valid()
      modifies Repr()
      ensures Valid()
      ensures GcChoices(cfg, old(View()), picks) && |picks| == |old(View()).acks| / ACKS_PER_SLOT
      ensures PcacheModel.AckForToken(cfg, old(View()), token, ack, stray, picks) == (View(), give)
    {
      hide Contains, AfterLookup, GcChoices, PcacheModel.TokenToSendTo, AckIndex,
        Messages.Valid, BloomTable.View, BloomTable.Valid, TokenTable.Tokens;
      ghost var s := View();
      picks := SomeChoices(cfg, s);
      var seen := bloom.IsInBloom(ack, ACK_FILTER);
      if seen {
        return false, picks;
      }
      var aindex := ackTable.FindOne(cfg.sha(ack));
      ghost var s1 := View();
      var itoken;
      itoken, picks := TokenToSendTo(token, if aindex >= 0 then ackTable.acks[aindex].sent else stray);
      ChoicesCarryOver(cfg, s1, s, picks);
      if itoken == -1 {
        return false, picks;
      }
      if aindex >= 0 {
        ackTable.acks[aindex] := ackTable.acks[aindex].(sent := ackTable.acks[aindex].sent + {itoken});
      }
      give := true;
    }

    /** pcache_mark_token_sent */
    method MarkTokenSent(token: Token, message: seq<Byte>) returns (ghost picks: seq<seq<nat>>)
      requires Valid()
      modifies Repr()
      ensures Valid()
      ensures GcChoices(cfg, old(View()), picks)
      ensures View() == MarkSent(cfg, old(View()), token, message, picks)
    {
      hide GcChoices, PcacheModel.TokenToSendTo, FindRec, TotalSize,
        Messages.Valid, BloomTable.View, BloomTable.Valid, TokenTable.Tokens;
      picks := SomeChoices(cfg, View());
      var mid := MessageId(cfg.sha, message);
      if mid.None? {
        return;
      }
      var index;
      index, picks := TokenToSendTo(token, {});
      if index >= 0 {
        var e := ReadB64(mid.value) % |messages.entries|;
        ghost var at;
        var found, offset;
        found, offset, at := messages.FindDelete(e, mid.value, false);
        if found {
          messages.MarkSent(e, offset, index, at);
        }
      }
    }

    /** One turn of the loop of pcache_acks_for_token. */
    method OneAckForToken(token: Token, acks: array<Id>, i: nat, result: nat, stray: Bits)
      returns (result': nat, ghost picks: seq<seq<nat>>)
      requires Valid() && acks !in Repr() && result <= i < acks.Length
      modifies Repr(), acks
      ensures Valid()
      ensures GcChoices(cfg, old(View()), picks) && |picks| == |old(View()).acks| / ACKS_PER_SLOT
      ensures var a := PcacheModel.AckForToken(cfg, old(View()), token, old(acks[i]), stray, picks);
              && View() == a.0 && result' == (if a.1 then result + 1 else result)
              && acks[..] == if a.1 then old(acks[..])[result := old(acks[i])] else old(acks[..])
    {
      hide *;
      result' := result;
      var give;
      give, picks := AckForToken(token, acks[i], stray);
      if give {
        acks[result] := acks[i];
        result' := result + 1;
      }
    }

    /** pcache_acks_for_token: the acks to give move to the front of the array, in order. */
    method AcksForToken(token: Token, acks: array<Id>, stray: Bits) returns (result: nat, ghost picks: seq<seq<seq<nat>>>)
      requires Valid() && acks !in Repr() && TablesOk(cfg, View())
      modifies Repr(), acks
      ensures Valid() && |picks| == acks.Length
      ensures forall k | 0 <= k < |picks| :: |picks[k]| == |old(View()).acks| / ACKS_PER_SLOT
      ensures ChoicesFor(cfg, old(View()), token, old(acks[..]), stray, picks, acks.Length)
      ensures var r := AcksOnce.AcksForToken(cfg, old(View()), token, old(acks[..]), stray, picks, acks.Length);
              View() == r.0 && result == |r.1| <= acks.Length && acks[..] == r.1 + old(acks[..])[result..]
    {
      hide GcChoices, PcacheModel.AckForToken, AcksOnce.AcksForToken, ChoicesFor, TablesOk, Valid, View, Sized;
      ghost var s, given := View(), acks[..];
      ghost var one := SomeChoices(cfg, s);
      picks := seq(acks.Length, _ => one);
      BatchStart(cfg, s, token, given, stray, picks);
      result := 0;
      for i := 0 to acks.Length
        invariant Valid() && |picks| == acks.Length == |given| && result <= i
        invariant forall k | 0 <= k < |picks| :: |picks[k]| == |s.acks| / ACKS_PER_SLOT
        invariant ChoicesFor(cfg, s, token, given, stray, picks, i)
        invariant AcksOnce.AcksForToken(cfg, s, token, given, stray, picks, i) == (View(), acks[..result])
        invariant acks[result..] == given[result..]
      {
        ghost var more, before, r := [], acks[..], result;
        ghost var v := View();
        assert before[i] == before[result..][i - result] == given[i];
        result, more := OneAckForToken(token, acks, i, result, stray);
        BatchNext(cfg, s, token, given, stray, picks, i, more, v, before[..r]);
        picks := picks[i := more];
        assert acks[..result] == if result > r then before[..r] + [given[i]] else before[..r];
      }
    }

    // -------------------------------------------------------------------------
    // Requests
    // -------------------------------------------------------------------------

    /** pcache_request: the scan stops at the first message that does not fit the buffer, and an empty
        answer to a known token sets its memo bit. */
    method Request(req: Request, max: int, bsize: nat) returns (answer: seq<Message>)
      requires Valid()
      modifies this`zeroReturned, this`asked
      ensures Valid()
      ensures MemoSet(old(View()), req) ==> answer == [] && View() == old(View())
      ensures !MemoSet(old(View()), req) ==>
                && IsAnswer(AnswerList(old(View()), req), answer, max, bsize)
                && View() == if answer == [] then Memoized(old(View()), req) else old(View())
    {
      hide AllEligible, EligibleOf, IsAnswer, Fits, Messages.Valid, BloomTable.View, BloomTable.Valid,
        AckTable.Valid, TokenTable.Tokens;
      var i := tokenTable.FindIndex(req.token);
      answer := [];
      if i >= 0 && i in zeroReturned {
        return;
      }
      answer := Scan(req, if i >= 0 then Some(i) else None, max, bsize);
      if answer == [] && i >= 0 {
        zeroReturned := zeroReturned + {i};
        asked := asked[i := req];
      }
    }

    /** The two loops of pcache_request. */
    method Scan(req: Request, index: Option<nat>, max: int, bsize: nat) returns (answer: seq<Message>)
      requires Valid()
      ensures IsAnswer(AllEligible(req, index, now, messages.contents, |messages.contents|), answer, max, bsize)
    {
      hide EligibleOf, IsAnswer, Fits, Messages.Valid, BloomTable.View, BloomTable.Valid, AckTable.Valid,
        TokenTable.Tokens;
      answer := [];
      var full := false;
      ScanStart(max, bsize);
      ghost var all := [];
      for ie := 0 to |messages.entries|
        invariant all == AllEligible(req, index, now, messages.contents, ie)
        invariant Scanning(all, answer, max, bsize, full)
      {
        if !full {
          answer, full := ScanEntry(req, index, ie, max, bsize, answer, all);
        } else {
          ScanFull(all, answer, EligibleOf(req, index, now, messages.contents[ie], |messages.contents[ie]|), max, bsize);
        }
        all := all + EligibleOf(req, index, now, messages.contents[ie], |messages.contents[ie]|);
      }
    }

    method ScanEntry(req: Request, index: Option<nat>, ie: nat, max: int, bsize: nat, answer0: seq<Message>, ghost all: seq<Message>)
      returns (answer: seq<Message>, full: bool)
      requires Valid() && ie < |messages.entries|
      requires Scanning(all, answer0, max, bsize, false)
      ensures Scanning(all + EligibleOf(req, index, now, messages.contents[ie], |messages.contents[ie]|), answer, max, bsize, full)
    {
      hide Scanning, Eligible, TotalSize, BufferUse, Messages.Valid, BloomTable.View, BloomTable.Valid,
        AckTable.Valid, TokenTable.Tokens;
      ghost var rs := messages.contents[ie];
      answer, full := answer0, false;
      var offset := 0;
      var n := messages.Count(ie);
      assert all + [] == all && rs[..0] == [];
      TotalSizeEmpty();
      for im := 0 to n
        invariant offset == Offset(rs, im)
        invariant Scanning(all + EligibleOf(req, index, now, rs, im), answer, max, bsize, full)
      {
        var h, body := messages.Record(ie, offset, im);
        ghost var l := all + EligibleOf(req, index, now, rs, im);
        ghost var m := Message(body, h.priority);
        assert rs[im] == Rec(h.id, h.priority, h.sent, body);
        assert EligibleOf(req, index, now, rs, im) + [] == EligibleOf(req, index, now, rs, im);
        if Eligible(req, index, now, Rec(h.id, h.priority, h.sent, body)) {
          assert all + EligibleOf(req, index, now, rs, im + 1) == l + [m];
          if full {
            ScanFull(l, answer, [m], max, bsize);
          } else {
            ScanOne(l, answer, max, bsize, m);
            if !(max > 0 && |answer| >= max) {
              if BufferUse(answer) + MESSAGE_STRUCT_SIZE + |body| > bsize {
                full := true;
              } else {
                answer := answer + [Message(body, h.priority)];
              }
            }
          }
        }
        offset := offset + HEADER_SIZE + h.length;
      }
    }
  }

  /** Each call of a batch has picks that are valid when it is made. */
  ghost predicate ChoicesFor(cfg: Config, s: Cache, token: Token, acks: seq<Id>, stray: Bits, picks: seq<seq<seq<nat>>>, n: nat)
    requires TablesOk(cfg, s) && n <= |acks| == |picks|
    requires forall k | 0 <= k < |picks| :: |picks[k]| == |s.acks| / ACKS_PER_SLOT
  {
    n > 0 ==>
      && ChoicesFor(cfg, s, token, acks, stray, picks, n - 1)
      && GcChoices(cfg, AcksOnce.AcksForToken(cfg, s, token, acks, stray, picks, n - 1).0, picks[n - 1])
  }

  lemma {:induction false} MoreBatchPicks(cfg: Config, s: Cache, token: Token, acks: seq<Id>, stray: Bits,
                                          picks: seq<seq<seq<nat>>>, i: nat, more: seq<seq<nat>>, n: nat)
    requires TablesOk(cfg, s) && n <= i < |acks| == |picks|
    requires forall k | 0 <= k < |picks| :: |picks[k]| == |s.acks| / ACKS_PER_SLOT
    requires |more| == |s.acks| / ACKS_PER_SLOT
    ensures AcksOnce.AcksForToken(cfg, s, token, acks, stray, picks[i := more], n)
            == AcksOnce.AcksForToken(cfg, s, token, acks, stray, picks, n)
    ensures ChoicesFor(cfg, s, token, acks, stray, picks[i := more], n)
            <==> ChoicesFor(cfg, s, token, acks, stray, picks, n)
    decreases n
  {
    hide TablesOk, GcChoices, PcacheModel.AckForToken;
    if n > 0 {
      MoreBatchPicks(cfg, s, token, acks, stray, picks, i, more, n - 1);
    }
  }

  /** Valid picks always exist. */
  lemma {:induction false} SomePicks(acks: seq<Ack>, base: nat) returns (picks: seq<nat>)
    requires base + ACKS_PER_SLOT <= |acks|
    ensures ValidPicks(acks, base, picks)
    decreases UsedCount(acks, base, ACKS_PER_SLOT)
  {
    hide UsedCount;
    if UsedCount(acks, base, ACKS_PER_SLOT) <= ACKS_PER_SLOT / 2 {
      picks := [];
    } else {
      SomeUsed(acks, base, ACKS_PER_SLOT);
      var i: nat :| base <= i < base + ACKS_PER_SLOT && acks[i].used;
      UsedCountDrop(acks, base, i, ACKS_PER_SLOT);
      var rest := SomePicks(DropAck(acks, i), base);
      picks := [i] + rest;
      assert picks[1..] == rest;
    }
  }

  lemma {:induction false} SomeSlotChoices(order: ByteOrder, acks: seq<Ack>, b: Bloom, shift: nat, n: nat) returns (picks: seq<seq<nat>>)
    requires ACKS_PER_SLOT * n <= |acks|
    ensures |picks| == n && ValidChoices(order, acks, b, picks, shift, n)
    decreases n
  {
    hide PcacheModel.GcSlot, ValidPicks;
    if n == 0 {
      picks := [];
    } else {
      var first := SomeSlotChoices(order, acks, b, shift, n - 1);
      var more := SomePicks(GcSlots(order, acks, b, first, shift, n - 1).0, ACKS_PER_SLOT * (n - 1));
      MorePicks(order, acks, b, first, more, shift, n - 1);
      picks := first + [more];
    }
  }

  lemma {:induction false} SomeChoices(cfg: Config, s: Cache) returns (picks: seq<seq<nat>>)
    requires Sized(s)
    ensures GcChoices(cfg, s, picks) && |picks| == |s.acks| / ACKS_PER_SLOT
  {
    hide ValidChoices;
    picks := SomeSlotChoices(cfg.order, s.acks, s.bloom, TokenShift(|s.tokens|), |s.acks| / ACKS_PER_SLOT);
  }

  /** Picks valid in a state are valid in one with the same acks and as many tokens. */
  lemma {:induction false} ChoicesCarryOver(cfg: Config, s: Cache, s': Cache, picks: seq<seq<nat>>)
    requires Sized(s) && s'.acks == s.acks && |s'.tokens| == |s.tokens| && Sized(s')
    requires GcChoices(cfg, s, picks)
    ensures GcChoices(cfg, s', picks)
  {
    hide ValidChoices;
    ChoicesIgnoreBloom(cfg.order, s.acks, s.bloom, s'.bloom, picks, TokenShift(|s.tokens|), |picks|);
  }

  lemma {:induction false} BatchStart(cfg: Config, s: Cache, token: Token, acks: seq<Id>, stray: Bits, picks: seq<seq<seq<nat>>>)
    requires TablesOk(cfg, s) && |acks| == |picks|
    requires forall k | 0 <= k < |picks| :: |picks[k]| == |s.acks| / ACKS_PER_SLOT
    ensures AcksOnce.AcksForToken(cfg, s, token, acks, stray, picks, 0) == (s, [])
    ensures ChoicesFor(cfg, s, token, acks, stray, picks, 0)
  {
    hide TablesOk;
  }

  lemma {:induction false} BatchNext(cfg: Config, s: Cache, token: Token, acks: seq<Id>, stray: Bits,
                                     picks: seq<seq<seq<nat>>>, i: nat, more: seq<seq<nat>>, s1: Cache, kept: seq<Id>)
    requires TablesOk(cfg, s) && i < |acks| == |picks|
    requires forall k | 0 <= k < |picks| :: |picks[k]| == |s.acks| / ACKS_PER_SLOT
    requires AcksOnce.AcksForToken(cfg, s, token, acks, stray, picks, i) == (s1, kept)
    requires ChoicesFor(cfg, s, token, acks, stray, picks, i)
    requires |more| == |s.acks| / ACKS_PER_SLOT && GcChoices(cfg, s1, more)
    ensures var a := PcacheModel.AckForToken(cfg, s1, token, acks[i], stray, more);
            AcksOnce.AcksForToken(cfg, s, token, acks, stray, picks[i := more], i + 1)
            == (a.0, if a.1 then kept + [acks[i]] else kept)
    ensures ChoicesFor(cfg, s, token, acks, stray, picks[i := more], i + 1)
  {
    hide TablesOk, GcChoices, PcacheModel.AckForToken;
    MoreBatchPicks(cfg, s, token, acks, stray, picks, i, more, i);
  }

  lemma {:induction false} MorePicks(order: ByteOrder, acks: seq<Ack>, b: Bloom, picks: seq<seq<nat>>, more: seq<nat>, shift: nat, n: nat)
    requires n <= |picks| && ACKS_PER_SLOT * n <= |acks|
    ensures GcSlots(order, acks, b, picks + [more], shift, n) == GcSlots(order, acks, b, picks, shift, n)
    ensures ValidChoices(order, acks, b, picks + [more], shift, n) <==> ValidChoices(order, acks, b, picks, shift, n)
    decreases n
  {
    hide PcacheModel.GcSlot, ValidPicks;
    if n > 0 {
      MorePicks(order, acks, b, picks, more, shift, n - 1);
    }
  }
}
