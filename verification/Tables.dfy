/** The three tables of the packet cache as objects: messages, acks, tokens. */
module Tables {
  import opened Base
  import opened Bloom
  import opened MessageGc
  import opened MessageTable
  import opened PcacheInvariants
  import opened PcacheModel
  import opened PidBloom
  import opened Records
  import opened TokenBits

  /** message_table: the entries never move, their contents change. */
  class Messages {
    const order: ByteOrder
    const entries: seq<MessageEntry>
    ghost var contents: seq<seq<Rec>>

    ghost function EntryRepr(i: nat): set<object>
      requires i < |entries|
    {
      {entries[i], entries[i].storage}
    }

    ghost const Repr: set<object>

    ghost predicate Apart() {
      && (forall i | 0 <= i < |entries| :: this !in EntryRepr(i))
      && forall i, j | 0 <= i < j < |entries| :: EntryRepr(i) !! EntryRepr(j)
    }

    ghost predicate EntryValid(i: nat)
      requires i < |entries|
      reads EntryRepr(i)
    {
      entries[i].Valid() && entries[i].order == order
    }

    ghost predicate Valid()
      reads this, Repr
      ensures Valid() ==> |contents| == |entries|
    {
      && this in Repr && Apart() && |contents| == |entries|
      && (forall i | 0 <= i < |entries| :: EntryRepr(i) <= Repr)
      && forall i | 0 <= i < |entries| :: EntryValid(i) && entries[i].recs == contents[i]
    }

    constructor (order: ByteOrder, n: nat)
      ensures Valid() && fresh(Repr)
      ensures this.order == order && |entries| == n && contents == seq(n, _ => [])
    {
      var t := NewEntries(order, n);
      this.order := order;
      entries := t;
      contents := seq(n, _ => []);
      Repr := {this} + (set i | 0 <= i < n :: t[i] as object) + (set i | 0 <= i < n :: t[i].storage as object);
    }

    static method NewEntries(order: ByteOrder, n: nat) returns (t: seq<MessageEntry>)
      ensures |t| == n
      ensures forall i | 0 <= i < n :: t[i].Valid() && t[i].order == order && t[i].recs == []
      ensures forall i | 0 <= i < n :: fresh(t[i]) && fresh(t[i].storage)
      ensures forall i, j | 0 <= i < j < n :: {t[i], t[i].storage} !! {t[j], t[j].storage}
    {
      t := [];
      for k := 0 to n
        invariant |t| == k
        invariant forall i | 0 <= i < k :: t[i].Valid() && t[i].order == order && t[i].recs == []
        invariant forall i | 0 <= i < k :: fresh(t[i]) && fresh(t[i].storage)
        invariant forall i, j | 0 <= i < j < k :: {t[i], t[i].storage} !! {t[j], t[j].storage}
      {
        var e := new MessageEntry(order);
        t := t + [e];
      }
    }

    method UsedBytes(e: nat) returns (offset: nat)
      requires Valid() && e < |entries|
      ensures offset == TotalSize(contents[e])
    {
      assert EntryValid(e);
      offset := entries[e].UsedBytes();
    }

    method Append(e: nat, offset: nat, id: Id, priority: U32, message: seq<Byte>)
      requires Valid() && e < |entries| && offset == TotalSize(contents[e])
      requires |message| <= ALLNET_MTU && offset + HEADER_SIZE + |message| <= STORAGE_SIZE
      modifies Repr
      ensures Valid()
      ensures contents == old(contents)[e := old(contents)[e] + [Rec(id, priority, {}, message)]]
    {
      hide MessageEntry.Valid, TotalSize;
      assert EntryValid(e) && EntryRepr(e) <= Repr;
      entries[e].Append(offset, id, priority, message);
      contents := contents[e := entries[e].recs];
      forall k | 0 <= k < |entries| && k != e ensures EntryValid(k) && entries[k].recs == contents[k] {
        assert EntryRepr(k) !! EntryRepr(e) && EntryRepr(k) <= Repr;
      }
    }

    method FindDelete(e: nat, id: Id, delete: bool) returns (found: bool, offset: nat, ghost at: nat)
      requires Valid() && e < |entries|
      modifies Repr
      ensures Valid()
      ensures FindRec(old(contents)[e], id, |old(contents)[e]|) == if found then Some(at) else None
      ensures found ==> at < |old(contents)[e]| && offset == Offset(old(contents)[e], at)
      ensures contents == if delete then old(contents)[e := DeleteRec(old(contents)[e], id)] else old(contents)
    {
      hide MessageEntry.Valid, TotalSize, FindRec;
      assert EntryValid(e) && EntryRepr(e) <= Repr;
      ghost var rs := contents[e];
      found, offset, at := entries[e].FindDelete(id, delete);
      contents := contents[e := entries[e].recs];
      FindRecIs(rs, id, found, at);
      forall k | 0 <= k < |entries| && k != e ensures EntryValid(k) && entries[k].recs == contents[k] {
        assert EntryRepr(k) !! EntryRepr(e) && EntryRepr(k) <= Repr;
      }
    }

    method MarkSent(e: nat, offset: nat, bit: nat, ghost i: nat)
      requires Valid() && e < |entries| && i < |contents[e]| && offset == Offset(contents[e], i) && bit < MAX_TOKENS
      modifies Repr
      ensures Valid()
      ensures var rs := old(contents)[e];
              contents == old(contents)[e := rs[i := rs[i].(sent := rs[i].sent + {bit})]]
    {
      hide MessageEntry.Valid, TotalSize;
      assert EntryValid(e) && EntryRepr(e) <= Repr;
      entries[e].MarkSent(offset, bit, i);
      contents := contents[e := entries[e].recs];
      forall k | 0 <= k < |entries| && k != e ensures EntryValid(k) && entries[k].recs == contents[k] {
        assert EntryRepr(k) !! EntryRepr(e) && EntryRepr(k) <= Repr;
      }
    }

    /** Copy out the record at an offset. */
    method Record(e: nat, offset: nat, ghost i: nat) returns (h: Header, body: seq<Byte>)
      requires Valid() && e < |entries| && i < |contents[e]| && offset == Offset(contents[e], i)
      ensures h == HeaderOf(contents[e][i]) && body == contents[e][i].body
      ensures Offset(contents[e], i + 1) == offset + HEADER_SIZE + h.length
    {
      hide TotalSize;
      assert EntryValid(e);
      h := entries[e].ReadHeader(offset, i);
      body := entries[e].ReadBody(offset + HEADER_SIZE, h.length, i);
    }

    method Count(e: nat) returns (n: nat)
      requires Valid() && e < |entries|
      ensures n == |contents[e]|
    {
      assert EntryValid(e);
      n := entries[e].numMessages;
    }

    /** One entry's share of do_gc. */
    method GcEntry(e: nat, msize: nat, shift: nat, now: nat, bloom: BloomTable) returns (used: nat)
      requires Valid() && e < |entries| && bloom.Valid() && Repr !! bloom.Repr()
      modifies Repr, bloom.Repr()
      ensures Valid() && bloom.Valid()
      ensures contents == old(contents)[e := GcRecords(order, old(contents)[e], msize, shift, now)]
      ensures bloom.View() == GcBloom(old(bloom.View()), old(contents)[e], msize, now)
      ensures used == TotalSize(contents[e])
    {
      hide GcRecords, GcBloom, MessageEntry.Valid, TotalSize;
      assert EntryValid(e) && EntryRepr(e) <= Repr;
      used := entries[e].Gc(msize, shift, now, bloom);
      contents := contents[e := entries[e].recs];
      forall k | 0 <= k < |entries| && k != e ensures EntryValid(k) && entries[k].recs == contents[k] {
        assert EntryRepr(k) !! EntryRepr(e) && EntryRepr(k) <= Repr;
      }
    }
  }

  lemma {:induction false} FindRecIs(rs: seq<Rec>, id: Id, found: bool, at: nat)
    requires found <==> exists i | 0 <= i < |rs| :: rs[i].id == id
    requires found ==> at < |rs| && rs[at].id == id && forall i | 0 <= i < at :: rs[i].id != id
    ensures FindRec(rs, id, |rs|) == if found then Some(at) else None
  {
    if found {
      FindRecFirst(rs, id, at, |rs|);
    }
  }

  lemma {:induction false} FindRecFirst(rs: seq<Rec>, id: Id, at: nat, n: nat)
    requires at < n <= |rs| && rs[at].id == id && forall i | 0 <= i < at :: rs[i].id != id
    ensures FindRec(rs, id, n) == Some(at)
    decreases n
  {
    if at < n - 1 {
      FindRecFirst(rs, id, at, n - 1);
    }
  }

  /** ack_table */
  class AckTable {
    const order: ByteOrder
    const acks: array<Ack>

    ghost predicate Valid()
      reads acks
    {
      AckSlots(acks[..])
    }

    ghost function Repr(): set<object> {
      {this, acks}
    }

    constructor (order: ByteOrder, slots: nat)
      requires slots > 0
      ensures Valid() && fresh(Repr())
      ensures this.order == order && acks[..] == seq(ACKS_PER_SLOT * slots, _ => UNUSED)
    {
      this.order := order;
      acks := new Ack[ACKS_PER_SLOT * slots](_ => UNUSED);
      new;
      assert acks[..] == seq(ACKS_PER_SLOT * slots, _ => UNUSED);
    }

    /** find_one_ack: the index of the entry for this ID, or -1. */
    method FindOne(id: Id) returns (aindex: int)
      requires Valid()
      ensures aindex == match AckIndex(acks[..], id) case None => -1 case Some(i) => i
    {
      var home := AckHome(acks[..], id);
      var base := home - home % ACKS_PER_SLOT;
      for i := 0 to ACKS_PER_SLOT
        invariant FindAck(acks[..], base, id, i).None?
      {
        if acks[base + i].used && acks[base + i].id == id {
          FindAckFirst(acks[..], base, id, i, ACKS_PER_SLOT);
          return base + i;
        }
      }
      return -1;
    }

    /** find_free_ack_in_slot */
    method FindFreeInSlot(aindex: nat) returns (found: int)
      requires Valid() && SlotBase(aindex) + ACKS_PER_SLOT <= acks.Length
      ensures found == match FindFree(acks[..], SlotBase(aindex), ACKS_PER_SLOT) case None => -1 case Some(i) => i
    {
      var base := aindex - aindex % ACKS_PER_SLOT;
      for i := 0 to ACKS_PER_SLOT
        invariant FindFree(acks[..], base, i).None?
      {
        if !acks[base + i].used {
          FindFreeFirst(acks[..], base, i, ACKS_PER_SLOT);
          return base + i;
        }
      }
      return -1;
    }

    /** The first loop of gc_ack_slot. */
    method CountUsed(base: nat) returns (count: nat)
      requires Valid() && base + ACKS_PER_SLOT <= acks.Length
      ensures count == UsedCount(acks[..], base, ACKS_PER_SLOT)
    {
      count := 0;
      for i := 0 to ACKS_PER_SLOT
        invariant count == UsedCount(acks[..], base, i)
      {
        if acks[base + i].used {
          count := count + 1;
        }
      }
    }

    /** The random deletions of gc_ack_slot.  The program draws indices of the slot until it has hit
        enough used entries; a draw that misses changes nothing, so only the hits are chosen here. */
    method DropRandom(base: nat, bloom: BloomTable) returns (ghost picks: seq<nat>)
      requires Valid() && bloom.Valid() && Repr() !! bloom.Repr() && base + ACKS_PER_SLOT <= acks.Length
      modifies acks, bloom.Repr()
      ensures Valid() && bloom.Valid()
      ensures ValidPicks(old(acks[..]), base, picks)
      ensures DropAcks(old(acks[..]), old(bloom.View()), picks) == (acks[..], bloom.View())
    {
      hide Note, UsedCount;
      ghost var acks0, b0 := acks[..], bloom.View();
      picks := [];
      var usedCount := CountUsed(base);
      DropsSoFarNone(acks0, b0, base);
      while usedCount > ACKS_PER_SLOT / 2
        invariant Valid() && bloom.Valid() && acks.Length == |acks0|
        invariant usedCount == UsedCount(acks[..], base, ACKS_PER_SLOT)
        invariant DropsSoFar(acks0, b0, base, picks, acks[..], bloom.View())
      {
        SomeUsed(acks[..], base, ACKS_PER_SLOT);
        var sel: nat :| base <= sel < base + ACKS_PER_SLOT && acks[sel].used;
        ghost var before, b := acks[..], bloom.View();
        bloom.NoteId(acks[sel].ack, ACK_FILTER);
        bloom.NoteId(acks[sel].id, MESSAGE_FILTER);
        acks[sel] := acks[sel].(used := false);
        assert acks[..] == DropAck(before, sel);
        DropsSoFarNext(acks0, b0, base, picks, before, b, sel);
        UsedCountDrop(before, base, sel, ACKS_PER_SLOT);
        picks := picks + [sel];
        usedCount := usedCount - 1;
      }
      DropsDone(acks0, b0, base, picks, acks[..], bloom.View());
    }

    /** gc_ack_slot */
    method GcSlot(base: nat, shift: nat, bloom: BloomTable) returns (ghost picks: seq<nat>)
      requires Valid() && bloom.Valid() && Repr() !! bloom.Repr() && base + ACKS_PER_SLOT <= acks.Length
      modifies acks, bloom.Repr()
      ensures Valid() && bloom.Valid()
      ensures ValidPicks(old(acks[..]), base, picks)
      ensures PcacheModel.GcSlot(order, old(acks[..]), old(bloom.View()), base, picks, shift)
              == (acks[..], bloom.View())
    {
      hide DropAcks, ShiftToken, ValidPicks;
      picks := DropRandom(base, bloom);
      ghost var d := acks[..];
      if shift > 0 {
        for i := 0 to ACKS_PER_SLOT
          invariant |d| == acks.Length
          modifies acks
          invariant forall k | 0 <= k < |d| ::
                      acks[k] == if base <= k < base + i then d[k].(sent := ShiftToken(order, d[k].sent, shift)) else d[k]
        {
          acks[base + i] := acks[base + i].(sent := ShiftToken(order, acks[base + i].sent, shift));
        }
      }
      assert acks[..] == ShiftSlot(order, d, base, shift);
    }
  }

  lemma {:induction false} FindAckFirst(acks: seq<Ack>, base: nat, id: Id, i: nat, n: nat)
    requires i < n && base + n <= |acks| && FindAck(acks, base, id, i).None?
    requires acks[base + i].used && acks[base + i].id == id
    ensures FindAck(acks, base, id, n) == Some(base + i)
    decreases n
  {
    if i < n - 1 {
      FindAckFirst(acks, base, id, i, n - 1);
    }
  }

  lemma {:induction false} FindFreeFirst(acks: seq<Ack>, base: nat, i: nat, n: nat)
    requires i < n && base + n <= |acks| && FindFree(acks, base, i).None? && !acks[base + i].used
    ensures FindFree(acks, base, n) == Some(base + i)
    decreases n
  {
    if i < n - 1 {
      FindFreeFirst(acks, base, i, n - 1);
    }
  }

  lemma {:induction false} SomeUsed(acks: seq<Ack>, base: nat, n: nat)
    requires base + n <= |acks| && UsedCount(acks, base, n) > 0
    ensures exists i: nat :: base <= i < base + n && acks[i].used
    decreases n
  {
    if acks[base + n - 1].used {
    } else {
      SomeUsed(acks, base, n - 1);
    }
  }

  /** Whatever picks still follow, they complete the ones made so far. */
  ghost predicate DropsSoFar(acks0: seq<Ack>, b0: Bloom, base: nat, picks: seq<nat>, acks: seq<Ack>, b: Bloom)
    requires base + ACKS_PER_SLOT <= |acks0| == |acks|
  {
    forall rest: seq<nat> | ValidPicks(acks, base, rest) :: Completes(acks0, b0, base, picks, acks, b, rest)
  }

  ghost predicate Completes(acks0: seq<Ack>, b0: Bloom, base: nat, picks: seq<nat>, acks: seq<Ack>, b: Bloom, rest: seq<nat>)
    requires base + ACKS_PER_SLOT <= |acks0|
  {
    ValidPicks(acks0, base, picks + rest) && DropAcks(acks0, b0, picks + rest) == DropAcks(acks, b, rest)
  }

  lemma {:induction false} DropsSoFarNone(acks: seq<Ack>, b: Bloom, base: nat)
    requires base + ACKS_PER_SLOT <= |acks|
    ensures DropsSoFar(acks, b, base, [], acks, b)
  {
    hide DropAcks, ValidPicks;
    forall rest: seq<nat> | ValidPicks(acks, base, rest) ensures Completes(acks, b, base, [], acks, b, rest) {
      assert [] + rest == rest;
    }
  }

  lemma {:induction false} DropsSoFarNext(acks0: seq<Ack>, b0: Bloom, base: nat, picks: seq<nat>, acks: seq<Ack>, b: Bloom, sel: nat)
    requires base + ACKS_PER_SLOT <= |acks0| == |acks| && DropsSoFar(acks0, b0, base, picks, acks, b)
    requires UsedCount(acks, base, ACKS_PER_SLOT) > ACKS_PER_SLOT / 2
    requires base <= sel < base + ACKS_PER_SLOT && acks[sel].used
    ensures DropsSoFar(acks0, b0, base, picks + [sel], DropAck(acks, sel), NoteAck(b, acks[sel]))
  {
    hide UsedCount, NoteAck;
    var acks', b' := DropAck(acks, sel), NoteAck(b, acks[sel]);
    forall rest: seq<nat> | ValidPicks(acks', base, rest)
      ensures Completes(acks0, b0, base, picks + [sel], acks', b', rest)
    {
      var more := [sel] + rest;
      assert more[1..] == rest;
      assert ValidPicks(acks, base, more);
      assert Completes(acks0, b0, base, picks, acks, b, more);
      assert picks + more == picks + [sel] + rest;
      assert DropAcks(acks, b, more) == DropAcks(acks', b', rest);
    }
  }

  lemma {:induction false} DropsDone(acks0: seq<Ack>, b0: Bloom, base: nat, picks: seq<nat>, acks: seq<Ack>, b: Bloom)
    requires base + ACKS_PER_SLOT <= |acks0| == |acks| && DropsSoFar(acks0, b0, base, picks, acks, b)
    requires UsedCount(acks, base, ACKS_PER_SLOT) <= ACKS_PER_SLOT / 2
    ensures ValidPicks(acks0, base, picks) && DropAcks(acks0, b0, picks) == (acks, b)
  {
    assert ValidPicks(acks, base, []);
    assert Completes(acks0, b0, base, picks, acks, b, []);
    assert picks + [] == picks;
  }

  /** token_list and num_external_tokens */
  class TokenTable {
    const list: array<Token>
    var count: nat

    ghost predicate Valid()
      reads this
    {
      list.Length == MAX_TOKENS && count <= MAX_TOKENS
    }

    ghost function Repr(): set<object> {
      {this, list}
    }

    ghost function Tokens(): (t: seq<Token>)
      requires Valid()
      reads this, list
    {
      list[..count]
    }

    constructor ()
      ensures Valid() && fresh(Repr()) && Tokens() == []
    {
      list := new Token[MAX_TOKENS](_ => NO_TOKEN);
      count := 0;
    }

    /** token_find_index */
    method FindIndex(token: Token) returns (index: int)
      requires Valid()
      ensures index == match FindToken(Tokens(), token, |Tokens()|) case None => -1 case Some(i) => i
      ensures -1 <= index < MAX_TOKENS
    {
      for i := 0 to count
        invariant FindToken(Tokens(), token, i).None?
      {
        if list[i] == token {
          FindTokenFirst(Tokens(), token, i, count);
          return i;
        }
      }
      return -1;
    }

    /** gc_tokens: a full table is moved to the front over its oldest quarter, and the rest cleared. */
    method Gc() returns (shift: nat)
      requires Valid()
      modifies this, list
      ensures Valid() && shift == TokenShift(|old(Tokens())|)
      ensures Tokens() == old(Tokens())[shift..]
    {
      if count < MAX_TOKENS {
        return 0;
      }
      var goal := 3 * MAX_TOKENS / 4;
      shift := count - goal;
      var length := count - shift;
      forall k | 0 <= k < length {
        list[k] := list[shift + k];
      }
      forall k | length <= k < MAX_TOKENS {
        list[k] := NO_TOKEN;
      }
      count := count - shift;
    }

    /** The end of token_to_send_to: a new token goes to the end. */
    method Add(token: Token) returns (index: nat)
      requires Valid() && count < MAX_TOKENS
      modifies this, list
      ensures Valid() && index == |old(Tokens())|
      ensures Tokens() == old(Tokens()) + [token]
    {
      list[count] := token;
      index := count;
      count := count + 1;
    }
  }

  lemma {:induction false} FindTokenFirst(tokens: seq<Token>, token: Token, i: nat, n: nat)
    requires i < n <= |tokens| && FindToken(tokens, token, i).None? && tokens[i] == token
    ensures FindToken(tokens, token, n) == Some(i)
    decreases n
  {
    if i < n - 1 {
      FindTokenFirst(tokens, token, i, n - 1);
    }
  }
}
