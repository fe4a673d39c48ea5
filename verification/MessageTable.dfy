/** One hash table entry of the message cache: records packed in a byte buffer, compacted in place. */
module MessageTable {
  import opened Base
  import opened Bloom
  import opened MessageGc
  import opened Packets
  import opened PidBloom
  import opened Records
  import opened TokenBits

  /** memcpy from outside the buffer */
  method CopyIn(a: array<Byte>, dst: nat, s: seq<Byte>)
    requires dst + |s| <= a.Length
    modifies a
    ensures a[..] == Overwrite(old(a[..]), dst, s)
  {
    forall k | 0 <= k < |s| {
      a[dst + k] := s[k];
    }
  }

  /** memmove within the buffer; the regions may overlap */
  method Move(a: array<Byte>, dst: nat, src: nat, n: nat)
    requires dst + n <= a.Length && src + n <= a.Length
    modifies a
    ensures a[..] == Overwrite(old(a[..]), dst, old(a[..])[src..src + n])
  {
    forall k | 0 <= k < n {
      a[dst + k] := a[src + k];
    }
  }

  /** The state of the buffer after the first `i` records were dealt with, starting from `buf`: the
      survivors are laid out at the front, and nothing from the i-th record on has been touched. */
  ghost predicate Compacted(order: ByteOrder, rs: seq<Rec>, keep: seq<bool>, shift: nat, i: nat,
                            buf: seq<Byte>, now: seq<Byte>, used: nat)
  {
    && |keep| == |rs| && i <= |rs| && AllStorable(rs)
    && |buf| == |now| && TotalSize(rs) <= |buf| && buf[..TotalSize(rs)] == Layout(order, rs)
    && AllStorable(Survivors(order, rs, keep, shift, i))
    && used == TotalSize(Survivors(order, rs, keep, shift, i)) <= Offset(rs, i) <= TotalSize(rs)
    && now[..used] == Layout(order, Survivors(order, rs, keep, shift, i))
    && now[Offset(rs, i)..] == buf[Offset(rs, i)..]
  }

  lemma {:induction false} CompactStart(order: ByteOrder, rs: seq<Rec>, keep: seq<bool>, shift: nat, buf: seq<Byte>)
    requires |keep| == |rs| && AllStorable(rs)
    requires TotalSize(rs) <= |buf| && buf[..TotalSize(rs)] == Layout(order, rs)
    ensures Compacted(order, rs, keep, shift, 0, buf, buf, 0)
  {
    OffsetEnds(rs);
    LayoutSize(order, []);
  }

  /** The header goes where earlier records were: it never reaches the message still to be moved. */
  lemma {:induction false} CompactRoom(order: ByteOrder, rs: seq<Rec>, keep: seq<bool>, shift: nat, i: nat,
                                       buf: seq<Byte>, now: seq<Byte>, used: nat)
    requires Compacted(order, rs, keep, shift, i, buf, now, used) && i < |rs|
    ensures AllStorable(rs) && |buf| == |now| && used + HEADER_SIZE <= Offset(rs, i) + HEADER_SIZE <= |buf|
    ensures used + rs[i].Size() <= Offset(rs, i) + rs[i].Size() == Offset(rs, i + 1) <= TotalSize(rs) <= |buf|
  {
    hide Layout, TotalSize, Survivors;
    LayoutAt(order, rs, i);
  }

  lemma {:induction false} CompactStep(order: ByteOrder, rs: seq<Rec>, keep: seq<bool>, shift: nat, i: nat,
                                       buf: seq<Byte>, before: seq<Byte>, used: nat, after: seq<Byte>)
    requires Compacted(order, rs, keep, shift, i, buf, before, used) && i < |rs| && keep[i]
    requires used + rs[i].Size() <= |buf| && Offset(rs, i) + rs[i].Size() <= |buf|
    requires var at := Offset(rs, i) + HEADER_SIZE;
             var b1 := Overwrite(before, used, StoreHeader(order, HeaderOf(Shifted(order, rs[i], shift))));
             after == Overwrite(b1, used + HEADER_SIZE, b1[at..at + |rs[i].body|])
    ensures Compacted(order, rs, keep, shift, i + 1, buf, after, used + rs[i].Size())
  {
    hide Layout, TotalSize, StoreHeader, ShiftToken, Overwrite, HeaderOf, Survivors;
    SurvivorsNext(order, rs, keep, shift, i);
    var off, at, n := Offset(rs, i), Offset(rs, i) + HEADER_SIZE, |rs[i].body|;
    var r := Shifted(order, rs[i], shift);
    var hdr := StoreHeader(order, HeaderOf(r));
    CompactRoom(order, rs, keep, shift, i, buf, before, used);
    RecordInBuffer(order, rs, i, buf);
    MovedIntact(before, buf, used, off, hdr, n, rs[i].body);
    LayoutSnoc(order, Survivors(order, rs, keep, shift, i), r);
    assert Chunk(order, r) == hdr + rs[i].body;
  }

  /** Overwriting up to the start of a message, then moving the message down, leaves it intact. */
  lemma {:induction false} MovedIntact(before: seq<Byte>, buf: seq<Byte>, used: nat, off: nat, hdr: seq<Byte>,
                                       n: nat, body: seq<Byte>)
    requires |before| == |buf| && used <= off && off + |hdr| + n <= |buf|
    requires before[off..] == buf[off..] && body == buf[off + |hdr|..off + |hdr| + n]
    ensures var b1 := Overwrite(before, used, hdr);
            var after := Overwrite(b1, used + |hdr|, b1[off + |hdr|..off + |hdr| + n]);
            && after[..used + |hdr| + n] == before[..used] + (hdr + body)
            && after[off + |hdr| + n..] == buf[off + |hdr| + n..]
  {
    var b1 := Overwrite(before, used, hdr);
    assert b1[used + |hdr|..] == before[used + |hdr|..];
    SameSlice(b1, before, used + |hdr|, off + |hdr|, off + |hdr| + n);
    SameSlice(before, buf, off, off + |hdr|, off + |hdr| + n);
    OverwriteTwice(before, used, hdr, body);
    var after := Overwrite(b1, used + |hdr|, body);
    SameSlice(after, before, used + |hdr| + n, off + |hdr| + n, |buf|);
    SameSlice(before, buf, off, off + |hdr| + n, |buf|);
  }

  lemma {:induction false} SameSlice(a: seq<Byte>, b: seq<Byte>, from: nat, lo: nat, hi: nat)
    requires from <= lo <= hi <= |a| == |b| && a[from..] == b[from..]
    ensures a[lo..hi] == b[lo..hi]
    ensures hi == |a| ==> a[lo..] == b[lo..]
  {
    forall k | lo <= k < hi ensures a[k] == b[k] {
      assert a[from..][k - from] == b[from..][k - from];
    }
    if hi == |a| {
      assert a[lo..] == a[lo..hi] && b[lo..] == b[lo..hi];
    }
  }

  lemma {:induction false} CompactEnd(order: ByteOrder, rs: seq<Rec>, keep: seq<bool>, shift: nat,
                                      buf: seq<Byte>, now: seq<Byte>, used: nat)
    requires Compacted(order, rs, keep, shift, |rs|, buf, now, used)
    ensures var out := Survivors(order, rs, keep, shift, |rs|);
            && AllStorable(out) && used == TotalSize(out) <= |now| && now[..used] == Layout(order, out)
  {
    hide Survivors, Layout, TotalSize;
  }

  lemma {:induction false} CompactSkip(order: ByteOrder, rs: seq<Rec>, keep: seq<bool>, shift: nat, i: nat,
                                       buf: seq<Byte>, now: seq<Byte>, used: nat)
    requires Compacted(order, rs, keep, shift, i, buf, now, used) && i < |rs| && !keep[i]
    ensures Compacted(order, rs, keep, shift, i + 1, buf, now, used)
  {
    hide Layout, TotalSize;
    LayoutAt(order, rs, i);
    var s := Survivors(order, rs, keep, shift, i);
    assert s + [] == s;
    var off := Offset(rs, i);
    var n := rs[i].Size();
    assert now[off + n..] == now[off..][n..] && buf[off + n..] == buf[off..][n..];
  }

  class MessageEntry {
    const order: ByteOrder
    const storage: array<Byte>
    var numMessages: nat
    /** The records in the buffer, in order. */
    ghost var recs: seq<Rec>

    ghost predicate Valid()
      reads this, storage
    {
      && storage.Length == STORAGE_SIZE
      && numMessages == |recs|
      && AllStorable(recs)
      && TotalSize(recs) <= STORAGE_SIZE
      && storage[..TotalSize(recs)] == Layout(order, recs)
    }

    constructor (order: ByteOrder)
      ensures Valid() && fresh(storage)
      ensures recs == [] && this.order == order
    {
      this.order := order;
      storage := new Byte[STORAGE_SIZE](_ => 0);
      numMessages := 0;
      recs := [];
      new;
      assert storage[..0] == [];
    }

    /** Copy out the header at the offset of the i-th record. */
    method ReadHeader(offset: nat, ghost i: nat) returns (h: Header)
      requires Valid() && i < |recs| && offset == Offset(recs, i)
      ensures h == HeaderOf(recs[i])
      ensures Offset(recs, i + 1) == offset + HEADER_SIZE + h.length <= TotalSize(recs)
    {
      hide Layout, TotalSize, LoadHeader;
      RecordInBuffer(order, recs, i, storage[..]);
      assert storage[..][..TotalSize(recs)] == storage[..TotalSize(recs)];
      assert storage[..][offset..offset + HEADER_SIZE] == storage[offset..offset + HEADER_SIZE];
      h := LoadHeader(order, storage[offset..offset + HEADER_SIZE]);
    }

    /** The bytes of the message of the i-th record. */
    method ReadBody(at: nat, length: nat, ghost i: nat) returns (body: seq<Byte>)
      requires Valid() && i < |recs| && at == Offset(recs, i) + HEADER_SIZE && length == |recs[i].body|
      ensures body == recs[i].body
    {
      hide Layout, TotalSize;
      RecordInBuffer(order, recs, i, storage[..]);
      assert storage[..][..TotalSize(recs)] == storage[..TotalSize(recs)];
      assert storage[..][at..at + length] == storage[at..at + length];
      body := storage[at..at + length];
    }

    /** The offset just past the last record. */
    method UsedBytes() returns (offset: nat)
      requires Valid()
      ensures offset == TotalSize(recs)
    {
      hide Layout, TotalSize;
      OffsetEnds(recs);
      offset := 0;
      for i := 0 to numMessages
        invariant offset == Offset(recs, i)
      {
        var h := ReadHeader(offset, i);
        offset := offset + HEADER_SIZE + h.length;
      }
    }

    /** The end of pcache_save_packet: add a record at the given free offset. */
    method Append(offset: nat, id: Id, priority: U32, message: seq<Byte>)
      requires Valid() && offset == TotalSize(recs)
      requires |message| <= ALLNET_MTU && offset + HEADER_SIZE + |message| <= STORAGE_SIZE
      modifies this, storage
      ensures Valid()
      ensures recs == old(recs) + [Rec(id, priority, {}, message)]
    {
      hide StoreHeader, Layout;
      ghost var r := Rec(id, priority, {}, message);
      ghost var buf := storage[..];
      var h := Header(id, |message|, priority, {});
      CopyIn(storage, offset, StoreHeader(order, h));
      CopyIn(storage, offset + HEADER_SIZE, message);
      OverwriteTwice(buf, offset, StoreHeader(order, h), message);
      LayoutSnoc(order, recs, r);
      assert Chunk(order, r) == StoreHeader(order, h) + message;
      numMessages := numMessages + 1;
      recs := recs + [r];
    }

    /** Copy out the headers and the positions of the messages, as the gc's temporary array does. */
    method Scan() returns (hs: seq<Header>, at: seq<nat>)
      requires Valid()
      ensures Scanned(recs, hs, at, |recs|)
    {
      hide Layout, TotalSize;
      OffsetEnds(recs);
      hs, at := [], [];
      var offset := 0;
      for i := 0 to numMessages
        invariant Scanned(recs, hs, at, i) && offset == Offset(recs, i)
      {
        var h := ReadHeader(offset, i);
        offset := offset + HEADER_SIZE;
        hs, at := hs + [h], at + [offset];
        offset := offset + h.length;
      }
    }

    /** Mark the expired messages for deletion, and subtract them from the size and the count. */
    method MarkExpired(hs: seq<Header>, at: seq<nat>, now: nat)
      returns (keep: seq<bool>, totalSize: nat, count: nat)
      requires Valid() && Scanned(recs, hs, at, |recs|)
      ensures keep == Unexpired(recs, now)
      ensures totalSize == KeptSize(recs, keep, |recs|) && count == KeptCount(keep, |recs|)
    {
      hide Layout, TotalSize, Expired;
      OffsetEnds(recs);
      keep := seq(numMessages, _ => true);
      totalSize := UsedBytes();
      count := numMessages;
      KeptSizeAll(recs, keep, |recs|);
      for i := 0 to numMessages
        invariant |keep| == |recs|
        invariant forall k | 0 <= k < |recs| :: keep[k] == (k < i ==> !Expired(recs[k].body, now))
        invariant totalSize == KeptSize(recs, keep, |recs|) && count == KeptCount(keep, |recs|)
      {
        var expired := IsExpired(at[i], hs[i].length, now, i);
        if expired {
          KeptSizeDrop(recs, keep, i, |recs|);
          KeptCountDrop(keep, i, |recs|);
          keep := keep[i := false];
          totalSize := totalSize - (hs[i].length + HEADER_SIZE);
          count := count - 1;
        }
      }
    }

    /** is_expired_message, given where a message is in the buffer. */
    method IsExpired(at: nat, length: nat, now: nat, ghost i: nat) returns (expired: bool)
      requires Valid() && i < |recs| && at == Offset(recs, i) + HEADER_SIZE && length == |recs[i].body|
      ensures expired == Expired(recs[i].body, now)
    {
      hide Layout, TotalSize, Expired;
      var body := ReadBody(at, length, i);
      expired := Expired(body, now);
    }

    /** The index of the kept message of lowest priority, the first of equals, or -1. */
    static method FindLowest(ghost rs: seq<Rec>, hs: seq<Header>, keep: seq<bool>) returns (lowest: int)
      requires |hs| == |keep| == |rs|
      requires forall i | 0 <= i < |rs| :: hs[i].priority == rs[i].priority
      ensures lowest == match Lowest(rs, keep, |rs|) case None => -1 case Some(l) => l
    {
      lowest := -1;
      for i := 0 to |hs|
        invariant -1 <= lowest < i
        invariant lowest == match Lowest(rs, keep, i) case None => -1 case Some(l) => l
      {
        if keep[i] && (lowest < 0 || hs[i].priority < hs[lowest].priority) {
          lowest := i;
        }
      }
    }

    /** Delete messages of lowest priority until the rest fits the limit. */
    static method EvictForSpace(ghost rs: seq<Rec>, hs: seq<Header>, ghost at: seq<nat>,
                                keep0: seq<bool>, size0: nat, count0: nat, limit: nat)
      returns (keep: seq<bool>, totalSize: nat, count: nat)
      requires |keep0| == |rs| && AllStorable(rs) && Scanned(rs, hs, at, |rs|)
      requires size0 == KeptSize(rs, keep0, |rs|) && count0 == KeptCount(keep0, |rs|)
      ensures keep == Evict(rs, keep0, limit)
      ensures totalSize == KeptSize(rs, keep, |rs|) <= limit && count == KeptCount(keep, |rs|)
    {
      hide Scanned, KeptSize, KeptCount;
      ScannedHeaders(rs, hs, at);
      keep, totalSize, count := keep0, size0, count0;
      while totalSize > limit
        invariant |keep| == |rs| && Evict(rs, keep, limit) == Evict(rs, keep0, limit)
        invariant totalSize == KeptSize(rs, keep, |rs|) && count == KeptCount(keep, |rs|)
        decreases count
      {
        var lowest := FindLowest(rs, hs, keep);
        LowestIsFirst(rs, keep, |rs|);
        if lowest < 0 {
          KeptSizeNone(rs, keep, |rs|);   // nothing is kept, so nothing exceeds the limit
        }
        KeptSizeDrop(rs, keep, lowest, |rs|);
        KeptCountDrop(keep, lowest, |rs|);
        keep := keep[lowest := false];
        totalSize := totalSize - (hs[lowest].length + HEADER_SIZE);
        count := count - 1;
      }
    }

    /** Move one kept record down: first its header, updated, then the message. */
    method KeepOne(h: Header, at: nat, ghost keep: seq<bool>, shift: nat, ghost i: nat, ghost buf: seq<Byte>, used: nat)
      requires Compacted(order, recs, keep, shift, i, buf, storage[..], used) && i < |recs| && keep[i]
      requires h == HeaderOf(recs[i]) && at == Offset(recs, i) + HEADER_SIZE
      modifies storage
      ensures Compacted(order, recs, keep, shift, i + 1, buf, storage[..], used + HEADER_SIZE + h.length)
    {
      hide Compacted, Overwrite, ShiftToken, StoreHeader;
      ghost var before := storage[..];
      CompactRoom(order, recs, keep, shift, i, buf, before, used);
      var h' := h.(sent := ShiftToken(order, h.sent, shift));
      assert h' == HeaderOf(Shifted(order, recs[i], shift));
      CopyIn(storage, used, StoreHeader(order, h'));
      ghost var b1 := storage[..];
      Move(storage, used + HEADER_SIZE, at, h.length);
      assert storage[..] == Overwrite(b1, used + HEADER_SIZE, b1[at..at + |recs[i].body|]);
      CompactStep(order, recs, keep, shift, i, buf, before, used, storage[..]);
    }

    /** Copy the kept records down over the dropped ones, and note the dropped IDs. */
    method Compact(hs: seq<Header>, at: seq<nat>, keep: seq<bool>, shift: nat, bloom: BloomTable)
      returns (used: nat)
      requires Valid() && bloom.Valid() && {this, storage} !! bloom.Repr()
      requires Scanned(recs, hs, at, |recs|) && |keep| == |recs|
      modifies this, storage, bloom.Repr()
      ensures Valid() && bloom.Valid()
      ensures recs == Survivors(order, old(recs), keep, shift, |old(recs)|)
      ensures bloom.View() == NoteDropped(old(bloom.View()), old(recs), keep, |old(recs)|)
      ensures used == TotalSize(recs)
    {
      hide Layout, TotalSize, ShiftToken, StoreHeader, Note, Compacted;
      ghost var buf := storage[..];
      assert buf[..TotalSize(recs)] == storage[..TotalSize(recs)];
      CompactStart(order, recs, keep, shift, buf);
      used := 0;
      var checkNum := 0;
      for i := 0 to numMessages
        invariant bloom.Valid() && numMessages == |recs| && recs == old(recs)
        invariant bloom.View() == NoteDropped(old(bloom.View()), recs, keep, i)
        invariant Compacted(order, recs, keep, shift, i, buf, storage[..], used)
        invariant checkNum == |Survivors(order, recs, keep, shift, i)|
      {
        if keep[i] {
          KeepOne(hs[i], at[i], keep, shift, i, buf, used);
          checkNum := checkNum + 1;
          used := used + HEADER_SIZE + hs[i].length;
        } else {
          CompactSkip(order, recs, keep, shift, i, buf, storage[..], used);
          bloom.NoteId(hs[i].id, MESSAGE_FILTER);
        }
      }
      CompactEnd(order, recs, keep, shift, buf, storage[..], used);
      assert storage[..][..used] == storage[..used];
      numMessages := checkNum;
      recs := Survivors(order, recs, keep, shift, |recs|);
    }

    /** gc_messages_entry */
    method Gc(msize: nat, shift: nat, now: nat, bloom: BloomTable) returns (used: nat)
      requires Valid() && bloom.Valid() && {this, storage} !! bloom.Repr()
      modifies this, storage, bloom.Repr()
      ensures Valid() && bloom.Valid()
      ensures recs == GcRecords(order, old(recs), msize, shift, now)
      ensures bloom.View() == GcBloom(old(bloom.View()), old(recs), msize, now)
      ensures used == TotalSize(recs)
    {
      hide Layout, TotalSize, ShiftToken, Evict, Unexpired, Survivors, NoteDropped, KeptSize, KeptCount, Scanned;
      OffsetEnds(recs);
      if numMessages <= 0 {
        GcOfEmpty(order, bloom.View(), msize, shift, now);
        assert recs == [];
        return 0;
      }
      var wantedSpace := HALF_STORAGE + msize + HEADER_SIZE;
      if wantedSpace >= STORAGE_SIZE {
        numMessages := 0;
        recs := [];
        OffsetEnds(recs);
        LayoutSize(order, []);
        assert storage[..0] == [];
        return 0;
      }
      var hs, at := Scan();
      var keep, totalSize, count := MarkExpired(hs, at, now);
      keep, totalSize, count := EvictForSpace(recs, hs, at, keep, totalSize, count, STORAGE_SIZE - wantedSpace);
      SurvivorsFit(order, recs, keep, shift, |recs|);
      used := Compact(hs, at, keep, shift, bloom);
      assert used == totalSize && numMessages == count;
    }

    /** pcache_id_found_delete: find the record with an ID, and delete it when asked to. */
    method FindDelete(id: Id, delete: bool) returns (found: bool, offset: nat, ghost at: nat)
      requires Valid()
      modifies this, storage
      ensures Valid()
      ensures found <==> exists i | 0 <= i < |old(recs)| :: old(recs)[i].id == id
      ensures found ==> at < |old(recs)| && old(recs)[at].id == id && offset == Offset(old(recs), at)
      ensures found ==> forall i | 0 <= i < at :: old(recs)[i].id != id
      ensures recs == if found && delete then old(recs)[..at] + old(recs)[at + 1..] else old(recs)
    {
      hide Layout, TotalSize;
      OffsetEnds(recs);
      offset, at := 0, 0;
      for i := 0 to numMessages
        invariant Valid() && recs == old(recs) && numMessages == |recs|
        invariant offset == Offset(recs, i)
        invariant forall k | 0 <= k < i :: recs[k].id != id
      {
        var h := ReadHeader(offset, i);
        if h.id == id {
          at := i;
          if delete {
            DeleteAt(offset, h, i);
          }
          return true, offset, i;
        }
        offset := offset + HEADER_SIZE + h.length;
      }
      return false, offset, at;
    }

    /** delete_message_entry: move everything behind the record, to the end of the buffer, over it. */
    method DeleteAt(offset: nat, h: Header, ghost i: nat)
      requires Valid() && i < |recs| && offset == Offset(recs, i) && h == HeaderOf(recs[i])
      modifies this, storage
      ensures Valid() && recs == old(recs)[..i] + old(recs)[i + 1..]
    {
      hide Layout, TotalSize, Overwrite;
      ghost var buf := storage[..];
      assert buf[..TotalSize(recs)] == storage[..TotalSize(recs)];
      LayoutWithout(order, recs, i, buf);
      var length := HEADER_SIZE + h.length;
      var remaining := STORAGE_SIZE - (offset + length);
      assert buf[offset + length..] == buf[offset + length..offset + length + remaining];
      Move(storage, offset, offset + length, remaining);
      numMessages := numMessages - 1;
      recs := recs[..i] + recs[i + 1..];
      assert storage[..][..TotalSize(recs)] == storage[..TotalSize(recs)];
    }

    /** The end of pcache_mark_token_sent: set one bit of a record's bitmap, in the buffer. */
    method MarkSent(offset: nat, bit: nat, ghost i: nat)
      requires Valid() && i < |recs| && offset == Offset(recs, i) && bit < MAX_TOKENS
      modifies this, storage
      ensures Valid() && recs == old(recs)[i := old(recs)[i].(sent := old(recs)[i].sent + {bit})]
    {
      hide Layout, TotalSize, Overwrite, StoreHeader;
      ghost var buf := storage[..];
      assert buf[..TotalSize(recs)] == storage[..TotalSize(recs)];
      var h := ReadHeader(offset, i);
      var h' := h.(sent := h.sent + {bit});
      LayoutWithHeader(order, recs, i, h'.sent, buf);
      CopyIn(storage, offset, StoreHeader(order, h'));
      recs := recs[i := recs[i].(sent := h'.sent)];
      assert storage[..][..TotalSize(recs)] == storage[..TotalSize(recs)];
    }
  }

  lemma {:induction false} ScannedHeaders(rs: seq<Rec>, hs: seq<Header>, at: seq<nat>)
    requires AllStorable(rs) && Scanned(rs, hs, at, |rs|)
    ensures |hs| == |rs|
    ensures forall i | 0 <= i < |rs| :: hs[i].priority == rs[i].priority && hs[i].length == |rs[i].body|
  {
    hide TotalSize;
  }

  /** The temporary array of the gc: copied headers, and where the messages start. */
  ghost predicate Scanned(rs: seq<Rec>, hs: seq<Header>, at: seq<nat>, n: nat)
    requires n <= |rs| && AllStorable(rs)
  {
    && |hs| == |at| == n
    && forall i | 0 <= i < n :: hs[i] == HeaderOf(rs[i]) && at[i] == Offset(rs, i) + HEADER_SIZE
  }
}
