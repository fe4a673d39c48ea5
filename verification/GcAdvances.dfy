/**
 How often one gc advances the filters, bounded by what can be counted before it, and what the message
 filter holds after a gc that advances once: what exactly the gc then forgets.
 */
module GcAdvances {
  import opened Base
  import opened Bloom
  import opened BloomHistory
  import opened Forgetting
  import opened MessageGc
  import opened PcacheInvariants
  import opened PcacheModel
  import opened Records
  import opened Remembering
  import opened TokenBits

  /** The load that makes a filter advance. */
  const FULL_LOAD := MAX_FILTER_LOAD + 1

  function Load(b: Bloom): (n: nat) {
    b.load[0] + b.load[1] + b.load[2] + b.load[3]
  }

  /** The IDs went into the newest filter of the ring, and nothing else happened to it. */
  ghost predicate Gathered(r: Ring, r': Ring, ids: set<Id>) {
    && (forall n | 1 <= n < NUM_FILTERS :: r'[n] == r[n])
    && forall d | 0 <= d < FILTER_DEPTH :: r'[0][d] == r[0][d] + Row(ids, d)
  }

  /** At most `n` additions were made: they pay for every advance.  Without one, the message filter gathered
      these IDs. */
  ghost predicate Adds(b: Bloom, b': Bloom, ids: set<Id>, n: nat) {
    && b.epoch <= b'.epoch
    && Load(b') + FULL_LOAD * (b'.epoch - b.epoch) <= Load(b) + n
    && (b'.epoch == b.epoch ==> Gathered(b.rings[MESSAGE_FILTER], b'.rings[MESSAGE_FILTER], ids))
  }

  lemma {:induction false} NothingGathered(r: Ring)
    ensures Gathered(r, r, {})
  {
    forall d | 0 <= d < FILTER_DEPTH ensures Row({}, d) == {} {
    }
  }

  lemma {:induction false} NothingAdded(b: Bloom)
    ensures Adds(b, b, {}, 0)
  {
    hide Gathered;
    NothingGathered(b.rings[MESSAGE_FILTER]);
  }

  lemma {:induction false} RowOfBoth(a: set<Id>, b: set<Id>, d: nat)
    requires d < FILTER_DEPTH
    ensures Row(a + b, d) == Row(a, d) + Row(b, d)
  {
  }

  lemma {:induction false} GatheredTwice(r: Ring, r': Ring, r'': Ring, a: set<Id>, b: set<Id>)
    requires Gathered(r, r', a) && Gathered(r', r'', b)
    ensures Gathered(r, r'', a + b)
  {
    hide Row;
    forall d | 0 <= d < FILTER_DEPTH ensures r''[0][d] == r[0][d] + Row(a + b, d) {
      RowOfBoth(a, b, d);
    }
  }

  lemma {:induction false} AddsTwice(b: Bloom, b': Bloom, b'': Bloom, ids: set<Id>, n: nat, ids': set<Id>, n': nat)
    requires Adds(b, b', ids, n) && Adds(b', b'', ids', n')
    ensures Adds(b, b'', ids + ids', n + n')
  {
    hide Gathered, Load;
    if b''.epoch == b.epoch {
      GatheredTwice(b.rings[MESSAGE_FILTER], b'.rings[MESSAGE_FILTER], b''.rings[MESSAGE_FILTER], ids, ids');
    }
  }

  /** The set of IDs that an addition to a selector brings to the message filter. */
  function Brought(sel: Selector, id: Id): (ids: set<Id>) {
    if sel == MESSAGE_FILTER then {id} else {}
  }

  lemma {:induction false} PutGathers(b: Bloom, sel: Selector, id: Id)
    ensures Gathered(b.rings[MESSAGE_FILTER], Put(b, sel, Insert(b.rings[sel][0], id)).rings[MESSAGE_FILTER], Brought(sel, id))
  {
    forall d | 0 <= d < FILTER_DEPTH ensures Row({id}, d) == {Pos(id, d)} && Row({}, d) == {} {
    }
  }

  lemma {:induction false} AddNotes(b: Bloom, sel: Selector, id: Id)
    ensures Adds(b, Add(b, sel, id), Brought(sel, id), 1)
  {
    hide Gathered, Insert, Brought;
    PutGathers(b, sel, id);
    AddLoad(b, sel, id);
    AddCases(b, sel, id);
  }

  lemma {:induction false} AddLoad(b: Bloom, sel: Selector, id: Id)
    ensures var b' := Add(b, sel, id);
            b.epoch <= b'.epoch && Load(b') + FULL_LOAD * (b'.epoch - b.epoch) <= Load(b) + 1
  {
    hide Insert;
  }

  lemma {:induction false} NoteNotes(b: Bloom, sel: Selector, id: Id)
    ensures Adds(b, Note(b, sel, id), Brought(sel, id), 1)
  {
    hide Add, Gathered, Load;
    AddNotes(b, sel, id);
    if FirstIn(b.rings[sel], id, 0) == 0 {
      PresentGathers(b.rings[sel], id);
      NothingGathered(b.rings[MESSAGE_FILTER]);
    }
  }

  /** An ID that the newest filter holds adds nothing to it. */
  lemma {:induction false} PresentGathers(r: Ring, id: Id)
    requires InFilter(r[0], id)
    ensures Gathered(r, r, {id})
  {
    forall d | 0 <= d < FILTER_DEPTH ensures Row({id}, d) == {Pos(id, d)} {
    }
  }

  // ---------------------------------------------------------------------------
  // What a gc notes
  // ---------------------------------------------------------------------------

  /** How many entries of a slot a gc deletes. */
  function ExcessIn(acks: seq<Ack>, base: nat): (n: nat)
    requires base + ACKS_PER_SLOT <= |acks|
  {
    var used := UsedCount(acks, base, ACKS_PER_SLOT);
    if used > ACKS_PER_SLOT / 2 then used - ACKS_PER_SLOT / 2 else 0
  }

  function Excess(acks: seq<Ack>, n: nat): (count: nat)
    requires ACKS_PER_SLOT * n <= |acks|
  {
    if n == 0 then 0 else Excess(acks, n - 1) + ExcessIn(acks, ACKS_PER_SLOT * (n - 1))
  }

  lemma {:induction false} PicksAreExcess(acks: seq<Ack>, base: nat, picks: seq<nat>)
    requires base + ACKS_PER_SLOT <= |acks| && ValidPicks(acks, base, picks)
    ensures |picks| == ExcessIn(acks, base)
    decreases |picks|
  {
    hide UsedCount;
    if picks != [] {
      UsedCountDrop(acks, base, picks[0], ACKS_PER_SLOT);
      PicksAreExcess(DropAck(acks, picks[0]), base, picks[1..]);
    }
  }

  /** The IDs of the acks that are picked. */
  function PickedIds(acks: seq<Ack>, picks: seq<nat>): (ids: set<Id>) {
    set k | 0 <= k < |picks| && picks[k] < |acks| :: acks[picks[k]].id
  }

  function AllPickedIds(acks: seq<Ack>, picks: seq<seq<nat>>, n: nat): (ids: set<Id>)
    requires n <= |picks|
  {
    if n == 0 then {} else AllPickedIds(acks, picks, n - 1) + PickedIds(acks, picks[n - 1])
  }

  lemma {:induction false} PickedFirst(acks: seq<Ack>, picks: seq<nat>)
    requires picks != [] && picks[0] < |acks|
    ensures PickedIds(acks, picks) == {acks[picks[0]].id} + PickedIds(DropAck(acks, picks[0]), picks[1..])
  {
    var acks1 := DropAck(acks, picks[0]);
    forall id | id in PickedIds(acks, picks) ensures id in {acks[picks[0]].id} + PickedIds(acks1, picks[1..]) {
      var k :| 0 <= k < |picks| && picks[k] < |acks| && acks[picks[k]].id == id;
      if k > 0 {
        assert picks[1..][k - 1] == picks[k] && acks1[picks[k]].id == id;
      }
    }
    forall id | id in PickedIds(acks1, picks[1..]) ensures id in PickedIds(acks, picks) {
      var k :| 0 <= k < |picks[1..]| && picks[1..][k] < |acks1| && acks1[picks[1..][k]].id == id;
      assert picks[k + 1] == picks[1..][k] && acks[picks[k + 1]].id == id;
    }
  }

  lemma {:induction false} NoteAckNotes(b: Bloom, a: Ack)
    ensures Adds(b, NoteAck(b, a), {a.id}, 2)
  {
    hide Note, Adds;
    var b1 := Note(b, ACK_FILTER, a.ack);
    NoteNotes(b, ACK_FILTER, a.ack);
    NoteNotes(b1, MESSAGE_FILTER, a.id);
    AddsTwice(b, b1, NoteAck(b, a), {}, 1, {a.id}, 1);
    assert {} + {a.id} == {a.id};
  }

  lemma {:induction false} DropAcksNotes(acks: seq<Ack>, b: Bloom, base: nat, picks: seq<nat>)
    requires base + ACKS_PER_SLOT <= |acks| && ValidPicks(acks, base, picks)
    ensures Adds(b, DropAcks(acks, b, picks).1, PickedIds(acks, picks), 2 * |picks|)
    ensures forall i | 0 <= i < |acks| :: DropAcks(acks, b, picks).0[i].id == acks[i].id
    decreases |picks|
  {
    hide NoteAck, Adds, UsedCount;
    if picks == [] {
      NothingAdded(b);
      assert PickedIds(acks, []) == {};
    } else {
      var acks1, b1 := DropAck(acks, picks[0]), NoteAck(b, acks[picks[0]]);
      NoteAckNotes(b, acks[picks[0]]);
      DropAcksNotes(acks1, b1, base, picks[1..]);
      PickedFirst(acks, picks);
      AddsTwice(b, b1, DropAcks(acks, b, picks).1, {acks[picks[0]].id}, 2, PickedIds(acks1, picks[1..]), 2 * |picks[1..]|);
    }
  }

  ghost predicate SameIds(acks: seq<Ack>, acks': seq<Ack>) {
    |acks'| == |acks| && forall i | 0 <= i < |acks| :: acks'[i].id == acks[i].id
  }

  lemma {:induction false} SlotsNote(order: ByteOrder, acks: seq<Ack>, b: Bloom, picks: seq<seq<nat>>, shift: nat, n: nat)
    requires n <= |picks| && ACKS_PER_SLOT * n <= |acks| && ValidChoices(order, acks, b, picks, shift, n)
    ensures var r := GcSlots(order, acks, b, picks, shift, n);
            Adds(b, r.1, AllPickedIds(acks, picks, n), 2 * Excess(acks, n)) && SameIds(acks, r.0)
    decreases n
  {
    hide ShiftToken, DropAcks, Adds, UsedCount, ValidPicks, PickedIds, HalfFree;
    if n == 0 {
      NothingAdded(b);
    } else {
      SlotsNote(order, acks, b, picks, shift, n - 1);
      GcSlotsFree(order, acks, b, picks, shift, n - 1);
      var r := GcSlots(order, acks, b, picks, shift, n - 1);
      var base := ACKS_PER_SLOT * (n - 1);
      DropAcksNotes(r.0, r.1, base, picks[n - 1]);
      PicksAreExcess(r.0, base, picks[n - 1]);
      UsedCountSame(acks, r.0, base, ACKS_PER_SLOT);
      SamePicked(acks, r.0, picks[n - 1]);
      AddsTwice(b, r.1, GcSlots(order, acks, b, picks, shift, n).1, AllPickedIds(acks, picks, n - 1), 2 * Excess(acks, n - 1),
                 PickedIds(acks, picks[n - 1]), 2 * |picks[n - 1]|);
    }
  }

  lemma {:induction false} SamePicked(acks: seq<Ack>, acks': seq<Ack>, picks: seq<nat>)
    requires SameIds(acks, acks')
    ensures PickedIds(acks, picks) == PickedIds(acks', picks)
  {
  }

  /** The IDs of the records dropped among the first `n`. */
  function DroppedIds(rs: seq<Rec>, keep: seq<bool>, n: nat): (ids: set<Id>)
    requires |keep| == |rs| && n <= |rs|
  {
    if n == 0 then {} else DroppedIds(rs, keep, n - 1) + if keep[n - 1] then {} else {rs[n - 1].id}
  }

  lemma {:induction false} NoteDroppedNotes(b: Bloom, rs: seq<Rec>, keep: seq<bool>, n: nat)
    requires |keep| == |rs| && n <= |rs|
    ensures Adds(b, NoteDropped(b, rs, keep, n), DroppedIds(rs, keep, n), n - KeptCount(keep, n))
    decreases n
  {
    hide Note, Adds;
    if n == 0 {
      NothingAdded(b);
    } else {
      NoteDroppedNotes(b, rs, keep, n - 1);
      var b1 := NoteDropped(b, rs, keep, n - 1);
      if keep[n - 1] {
        assert DroppedIds(rs, keep, n) == DroppedIds(rs, keep, n - 1);
      } else {
        NoteNotes(b1, MESSAGE_FILTER, rs[n - 1].id);
        AddsTwice(b, b1, NoteDropped(b, rs, keep, n), DroppedIds(rs, keep, n - 1), n - 1 - KeptCount(keep, n - 1), {rs[n - 1].id}, 1);
      }
    }
  }

  /** How many IDs the gc of an entry notes: those of the records that do not survive, unless the shortcut
      is taken. */
  function EntryDrops(rs: seq<Rec>, msize: nat, now: nat): (n: nat) {
    if ClearsEntry(msize) then 0 else |rs| - KeptCount(Kept(rs, msize, now), |rs|)
  }

  function EntryDroppedIds(rs: seq<Rec>, msize: nat, now: nat): (ids: set<Id>) {
    if ClearsEntry(msize) then {} else DroppedIds(rs, Kept(rs, msize, now), |rs|)
  }

  function Drops(entries: seq<seq<Rec>>, eindex: int, msize: nat, now: nat, n: nat): (count: nat)
    requires n <= |entries|
  {
    if n == 0 then 0
    else Drops(entries, eindex, msize, now, n - 1) + EntryDrops(entries[n - 1], RoomFor(eindex, msize, n - 1), now)
  }

  function AllDroppedIds(entries: seq<seq<Rec>>, eindex: int, msize: nat, now: nat, n: nat): (ids: set<Id>)
    requires n <= |entries|
  {
    if n == 0 then {}
    else AllDroppedIds(entries, eindex, msize, now, n - 1)
         + EntryDroppedIds(entries[n - 1], RoomFor(eindex, msize, n - 1), now)
  }

  lemma {:induction false} EntriesNote(b: Bloom, entries: seq<seq<Rec>>, eindex: int, msize: nat, now: nat, n: nat)
    requires n <= |entries|
    ensures Adds(b, GcEntriesBloom(b, entries, eindex, msize, now, n), AllDroppedIds(entries, eindex, msize, now, n),
                  Drops(entries, eindex, msize, now, n))
    decreases n
  {
    hide Adds, NoteDropped, Kept, ClearsEntry, KeptCount, DroppedIds;
    if n == 0 {
      NothingAdded(b);
    } else {
      EntriesNote(b, entries, eindex, msize, now, n - 1);
      var b1 := GcEntriesBloom(b, entries, eindex, msize, now, n - 1);
      var rs, room := entries[n - 1], RoomFor(eindex, msize, n - 1);
      if ClearsEntry(room) {
        NothingAdded(b1);
      } else {
        NoteDroppedNotes(b1, rs, Kept(rs, room, now), |rs|);
      }
      AddsTwice(b, b1, GcEntriesBloom(b, entries, eindex, msize, now, n), AllDroppedIds(entries, eindex, msize, now, n - 1),
                 Drops(entries, eindex, msize, now, n - 1), EntryDroppedIds(rs, room, now), EntryDrops(rs, room, now));
    }
  }

  // ---------------------------------------------------------------------------
  // A whole gc
  // ---------------------------------------------------------------------------

  /** The additions that a gc makes at most. */
  function Additions(s: Cache, eindex: int, msize: nat): (n: nat)
    requires Sized(s)
  {
    2 * Excess(s.acks, |s.acks| / ACKS_PER_SLOT) + Drops(s.entries, eindex, msize, s.now, |s.entries|)
  }

  /** The IDs that a gc puts into the message filter. */
  function NotedIds(s: Cache, eindex: int, msize: nat, picks: seq<seq<nat>>): (ids: set<Id>)
    requires Sized(s)
  {
    AllPickedIds(s.acks, picks, |picks|) + AllDroppedIds(s.entries, eindex, msize, s.now, |s.entries|)
  }

  /** Before the advance that ends a gc. */
  lemma {:induction false} GcNotes(cfg: Config, s: Cache, eindex: int, msize: nat, picks: seq<seq<nat>>) returns (b: Bloom)
    requires Sized(s) && GcChoices(cfg, s, picks)
    ensures Gc(cfg, s, eindex, msize, picks).bloom == Advance(b)
    ensures Adds(s.bloom, b, NotedIds(s, eindex, msize, picks), Additions(s, eindex, msize))
  {
    hide Adds, GcSlots, GcEntries, GcEntriesBloom, ValidChoices, AllPickedIds, AllDroppedIds, Excess, Drops, Advance;
    var shift := TokenShift(|s.tokens|);
    var r := GcSlots(cfg.order, s.acks, s.bloom, picks, shift, |picks|);
    b := GcEntriesBloom(r.1, s.entries, eindex, msize, s.now, |s.entries|);
    SlotsNote(cfg.order, s.acks, s.bloom, picks, shift, |picks|);
    EntriesNote(r.1, s.entries, eindex, msize, s.now, |s.entries|);
    AddsTwice(s.bloom, r.1, b, AllPickedIds(s.acks, picks, |picks|), 2 * Excess(s.acks, |picks|),
               AllDroppedIds(s.entries, eindex, msize, s.now, |s.entries|), Drops(s.entries, eindex, msize, s.now, |s.entries|));
  }

  /** A gc advances the filters once, and once more for each time that the load and its additions fill a
      filter. */
  lemma {:induction false} GcAdvancesAtMost(cfg: Config, s: Cache, eindex: int, msize: nat, picks: seq<seq<nat>>)
    requires Sized(s) && GcChoices(cfg, s, picks)
    ensures var n := Gc(cfg, s, eindex, msize, picks).bloom.epoch - s.bloom.epoch;
            1 <= n <= 1 + (Load(s.bloom) + Additions(s, eindex, msize)) / FULL_LOAD
  {
    hide Gc, Load, Additions, NotedIds, Gathered, ValidChoices, Advance;
    var b := GcNotes(cfg, s, eindex, msize, picks);
    AdvanceEpoch(b);
    TimesIn(b.epoch - s.bloom.epoch, Load(s.bloom) + Additions(s, eindex, msize));
  }

  lemma {:induction false} TimesIn(n: nat, total: nat)
    requires FULL_LOAD * n <= total
    ensures n <= total / FULL_LOAD
  {
  }

  /** The load and the additions do not fill a filter: the gc will advance once. */
  predicate Quiet(s: Cache, eindex: int, msize: nat)
    requires Sized(s)
  {
    Load(s.bloom) + Additions(s, eindex, msize) <= MAX_FILTER_LOAD
  }

  /** The message filter will report the ID after such a gc: it is in one of the newest fifteen filters, of
      which the newest has gathered the IDs noted. */
  ghost predicate Reported(b: Bloom, noted: set<Id>, id: Id) {
    || (exists n | 1 <= n < NUM_FILTERS - 1 :: InFilter(b.rings[MESSAGE_FILTER][n], id))
    || forall d | 0 <= d < FILTER_DEPTH :: Pos(id, d) in b.rings[MESSAGE_FILTER][0][d] + Row(noted, d)
  }

  lemma {:induction false} ReportedIff(b: Bloom, b1: Bloom, noted: set<Id>, id: Id)
    requires Gathered(b.rings[MESSAGE_FILTER], b1.rings[MESSAGE_FILTER], noted)
    ensures Contains(Advance(b1), MESSAGE_FILTER, id) <==> Reported(b, noted, id)
  {
    hide Row, Advance;
    AdvanceShifts(b1);
    var r, r1 := b.rings[MESSAGE_FILTER], b1.rings[MESSAGE_FILTER];
    assert InFilter(r1[0], id) <==> forall d | 0 <= d < FILTER_DEPTH :: Pos(id, d) in r[0][d] + Row(noted, d);
    assert !InFilter(EMPTY_FILTER, id) by { assert Pos(id, 0) !in EMPTY_FILTER[0]; }
    hide InFilter;
    if n :| 1 <= n < NUM_FILTERS - 1 && InFilter(r[n], id) {
      assert Advance(b1).rings[MESSAGE_FILTER][n + 1] == r[n];
    }
    assert Advance(b1).rings[MESSAGE_FILTER][1] == r1[0];
    if n :| 0 <= n < NUM_FILTERS && InFilter(Advance(b1).rings[MESSAGE_FILTER][n], id) {
      assert n > 0 && Advance(b1).rings[MESSAGE_FILTER][n] == r1[n - 1];
      assert n > 1 ==> InFilter(r[n - 1], id);
    }
  }

  lemma {:induction false} QuietAdvancesOnce(cfg: Config, s: Cache, eindex: int, msize: nat, picks: seq<seq<nat>>) returns (b: Bloom)
    requires Sized(s) && GcChoices(cfg, s, picks) && Quiet(s, eindex, msize)
    ensures Gc(cfg, s, eindex, msize, picks).bloom == Advance(b)
    ensures Gc(cfg, s, eindex, msize, picks).bloom.epoch == s.bloom.epoch + 1
    ensures Gathered(s.bloom.rings[MESSAGE_FILTER], b.rings[MESSAGE_FILTER], NotedIds(s, eindex, msize, picks))
  {
    hide Gc, Load, Additions, NotedIds, Gathered, ValidChoices, Advance;
    b := GcNotes(cfg, s, eindex, msize, picks);
    AdvanceEpoch(b);
  }

  /** What exactly such a gc forgets, false answers of the filter included: an ID that was in a table is found
      afterwards if and only if its entry is not dropped whole, or it is acked, or the filter reports it. */
  lemma {:induction false} QuietGcForgetsExactly(cfg: Config, s: Cache, eindex: int, msize: nat, picks: seq<seq<nat>>, id: Id)
    requires TablesOk(cfg, s) && GcChoices(cfg, s, picks) && InTables(s, id) && Quiet(s, eindex, msize)
    ensures Remembered(Gc(cfg, s, eindex, msize, picks), id) <==>
            || !ClearsBucket(s, eindex, msize, id) || InAcks(s, id)
            || Reported(s.bloom, NotedIds(s, eindex, msize, picks), id)
  {
    hide Gc, EntriesOk, AcksOk, ValidChoices, Advance, ClearsBucket, InMessages, InAcks, Contains, Reported, NotedIds, Quiet, Gathered;
    var s' := Gc(cfg, s, eindex, msize, picks);
    var b := QuietAdvancesOnce(cfg, s, eindex, msize, picks);
    GcOk(cfg, s, eindex, msize, picks);
    if !ClearsBucket(s, eindex, msize, id) || InAcks(s, id) {
      GcRecalls(cfg, s, eindex, msize, picks, id);
    } else {
      ClearedIsGone(cfg, s, eindex, msize, picks, id);
      ReportedIff(s.bloom, b, NotedIds(s, eindex, msize, picks), id);
    }
  }
}
