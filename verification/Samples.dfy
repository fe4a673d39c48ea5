/** Reachable states of a cache with one entry, which show where a property fails. */
module Samples {
  import opened Base
  import opened Bloom
  import opened MessageGc
  import opened Packets
  import opened PcacheInvariants
  import opened PcacheModel
  import opened Records
  import opened TokenBits

  const FIRST_ID: Id := [0, 0, 0, 0, 0, 0, 0, 0, 0, 0, 0, 0, 0, 0, 0, 0]
  const SECOND_ID: Id := [0, 0, 0, 0, 0, 0, 0, 0, 0, 0, 0, 0, 0, 0, 0, 1]

  /** One entry, one slot of acks without any, and nothing in the filters. */
  predicate Young(s: Cache) {
    |s.entries| == 1 && s.acks == seq(ACKS_PER_SLOT, _ => UNUSED) && s.bloom == EMPTY && |s.tokens| < MAX_TOKENS
  }

  lemma {:induction false} YoungEmpty()
    ensures Young(EmptyCache(1, 1)) && EmptyCache(1, 1).entries == [[]]
  {
    assert EmptyCache(1, 1).entries == [[]];
  }

  /** With no ack in use no pick can be made. */
  lemma {:induction false} NoneUsed(acks: seq<Ack>, base: nat, n: nat)
    requires base + n <= |acks| && forall i | 0 <= i < |acks| :: !acks[i].used
    ensures UsedCount(acks, base, n) == 0
    decreases n
  {
    if n > 0 {
      NoneUsed(acks, base, n - 1);
    }
  }

  lemma {:induction false} NoPicks(cfg: Config, s: Cache)
    requires |s.entries| > 0 && s.acks == seq(ACKS_PER_SLOT, _ => UNUSED)
    ensures Sized(s) && |s.acks| / ACKS_PER_SLOT == 1 && GcChoices(cfg, s, [[]])
    ensures GcSlots(cfg.order, s.acks, EMPTY, [[]], 0, 1) == (s.acks, EMPTY)
  {
    hide UsedCount;
    NoneUsed(s.acks, 0, ACKS_PER_SLOT);
    assert GcSlots(cfg.order, s.acks, s.bloom, [[]], TokenShift(|s.tokens|), 0) == (s.acks, s.bloom);
    assert ValidPicks(s.acks, 0, []);
    assert ValidChoices(cfg.order, s.acks, s.bloom, [[]], TokenShift(|s.tokens|), 0);
  }

  lemma {:induction false} EmptyHasNone(sel: Selector, id: Id)
    ensures !Contains(EMPTY, sel, id) && AfterLookup(EMPTY, sel, id) == EMPTY
  {
    assert forall n | 0 <= n < NUM_FILTERS :: EMPTY.rings[sel][n] == EMPTY_FILTER;
    assert forall d | 0 <= d < FILTER_DEPTH :: EMPTY_FILTER[d] == {};
    assert forall n | 0 <= n < NUM_FILTERS :: !InFilter(EMPTY.rings[sel][n], id) by {
      forall n | 0 <= n < NUM_FILTERS ensures !InFilter(EMPTY.rings[sel][n], id) {
        assert Pos(id, 0) !in EMPTY.rings[sel][n][0];
      }
    }
    LookupAnswers(EMPTY, sel, id);
  }

  /** The record of a saved request for an ack. */
  function Sample(id: Id, size: nat, priority: U32): (r: Rec)
    requires size >= LEAST_ACK_REQUEST
  {
    Rec(id, priority, {}, AckRequest(id, size))
  }

  function SaveSample(id: Id, size: nat, priority: U32): (ev: Event)
    requires size >= LEAST_ACK_REQUEST
  {
    SaveEvent(AckRequest(id, size), priority, [[]])
  }

  /** Saving a new message for which there is room. */
  lemma {:induction false} SaveFits(cfg: Config, s: Cache, m: seq<Byte>, id: Id, priority: U32)
    requires Young(s) && MessageId(cfg.sha, m) == Some(id)
    requires FindRec(s.entries[0], id, |s.entries[0]|).None?
    requires TotalSize(s.entries[0]) + HEADER_SIZE + |m| <= STORAGE_SIZE
    ensures var s' := s.(entries := [s.entries[0] + [Rec(id, priority, {}, m)]], zero := {}, asked := map[]);
            IsStep(cfg, s, SaveEvent(m, priority, [[]]), s') && Young(s')
  {
    hide FindRec, TotalSize, GcChoices, AfterLookup, Contains, MessageId, Gc, ReadB64;
    NoPicks(cfg, s);
    EmptyHasNone(MESSAGE_FILTER, id);
    assert Bucket(s, id) == 0;
    assert s.entries[0 := s.entries[0] + [Rec(id, priority, {}, m)]] == [s.entries[0] + [Rec(id, priority, {}, m)]];
  }

  /** Saving a new message for which the whole entry is dropped. */
  lemma {:induction false} SaveClears(cfg: Config, s: Cache, id: Id, size: nat, priority: U32)
    requires Young(s) && LEAST_ACK_REQUEST <= size <= ALLNET_MTU && ClearsEntry(size)
    requires FindRec(s.entries[0], id, |s.entries[0]|).None?
    requires TotalSize(s.entries[0]) + HEADER_SIZE + size > STORAGE_SIZE
    ensures IsStep(cfg, s, SaveSample(id, size, priority),
                   s.(entries := [[Sample(id, size, priority)]], zero := {}, asked := map[], bloom := Advance(EMPTY)))
  {
    hide AckRequest, FindRec, GcChoices, AfterLookup, Contains, MessageId, ReadB64, Kept, Advance, GcSlots;
    NoPicks(cfg, s);
    AckRequestId(cfg.sha, id, size, 0);
    EmptyHasNone(MESSAGE_FILTER, id);
    TotalSizeEmpty();
    hide TotalSize;
    assert Bucket(s, id) == 0;
    var s2 := s.(zero := {}, asked := map[]);
    var b := GcEntriesBloom(EMPTY, s.entries, 0, size, s.now, 0);
    assert GcEntriesBloom(EMPTY, s.entries, 0, size, s.now, 1) == GcBloom(b, s.entries[0], RoomFor(0, size, 0), s.now);
    assert GcEntries(cfg.order, s.entries, 0, size, 0, s.now) == [[]];
    assert s.tokens[0..] == s.tokens;
    assert Gc(cfg, s2, 0, size, [[]]) == s2.(entries := [[]], bloom := Advance(EMPTY));
    var cleared: seq<seq<Rec>> := [[]];
    assert cleared[0] + [Sample(id, size, priority)] == [Sample(id, size, priority)];
    assert cleared[0 := [Sample(id, size, priority)]] == [[Sample(id, size, priority)]];
  }

  /** The state after one message was saved. */
  function OneMessage(id: Id, size: nat, priority: U32): (s: Cache)
    requires size >= LEAST_ACK_REQUEST
  {
    EmptyCache(1, 1).(entries := [[Sample(id, size, priority)]])
  }

  lemma {:induction false} OneMessageReached(cfg: Config, id: Id, size: nat, priority: U32)
    requires LEAST_ACK_REQUEST <= size <= ALLNET_MTU
    ensures Reachable(cfg, OneMessage(id, size, priority)) && Young(OneMessage(id, size, priority))
  {
    hide Reachable, IsStep, AckRequest, MessageId;
    YoungEmpty();
    TotalSizeEmpty();
    EmptyIsReachable(cfg, 1, 1);
    AckRequestId(cfg.sha, id, size, 0);
    SaveFits(cfg, EmptyCache(1, 1), AckRequest(id, size), id, priority);
    assert [] + [Sample(id, size, priority)] == [Sample(id, size, priority)];
    NextIsReachable(cfg, EmptyCache(1, 1), SaveSample(id, size, priority), OneMessage(id, size, priority));
  }

  /** The state after the token was listed, by marking the message for it, and the message was saved. */
  function Listed(cfg: Config, token: Token, m: seq<Byte>): (s: Cache)
    requires MessageId(cfg.sha, m).Some?
  {
    EmptyCache(1, 1).(entries := [[Rec(MessageId(cfg.sha, m).value, 0, {}, m)]], tokens := [token])
  }

  lemma {:induction false} MarkLists(cfg: Config, token: Token, m: seq<Byte>)
    requires MessageId(cfg.sha, m).Some?
    ensures IsStep(cfg, EmptyCache(1, 1), MarkEvent(token, m, [[]]), EmptyCache(1, 1).(tokens := [token]))
  {
    hide MessageId, GcChoices, Gc, ReadB64;
    YoungEmpty();
    NoPicks(cfg, EmptyCache(1, 1));
    assert [] + [token] == [token];
    assert FindToken([], token, 0).None?;
    assert FindRec([], MessageId(cfg.sha, m).value, 0).None?;
  }

  lemma {:induction false} ListedReached(cfg: Config, token: Token, m: seq<Byte>)
    requires MessageId(cfg.sha, m).Some? && |m| <= ALLNET_MTU
    ensures Reachable(cfg, Listed(cfg, token, m))
  {
    hide Reachable, IsStep, MessageId, TotalSize;
    var s0 := EmptyCache(1, 1);
    var s1 := s0.(tokens := [token]);
    var id := MessageId(cfg.sha, m).value;
    YoungEmpty();
    EmptyIsReachable(cfg, 1, 1);
    MarkLists(cfg, token, m);
    NextIsReachable(cfg, s0, MarkEvent(token, m, [[]]), s1);
    TotalSizeEmpty();
    SaveFits(cfg, s1, m, id, 0);
    assert [] + [Rec(id, 0, {}, m)] == [Rec(id, 0, {}, m)];
    NextIsReachable(cfg, s1, SaveEvent(m, 0, [[]]), Listed(cfg, token, m));
  }

  lemma {:induction false} SampleSize(id: Id, size: nat, priority: U32)
    requires size >= LEAST_ACK_REQUEST
    ensures TotalSize([Sample(id, size, priority)]) == HEADER_SIZE + size
  {
    hide AckRequest;
    assert [Sample(id, size, priority)][..0] == [];
  }
}
