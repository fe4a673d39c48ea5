/** What the daemon does with one received packet: the hop count, the cache, and the decision to forward. */
module Daemon {
  import AcksOnce
  import opened Base
  import opened Bloom
  import opened Packets
  import opened Pcache
  import opened PcacheInvariants
  import opened PcacheModel
  import opened Records
  import opened Remembering
  import opened TokenBits

  predicate HasHeader(m: seq<Byte>) {
    |m| >= ALLNET_HEADER_SIZE
  }

  /** The hop test of is_valid_message. */
  predicate ValidHops(m: seq<Byte>) {
    HasHeader(m) && m[HOPS] <= m[MAX_HOPS]
  }

  /** One hop is added to what comes from another system, unless the count is at its end. */
  function Arrived(m: seq<Byte>, local: bool): (m': seq<Byte>)
    requires HasHeader(m)
    ensures |m'| == |m|
  {
    if m[HOPS] < 255 && !local then m[HOPS := m[HOPS] + 1] else m
  }

  /** The test at the start of send_out. */
  predicate SendsOut(m: seq<Byte>) {
    HasHeader(m) && m[MAX_HOPS] > 0 && m[HOPS] < 255 && m[HOPS] < m[MAX_HOPS]
  }

  predicate DoNotCache(m: seq<Byte>)
    requires HasHeader(m)
  {
    Flag(m[TRANSPORT], TRANSPORT_DO_NOT_CACHE)
  }

  /** process_message returns PROCESS_PACKET_ALL for a packet that is neither an ack nor a request. */
  ghost predicate Forwards(cfg: Config, s: Cache, m: seq<Byte>, local: bool)
    requires Sized(s)
  {
    MessageId(cfg.sha, m).Some? && (local || !Remembered(s, MessageId(cfg.sha, m).value))
  }

  /** The cache operations of process_message on such a packet. */
  ghost function ProcessEvents(cfg: Config, s: Cache, m: seq<Byte>, priority: U32, picks: seq<seq<nat>>): (evs: seq<Event>)
    requires Sized(s) && HasHeader(m)
  {
    match MessageId(cfg.sha, m)
    case None => []
    case Some(id) =>
      (if InAcks(s, id) then [] else [FindEvent(MESSAGE_FILTER, id)]) +
      (if Remembered(s, id) then []
       else [if DoNotCache(m) then RecordEvent(m) else SaveEvent(m, priority, picks)])
  }

  // ---------------------------------------------------------------------------
  // When a packet goes out
  // ---------------------------------------------------------------------------

  ghost predicate HasAllBits(f: Filter, id: Id) {
    forall d | 0 <= d < FILTER_DEPTH :: 256 * id[2 * d] as int + id[2 * d + 1] as int in f[d]
  }

  /** The tables hold the ID: in a record, in an ack entry that is in use, or in all rows of a message filter. */
  ghost predicate Knows(s: Cache, id: Id) {
    || (exists e, k :: 0 <= e < |s.entries| && 0 <= k < |s.entries[e]| && s.entries[e][k].id == id)
    || (exists i :: 0 <= i < |s.acks| && s.acks[i].used && s.acks[i].id == id)
    || (exists n :: 0 <= n < NUM_FILTERS && HasAllBits(s.bloom.rings[MESSAGE_FILTER][n], id))
  }

  /** The packet has an ID, has hops left, and is local or new. */
  ghost predicate GoesOut(cfg: Config, s: Cache, m: seq<Byte>, local: bool)
    requires HasHeader(m)
  {
    && MessageId(cfg.sha, m).Some?
    && m[2] as int + (if local then 0 else 1) < m[3]
    && (local || !Knows(s, MessageId(cfg.sha, m).value))
  }

  /** The packet does not end the program: only one that is new, too large and to be cached does. */
  ghost predicate Survivable(cfg: Config, s: Cache, m: seq<Byte>)
    requires HasHeader(m)
  {
    || MessageId(cfg.sha, m).None? || Knows(s, MessageId(cfg.sha, m).value)
    || DoNotCache(m) || |m| <= ALLNET_MTU
  }

  lemma {:induction false} KnownRecord(cfg: Config, s: Cache, id: Id)
    requires TablesOk(cfg, s)
    ensures InMessages(s, id) <==> exists e, k :: 0 <= e < |s.entries| && 0 <= k < |s.entries[e]| && s.entries[e][k].id == id
  {
    hide EntriesOk, AcksOk;
    InMessagesIff(s, id);
    if e, k :| 0 <= e < |s.entries| && 0 <= k < |s.entries[e]| && s.entries[e][k].id == id {
      assert HasRecord(s.entries[e], id);
      RecordInBucket(s, e, id);
    }
  }

  lemma {:induction false} KnownAck(cfg: Config, s: Cache, id: Id)
    requires TablesOk(cfg, s)
    ensures InAcks(s, id) <==> exists i :: 0 <= i < |s.acks| && s.acks[i].used && s.acks[i].id == id
  {
    hide EntriesOk, AcksOk;
    InAcksIff(cfg, s, id);
    if i :| 0 <= i < |s.acks| && s.acks[i].used && s.acks[i].id == id {
      assert UsedFor(s.acks, i, id);
    }
  }

  lemma {:induction false} AllBitsIff(f: Filter, id: Id)
    ensures HasAllBits(f, id) <==> InFilter(f, id)
  {
    assert forall d | 0 <= d < FILTER_DEPTH :: Pos(id, d) == 256 * id[2 * d] as int + id[2 * d + 1] as int;
  }

  lemma {:induction false} KnownBits(s: Cache, id: Id)
    ensures Contains(s.bloom, MESSAGE_FILTER, id)
            <==> exists n :: 0 <= n < NUM_FILTERS && HasAllBits(s.bloom.rings[MESSAGE_FILTER][n], id)
  {
    hide HasAllBits, InFilter;
    forall n | 0 <= n < NUM_FILTERS
      ensures HasAllBits(s.bloom.rings[MESSAGE_FILTER][n], id) <==> InFilter(s.bloom.rings[MESSAGE_FILTER][n], id)
    {
      AllBitsIff(s.bloom.rings[MESSAGE_FILTER][n], id);
    }
  }

  /** The daemon's two lookups find exactly the IDs that the tables hold. */
  lemma {:induction false} RememberedIffKnows(cfg: Config, s: Cache, id: Id)
    requires TablesOk(cfg, s)
    ensures Remembered(s, id) <==> Knows(s, id)
  {
    hide TablesOk, InMessages, InAcks, Contains, HasAllBits;
    KnownRecord(cfg, s, id);
    KnownAck(cfg, s, id);
    KnownBits(s, id);
  }

  /** The decision of process_message and the tests around it, on the packet as it arrived and on the tables. */
  lemma {:induction false} ForwardsIff(cfg: Config, s: Cache, m: seq<Byte>, local: bool)
    requires TablesOk(cfg, s) && ValidHops(m)
    ensures Forwards(cfg, s, Arrived(m, local), local) && SendsOut(Arrived(m, local)) <==> GoesOut(cfg, s, m, local)
  {
    hide MessageId, Remembered, Knows, TablesOk;
    if m[HOPS] < 255 {
      MessageIdIgnoresHops(cfg.sha, m, HOPS, m[HOPS] + 1);
    }
    if MessageId(cfg.sha, m).Some? {
      RememberedIffKnows(cfg, s, MessageId(cfg.sha, m).value);
    }
  }

  // ---------------------------------------------------------------------------
  // Several operations in a row
  // ---------------------------------------------------------------------------

  ghost predicate CanStep(cfg: Config, s: Cache, ev: Event) {
    && Sized(s) && |s.tokens| <= MAX_TOKENS
    && ValidEvent(cfg, s, ev) && WellSized(s, ev) && Step(cfg, s, ev).Some?
  }

  /** The operations, one after the other, lead from one state to the other. */
  ghost predicate Reaches(cfg: Config, s: Cache, evs: seq<Event>, s': Cache)
    decreases |evs|
  {
    if evs == [] then s' == s
    else CanStep(cfg, s, evs[0]) && Reaches(cfg, Step(cfg, s, evs[0]).value, evs[1..], s')
  }

  /** None of the operations drops the whole entry of the ID. */
  ghost predicate AllSpare(cfg: Config, s: Cache, evs: seq<Event>, id: Id)
    decreases |evs|
  {
    evs != [] ==>
      && Spares(cfg, s, evs[0], id)
      && (CanStep(cfg, s, evs[0]) ==> AllSpare(cfg, Step(cfg, s, evs[0]).value, evs[1..], id))
  }

  lemma {:induction false} ReachesRemembers(cfg: Config, s: Cache, evs: seq<Event>, s': Cache, id: Id, since: nat)
    requires TablesOk(cfg, s) && Reaches(cfg, s, evs, s') && since <= s.bloom.epoch
    ensures TablesOk(cfg, s') && s.bloom.epoch <= s'.bloom.epoch
    ensures Recalls(s, id, since) && AllSpare(cfg, s, evs, id) ==> Recalls(s', id, since)
    decreases |evs|
  {
    hide EntriesOk, AcksOk, Recalls, Registers, Step, ValidEvent, WellSized, Clears;
    if evs != [] {
      var s1 := Step(cfg, s, evs[0]).value;
      StepRemembers(cfg, s, evs[0], s1, id, since);
      ReachesRemembers(cfg, s1, evs[1..], s', id, since);
    }
  }

  lemma {:induction false} ReachesConcat(cfg: Config, s: Cache, evs: seq<Event>, s1: Cache, more: seq<Event>, s2: Cache)
    requires Reaches(cfg, s, evs, s1) && Reaches(cfg, s1, more, s2)
    ensures Reaches(cfg, s, evs + more, s2)
    decreases |evs|
  {
    hide Step, ValidEvent, WellSized;
    if evs == [] {
      assert evs + more == more;
    } else {
      ReachesConcat(cfg, Step(cfg, s, evs[0]).value, evs[1..], s1, more, s2);
      assert (evs + more)[1..] == evs[1..] + more;
    }
  }

  lemma {:induction false} ReachesOne(cfg: Config, s: Cache, ev: Event, s': Cache)
    requires IsStep(cfg, s, ev, s')
    ensures Reaches(cfg, s, [ev], s')
  {
    hide Step, ValidEvent, WellSized;
    assert [ev][1..] == [];
    assert Reaches(cfg, s', [], s');
  }

  // ---------------------------------------------------------------------------
  // One packet
  // ---------------------------------------------------------------------------

  /** Whether it was new or not, the ID of a packet that was handled is found from now on. */
  lemma {:induction false} HandledIsRecalled(cfg: Config, s: Cache, m: seq<Byte>, priority: U32, picks: seq<seq<nat>>, s': Cache)
    requires TablesOk(cfg, s) && HasHeader(m) && MessageId(cfg.sha, m).Some?
    requires Reaches(cfg, s, ProcessEvents(cfg, s, m, priority, picks), s')
    ensures Sized(s') && Recalls(s', MessageId(cfg.sha, m).value, s.bloom.epoch)
  {
    hide EntriesOk, AcksOk, Step, ValidEvent, WellSized, MessageId, Contains, FoundMessage, Reaches, Remembered,
      InAcks, InMessages, Held, Registers, ProcessEvents, Clears, Looked;
    var id := MessageId(cfg.sha, m).value;
    var find, ev := FindEvent(MESSAGE_FILTER, id), if DoNotCache(m) then RecordEvent(m) else SaveEvent(m, priority, picks);
    RememberedIff(s, id);
    ProcessEventsAre(cfg, s, m, priority, picks);
    FindSpares(cfg, s, id);
    if InAcks(s, id) {
      ReachesNone(cfg, s, s');
    } else if FoundMessage(s, id) {
      ReachesIsStep(cfg, s, find, s');
      StepRemembers(cfg, s, find, s', id, s.bloom.epoch);
    } else {
      ReachesTwo(cfg, s, find, ev, s');
      LookedMisses(cfg, s, id);
      PacketRegisters(cfg, s, m, priority, picks);
      StepRemembers(cfg, s, ev, s', id, s.bloom.epoch);
    }
  }

  lemma {:induction false} FindSpares(cfg: Config, s: Cache, id: Id)
    requires Sized(s)
    ensures !Clears(cfg, s, FindEvent(MESSAGE_FILTER, id), id)
    ensures Contains(s.bloom, MESSAGE_FILTER, id) ==> Registers(cfg, s, FindEvent(MESSAGE_FILTER, id), id)
  {
    hide Contains;
  }

  lemma {:induction false} PacketRegisters(cfg: Config, s: Cache, m: seq<Byte>, priority: U32, picks: seq<seq<nat>>)
    requires HasHeader(m) && MessageId(cfg.sha, m).Some?
    ensures Registers(cfg, s, if DoNotCache(m) then RecordEvent(m) else SaveEvent(m, priority, picks), MessageId(cfg.sha, m).value)
  {
    hide MessageId;
  }

  lemma {:induction false} ReachesNone(cfg: Config, s: Cache, s': Cache)
    requires Reaches(cfg, s, [], s')
    ensures s' == s
  {
  }

  lemma {:induction false} ReachesIsStep(cfg: Config, s: Cache, ev: Event, s': Cache)
    requires Reaches(cfg, s, [ev], s')
    ensures IsStep(cfg, s, ev, s')
  {
    hide Step, ValidEvent, WellSized;
    assert [ev][1..] == [];
    ReachesNone(cfg, Step(cfg, s, ev).value, s');
  }

  lemma {:induction false} ReachesTwo(cfg: Config, s: Cache, a: Event, b: Event, s': Cache)
    requires Reaches(cfg, s, [a, b], s')
    ensures CanStep(cfg, s, a) && CanStep(cfg, Step(cfg, s, a).value, b)
    ensures IsStep(cfg, Step(cfg, s, a).value, b, s')
  {
    hide Step, ValidEvent;
    assert [a, b][1..] == [b] && [b][1..] == [];
    assert Reaches(cfg, Step(cfg, s, a).value, [b], s');
  }

  lemma {:induction false} RememberedIff(s: Cache, id: Id)
    requires Sized(s)
    ensures Remembered(s, id) <==> InAcks(s, id) || FoundMessage(s, id)
    ensures FoundMessage(s, id) <==> Contains(s.bloom, MESSAGE_FILTER, id) || InMessages(s, id)
  {
    hide Contains, FindRec, AckIndex;
  }

  /** A lookup that finds nothing changes nothing. */
  lemma {:induction false} LookedMisses(cfg: Config, s: Cache, id: Id)
    requires Sized(s) && |s.tokens| <= MAX_TOKENS && !Contains(s.bloom, MESSAGE_FILTER, id)
    ensures Step(cfg, s, FindEvent(MESSAGE_FILTER, id)) == Some(s)
  {
    LookupAnswers(s.bloom, MESSAGE_FILTER, id);
  }

  // ---------------------------------------------------------------------------
  // The steps of the daemon on its cache
  // ---------------------------------------------------------------------------

  lemma {:induction false} NothingToDo(cfg: Config, s: Cache)
    ensures Reaches(cfg, s, [], s)
  {
  }

  /** The hop count, in the receive buffer. */
  method CountHop(message: array<Byte>, local: bool)
    requires HasHeader(message[..])
    modifies message
    ensures message[..] == Arrived(old(message[..]), local)
  {
    if message[HOPS] < 255 && !local {
      message[HOPS] := message[HOPS] + 1;
    }
  }

  /** One turn of the daemon's loop for a packet that is neither ack, data request nor management. */
  method Receive(cache: PacketCache, message: array<Byte>, local: bool, priority: U32)
    returns (ok: bool, out: bool, ghost picks: seq<seq<nat>>)
    requires cache.Valid() && message !in cache.Repr()
    modifies cache.Repr(), message
    ensures cache.Valid()
    ensures !ValidHops(old(message[..])) ==>
              ok && !out && message[..] == old(message[..]) && cache.View() == old(cache.View())
    ensures ValidHops(old(message[..])) && TablesOk(cache.cfg, old(cache.View())) ==>
              && (ok <==> Survivable(cache.cfg, old(cache.View()), old(message[..])))
              && (out <==> ok && GoesOut(cache.cfg, old(cache.View()), old(message[..]), local))
    ensures ValidHops(old(message[..])) ==>
              && message[..] == Arrived(old(message[..]), local)
              && (out <==> ok && Forwards(cache.cfg, old(cache.View()), message[..], local) && SendsOut(message[..]))
              && (ok ==> Reaches(cache.cfg, old(cache.View()),
                                 ProcessEvents(cache.cfg, old(cache.View()), message[..], priority, picks), cache.View()))
  {
    hide PacketCache.Valid, PacketCache.View, Reaches, ProcessEvents, Forwards, SendsOut, TablesOk, Survivable, GoesOut;
    ok, out, picks := true, false, [];
    if !ValidHops(message[..]) {
      return;
    }
    ghost var cfg, s, m := cache.cfg, cache.View(), message[..];
    if TablesOk(cfg, s) {
      ForwardsIff(cfg, s, m, local);
      SurvivesArrival(cfg, s, m, local);
    }
    CountHop(message, local);
    var forward;
    ok, forward, picks := ProcessMessage(cache, message[..], local, priority);
    out := ok && forward && SendsOut(message[..]);
  }

  /** process_message for such a packet.  Not ok when the program exits while saving. */
  method ProcessMessage(cache: PacketCache, m: seq<Byte>, local: bool, priority: U32)
    returns (ok: bool, forward: bool, ghost picks: seq<seq<nat>>)
    requires cache.Valid() && HasHeader(m)
    modifies cache.Repr()
    ensures cache.Valid()
    ensures forward <==> Forwards(cache.cfg, old(cache.View()), m, local)
    ensures TablesOk(cache.cfg, old(cache.View())) ==> (ok <==> Survivable(cache.cfg, old(cache.View()), m))
    ensures ok ==> Reaches(cache.cfg, old(cache.View()),
                           ProcessEvents(cache.cfg, old(cache.View()), m, priority, picks), cache.View())
  {
    hide PacketCache.Valid, PacketCache.View, MessageId, ProcessEvents, Remembered, FoundMessage, InAcks, Step, Reaches,
      Looked, Save, PcacheModel.RecordPacket, GcChoices, TablesOk, Knows;
    ghost var cfg, s := cache.cfg, cache.View();
    picks := SomeChoices(cfg, s);
    ok, forward := true, false;
    NothingToDo(cfg, s);
    ProcessEventsAre(cfg, s, m, priority, picks);
    var id := MessageId(cache.cfg.sha, m);
    if id.None? {
      return;
    }
    RememberedIff(s, id.value);
    if TablesOk(cfg, s) {
      RememberedIffKnows(cfg, s, id.value);
    }
    var seen, ack := cache.IdAcked(id.value);
    if !seen {
      seen := cache.IdFound(id.value);
      FindIsStep(cfg, s, id.value);
    }
    ProcessEventsAre(cfg, s, m, priority, picks);
    assert seen <==> Remembered(s, id.value);
    if !local && seen {
      return;
    }
    forward := true;
    if !seen {
      ok, picks := Keep(cache, m, id.value, priority, s);
      ProcessEventsAre(cfg, s, m, priority, picks);
    }
  }

  /** The end of process_message: save a new packet, or only record its ID. */
  method Keep(cache: PacketCache, m: seq<Byte>, id: Id, priority: U32, ghost s: Cache)
    returns (ok: bool, ghost picks: seq<seq<nat>>)
    requires cache.Valid() && HasHeader(m) && Sized(s) && |s.tokens| <= MAX_TOKENS
    requires cache.View() == Looked(s, MESSAGE_FILTER, id)
    modifies cache.Repr()
    ensures cache.Valid()
    ensures TablesOk(cache.cfg, s) && MessageId(cache.cfg.sha, m) == Some(id) && !FoundMessage(s, id) ==>
              (ok <==> DoNotCache(m) || |m| <= ALLNET_MTU)
    ensures ok ==> Reaches(cache.cfg, s, [FindEvent(MESSAGE_FILTER, id),
                                          if DoNotCache(m) then RecordEvent(m) else SaveEvent(m, priority, picks)], cache.View())
  {
    hide PacketCache.Valid, PacketCache.View, Reaches, AfterLookup, Save, PcacheModel.RecordPacket, GcChoices, TablesOk,
      FoundMessage, MessageId;
    ok, picks := true, [];
    if !DoNotCache(m) {
      ok, picks := cache.SavePacket(m, priority);
      SaveIsStep(cache.cfg, s, id, m, priority, picks, ok, cache.View());
      NewIsSaved(cache.cfg, s, id, m, priority, picks);
    } else {
      cache.RecordPacket(m);
      RecordIsStep(cache.cfg, s, id, m, cache.View());
    }
  }

  /** Saving a new packet after the lookup fails only on its size. */
  lemma {:induction false} NewIsSaved(cfg: Config, s: Cache, id: Id, m: seq<Byte>, priority: U32, picks: seq<seq<nat>>)
    requires Sized(s) && Sized(Looked(s, MESSAGE_FILTER, id)) && GcChoices(cfg, Looked(s, MESSAGE_FILTER, id), picks)
    ensures |picks| == |s.acks| / ACKS_PER_SLOT
    ensures TablesOk(cfg, s) && MessageId(cfg.sha, m) == Some(id) && !FoundMessage(s, id) ==>
              (Save(cfg, Looked(s, MESSAGE_FILTER, id), m, priority, picks).Some? <==> |m| <= ALLNET_MTU)
  {
    hide EntriesOk, AcksOk, Save, ValidChoices, MessageId, InMessages, Contains;
    if TablesOk(cfg, s) && MessageId(cfg.sha, m) == Some(id) && !FoundMessage(s, id) {
      LookupAnswers(s.bloom, MESSAGE_FILTER, id);
      assert Looked(s, MESSAGE_FILTER, id) == s;
      SaveOk(cfg, s, m, priority, picks);
    }
  }

  /** Counting a hop does not change what the packet is. */
  lemma {:induction false} SurvivesArrival(cfg: Config, s: Cache, m: seq<Byte>, local: bool)
    requires HasHeader(m)
    ensures Survivable(cfg, s, Arrived(m, local)) <==> Survivable(cfg, s, m)
  {
    hide MessageId, Knows;
    if m[HOPS] < 255 {
      MessageIdIgnoresHops(cfg.sha, m, HOPS, m[HOPS] + 1);
    }
  }

  lemma {:induction false} ProcessEventsAre(cfg: Config, s: Cache, m: seq<Byte>, priority: U32, picks: seq<seq<nat>>)
    requires Sized(s) && HasHeader(m)
    ensures MessageId(cfg.sha, m).None? ==> ProcessEvents(cfg, s, m, priority, picks) == []
    ensures MessageId(cfg.sha, m).Some? ==>
              var id := MessageId(cfg.sha, m).value;
              ProcessEvents(cfg, s, m, priority, picks)
              == if InAcks(s, id) then []
                 else if Remembered(s, id) then [FindEvent(MESSAGE_FILTER, id)]
                 else [FindEvent(MESSAGE_FILTER, id), if DoNotCache(m) then RecordEvent(m) else SaveEvent(m, priority, picks)]
  {
    hide MessageId, FoundMessage, AckIndex;
    if MessageId(cfg.sha, m).Some? {
      RememberedIff(s, MessageId(cfg.sha, m).value);
    }
  }

  lemma {:induction false} FindIsStep(cfg: Config, s: Cache, id: Id)
    requires Sized(s) && |s.tokens| <= MAX_TOKENS
    ensures Reaches(cfg, s, [FindEvent(MESSAGE_FILTER, id)], Looked(s, MESSAGE_FILTER, id))
  {
    hide Looked;
    ReachesOne(cfg, s, FindEvent(MESSAGE_FILTER, id), Looked(s, MESSAGE_FILTER, id));
  }

  lemma {:induction false} SaveIsStep(cfg: Config, s: Cache, id: Id, m: seq<Byte>, priority: U32, picks: seq<seq<nat>>, ok: bool, s': Cache)
    requires Sized(s) && |s.tokens| <= MAX_TOKENS && |s.acks| == |Looked(s, MESSAGE_FILTER, id).acks|
    requires Sized(Looked(s, MESSAGE_FILTER, id)) && GcChoices(cfg, Looked(s, MESSAGE_FILTER, id), picks)
    requires Save(cfg, Looked(s, MESSAGE_FILTER, id), m, priority, picks) == if ok then Some(s') else None
    ensures ok ==> Reaches(cfg, s, [FindEvent(MESSAGE_FILTER, id), SaveEvent(m, priority, picks)], s')
  {
    hide Save, GcChoices, AfterLookup, Reaches;
    FindIsStep(cfg, s, id);
    if ok {
      var s1 := Looked(s, MESSAGE_FILTER, id);
      assert |picks| == |s1.acks| / ACKS_PER_SLOT by {
        ChoicesSized(cfg, s1, picks);
      }
      ReachesOne(cfg, s1, SaveEvent(m, priority, picks), s');
      ReachesConcat(cfg, s, [FindEvent(MESSAGE_FILTER, id)], s1, [SaveEvent(m, priority, picks)], s');
      assert [FindEvent(MESSAGE_FILTER, id)] + [SaveEvent(m, priority, picks)]
             == [FindEvent(MESSAGE_FILTER, id), SaveEvent(m, priority, picks)];
    }
  }

  lemma {:induction false} ChoicesSized(cfg: Config, s: Cache, picks: seq<seq<nat>>)
    requires Sized(s) && GcChoices(cfg, s, picks)
    ensures |picks| == |s.acks| / ACKS_PER_SLOT
  {
  }

  lemma {:induction false} RecordIsStep(cfg: Config, s: Cache, id: Id, m: seq<Byte>, s': Cache)
    requires Sized(s) && |s.tokens| <= MAX_TOKENS
    requires s' == PcacheModel.RecordPacket(cfg, Looked(s, MESSAGE_FILTER, id), m)
    ensures Reaches(cfg, s, [FindEvent(MESSAGE_FILTER, id), RecordEvent(m)], s')
  {
    hide PcacheModel.RecordPacket, AfterLookup, Reaches;
    FindIsStep(cfg, s, id);
    var s1 := Looked(s, MESSAGE_FILTER, id);
    ReachesOne(cfg, s1, RecordEvent(m), s');
    ReachesConcat(cfg, s, [FindEvent(MESSAGE_FILTER, id)], s1, [RecordEvent(m)], s');
    assert [FindEvent(MESSAGE_FILTER, id)] + [RecordEvent(m)] == [FindEvent(MESSAGE_FILTER, id), RecordEvent(m)];
  }

  /** minz: a difference, but not below 0. */
  function Minz(from: nat, subtract: nat): (n: nat)
    ensures n + subtract >= from && (n == 0 || n + subtract == from)
  {
    if from >= subtract then from - subtract else 0
  }

  /** Saving the first `n` acks of a packet. */
  ghost predicate SavesAcks(cfg: Config, s: Cache, acks: seq<Id>, maxHops: nat, n: nat, evs: seq<Event>, s': Cache)
    requires n <= |acks|
  {
    && |evs| == n && Reaches(cfg, s, evs, s')
    && forall k | 0 <= k < n :: evs[k].AckEvent? && evs[k].ack == acks[k] && evs[k].maxHops == maxHops
  }

  /** process_acks: save all acks, then keep those not yet given to the local token, moved to the front;
      nothing is forwarded when none is kept. */
  method ProcessAcks(cache: PacketCache, acks: array<Id>, hops: Byte, maxHops: Byte, token: Token, stray: Bits)
    returns (newAcks: nat, ghost evs: seq<Event>, ghost saved: Cache, ghost picks: seq<seq<seq<nat>>>)
    requires cache.Valid() && acks !in cache.Repr() && TablesOk(cache.cfg, cache.View())
    modifies cache.Repr(), acks
    ensures cache.Valid()
    ensures SavesAcks(cache.cfg, old(cache.View()), old(acks[..]), Minz(maxHops, hops + 1), acks.Length, evs, saved)
    ensures TablesOk(cache.cfg, saved) && |picks| == acks.Length
    ensures forall k | 0 <= k < |picks| :: |picks[k]| == |saved.acks| / ACKS_PER_SLOT
    ensures ChoicesFor(cache.cfg, saved, token, old(acks[..]), stray, picks, acks.Length)
    ensures var r := AcksOnce.AcksForToken(cache.cfg, saved, token, old(acks[..]), stray, picks, acks.Length);
            cache.View() == r.0 && newAcks == |r.1| <= acks.Length && acks[..newAcks] == r.1
  {
    hide PacketCache.Valid, PacketCache.View, TablesOk, Reaches, SaveAck, GcChoices, ChoicesFor, AcksOnce.AcksForToken;
    ghost var cfg, s := cache.cfg, cache.View();
    evs := [];
    NothingToDo(cfg, s);
    for i := 0 to acks.Length
      invariant cache.Valid() && acks[..] == old(acks[..]) && TablesOk(cfg, cache.View())
      invariant SavesAcks(cfg, s, acks[..], Minz(maxHops, hops + 1), i, evs, cache.View())
    {
      ghost var s1, more := cache.View(), [];
      more := cache.SaveOneAck(acks[i], Minz(maxHops, hops + 1));
      MoreSaved(cfg, s, acks[..], Minz(maxHops, hops + 1), i, evs, s1, more, cache.View());
      evs := evs + [AckEvent(acks[i], Minz(maxHops, hops + 1), more)];
    }
    saved := cache.View();
    newAcks, picks := cache.AcksForToken(token, acks, stray);
  }

  lemma {:induction false} MoreSaved(cfg: Config, s: Cache, acks: seq<Id>, maxHops: nat, n: nat, evs: seq<Event>, s1: Cache,
                                     picks: seq<seq<nat>>, s2: Cache)
    requires n < |acks| && SavesAcks(cfg, s, acks, maxHops, n, evs, s1) && TablesOk(cfg, s1)
    requires GcChoices(cfg, s1, picks) && SaveAck(cfg, s1, acks[n], maxHops, picks) == Some(s2)
    ensures SavesAcks(cfg, s, acks, maxHops, n + 1, evs + [AckEvent(acks[n], maxHops, picks)], s2)
    ensures TablesOk(cfg, s2)
  {
    hide EntriesOk, AcksOk, Reaches, SaveAck, ValidChoices;
    SaveAckOk(cfg, s1, acks[n], maxHops, picks);
    ReachesOne(cfg, s1, AckEvent(acks[n], maxHops, picks), s2);
    ReachesConcat(cfg, s, evs, s1, [AckEvent(acks[n], maxHops, picks)], s2);
  }
}
