/** The memo that lets a data request be answered with nothing without a scan: it agrees with the scan. */
module Requests {
  import opened Base
  import opened Bloom
  import opened Packets
  import opened PcacheInvariants
  import opened PcacheModel
  import opened Records
  import opened TokenBits

  /** Each memo bit belongs to a request of that token which a full scan would answer with nothing. */
  ghost predicate MemoOk(s: Cache) {
    forall i | i in s.zero :: MemoBitOk(s, i)
  }

  ghost predicate MemoBitOk(s: Cache, i: int) {
    i in s.asked && RequestIndex(s, s.asked[i]) == Some(i) && !Answerable(s, s.asked[i])
  }

  /** The record was there before, perhaps not yet marked for as many tokens. */
  ghost predicate Was(r: Rec, rs: seq<Rec>) {
    exists i :: 0 <= i < |rs| && rs[i].body == r.body && rs[i].sent <= r.sent
  }

  ghost predicate NothingNew(s: Cache, s': Cache) {
    && |s'.entries| == |s.entries|
    && forall e, i | 0 <= e < |s.entries| && 0 <= i < |s'.entries[e]| :: Was(s'.entries[e][i], s.entries[e])
  }

  lemma {:induction false} NothingNewSame(s: Cache, s': Cache)
    requires s'.entries == s.entries
    ensures NothingNew(s, s')
  {
    forall e, i | 0 <= e < |s.entries| && 0 <= i < |s.entries[e]| ensures Was(s.entries[e][i], s.entries[e]) {
      assert s.entries[e][i].sent <= s.entries[e][i].sent;
    }
  }

  lemma {:induction false} StaysEligible(req: Request, index: Option<nat>, now: nat, r: Rec, now': nat, r': Rec)
    requires Eligible(req, index, now', r') && now <= now' && r'.body == r.body && r.sent <= r'.sent
    ensures Eligible(req, index, now, r)
  {
    hide ReadB64;
    if Expired(r.body, now) {
      ExpiryIsFinal(r.body, now, now');
    }
  }

  lemma {:induction false} AnswerableBefore(s: Cache, s': Cache, req: Request)
    requires NothingNew(s, s') && s.now <= s'.now && RequestIndex(s', req) == RequestIndex(s, req)
    requires Answerable(s', req)
    ensures Answerable(s, req)
  {
    hide Eligible;
    var e, k :| 0 <= e < |s'.entries| && 0 <= k < |s'.entries[e]| && Eligible(req, RequestIndex(s', req), s'.now, s'.entries[e][k]);
    assert Was(s'.entries[e][k], s.entries[e]);
    var j :| 0 <= j < |s.entries[e]| && s.entries[e][j].body == s'.entries[e][k].body
             && s.entries[e][j].sent <= s'.entries[e][k].sent;
    StaysEligible(req, RequestIndex(s, req), s.now, s.entries[e][j], s'.now, s'.entries[e][k]);
  }

  /** Nothing becomes answerable when records only go, age, or get marked. */
  lemma {:induction false} MemoStays(s: Cache, s': Cache)
    requires MemoOk(s) && NothingNew(s, s') && s.now <= s'.now
    requires s'.zero == s.zero && s'.asked == s.asked
    requires s.tokens <= s'.tokens
    ensures MemoOk(s')
  {
    hide Answerable;
    forall i | i in s'.zero ensures MemoBitOk(s', i) {
      assert MemoBitOk(s, i);
      FindTokenPrefix(s.tokens, s'.tokens, s.asked[i].token);
      if Answerable(s', s.asked[i]) {
        AnswerableBefore(s, s', s.asked[i]);
      }
    }
  }

  lemma {:induction false} FindTokenStable(tokens: seq<Token>, tokens': seq<Token>, token: Token, n: nat)
    requires tokens <= tokens' && n <= |tokens|
    ensures FindToken(tokens', token, n) == FindToken(tokens, token, n)
    decreases n
  {
    if n > 0 {
      FindTokenStable(tokens, tokens', token, n - 1);
    }
  }

  lemma {:induction false} FindTokenMore(tokens: seq<Token>, token: Token, n: nat, m: nat)
    requires n <= m <= |tokens| && FindToken(tokens, token, n).Some?
    ensures FindToken(tokens, token, m) == FindToken(tokens, token, n)
    decreases m
  {
    if n < m {
      FindTokenMore(tokens, token, n, m - 1);
    }
  }

  lemma {:induction false} FindTokenPrefix(tokens: seq<Token>, tokens': seq<Token>, token: Token)
    requires tokens <= tokens'
    ensures FindToken(tokens, token, |tokens|).Some? ==>
              FindToken(tokens', token, |tokens'|) == FindToken(tokens, token, |tokens|)
  {
    if FindToken(tokens, token, |tokens|).Some? {
      FindTokenStable(tokens, tokens', token, |tokens|);
      FindTokenMore(tokens', token, |tokens|, |tokens'|);
    }
  }

  lemma {:induction false} MemoEmpty(s: Cache)
    requires s.zero == {}
    ensures MemoOk(s)
  {
  }

  lemma {:induction false} SaveMemo(cfg: Config, s: Cache, message: seq<Byte>, priority: U32, picks: seq<seq<nat>>)
    requires Sized(s) && |picks| == |s.acks| / ACKS_PER_SLOT && MemoOk(s)
    requires Save(cfg, s, message, priority, picks).Some?
    ensures MemoOk(Save(cfg, s, message, priority, picks).value)
  {
    hide MessageId, AfterLookup, Contains, FindRec, GcEntries, GcSlots, GcEntriesBloom, TotalSize;
    var s' := Save(cfg, s, message, priority, picks).value;
    if MessageId(cfg.sha, message).Some? && !FoundMessage(s, MessageId(cfg.sha, message).value) {
      MemoEmpty(s');
    } else {
      NothingNewSame(s, s');
      MemoStays(s, s');
    }
  }

  lemma {:induction false} DeleteWas(rs: seq<Rec>, id: Id)
    ensures forall k | 0 <= k < |DeleteRec(rs, id)| :: Was(DeleteRec(rs, id)[k], rs)
  {
    var f := FindRec(rs, id, |rs|);
    forall k | 0 <= k < |DeleteRec(rs, id)| ensures Was(DeleteRec(rs, id)[k], rs) {
      if f.Some? {
        RemovedAt(rs, f.value, k);
        assert rs[Skip(f.value, k)].sent <= DeleteRec(rs, id)[k].sent;
      } else {
        assert rs[k].sent <= rs[k].sent;
      }
    }
  }

  lemma {:induction false} PutAckMemo(s: Cache, i: nat, ack: Id, id: Id, maxHops: nat)
    requires Sized(s) && i < |s.acks| && MemoOk(s)
    ensures MemoOk(PutAck(s, i, ack, id, maxHops))
  {
    hide DeleteRec, Was, MemoOk;
    var s' := PutAck(s, i, ack, id, maxHops);
    var b := Bucket(s, id);
    DeleteWas(s.entries[b], id);
    NothingNewSame(s, s);
    forall e, k | 0 <= e < |s.entries| && 0 <= k < |s'.entries[e]| ensures Was(s'.entries[e][k], s.entries[e]) {
      if e != b {
        assert Was(s.entries[e][k], s.entries[e]);
      }
    }
    MemoStays(s, s');
  }

  lemma {:induction false} SaveAckMemo(cfg: Config, s: Cache, ack: Id, maxHops: nat, picks: seq<seq<nat>>)
    requires Sized(s) && |picks| == |s.acks| / ACKS_PER_SLOT && MemoOk(s)
    requires SaveAck(cfg, s, ack, maxHops, picks).Some?
    ensures MemoOk(SaveAck(cfg, s, ack, maxHops, picks).value)
  {
    hide AfterLookup, Contains, PlaceFor, PutAck, GcEntries, GcSlots, GcEntriesBloom, MemoOk, AckIndex;
    var s1 := Looked(s, ACK_FILTER, ack);
    var s' := SaveAck(cfg, s, ack, maxHops, picks).value;
    NothingNewSame(s, s1);
    MemoStays(s, s1);
    var id := cfg.sha(ack);
    if Contains(s.bloom, ACK_FILTER, ack) {
    } else if AckIndex(s.acks, id).Some? {
      NothingNewSame(s, s');
      MemoStays(s, s');
    } else {
      MemoEmpty(Gc(cfg, s1, -1, 0, picks));
      var s2 := if PlaceFor(s.acks, id).None? then Gc(cfg, s1, -1, 0, picks) else s1;
      PutAckMemo(s2, PlaceFor(s2.acks, id).value, ack, id, maxHops);
    }
  }

  lemma {:induction false} TokenToSendToMemo(cfg: Config, s: Cache, token: Token, bitmap: Bits, picks: seq<seq<nat>>)
    requires Sized(s) && |picks| == |s.acks| / ACKS_PER_SLOT && MemoOk(s)
    ensures MemoOk(TokenToSendTo(cfg, s, token, bitmap, picks).0)
  {
    hide GcEntries, GcSlots, GcEntriesBloom;
    var s' := TokenToSendTo(cfg, s, token, bitmap, picks).0;
    if FindToken(s.tokens, token, |s.tokens|).None? && !RefusesTokenGc(s) && |s.tokens| + 1 > MAX_TOKENS {
      MemoEmpty(s');
    } else {
      NothingNewSame(s, s');
      MemoStays(s, s');
    }
  }

  lemma {:induction false} MarkWas(rs: seq<Rec>, i: nat, bit: nat)
    requires i < |rs| && bit < MAX_TOKENS
    ensures var rs' := rs[i := rs[i].(sent := rs[i].sent + {bit})];
            forall k | 0 <= k < |rs'| :: Was(rs'[k], rs)
  {
    var rs' := rs[i := rs[i].(sent := rs[i].sent + {bit})];
    forall k | 0 <= k < |rs| ensures Was(rs'[k], rs) {
      assert rs[k].body == rs'[k].body && rs[k].sent <= rs'[k].sent;
    }
  }

  lemma {:induction false} MarkSentMemo(cfg: Config, s: Cache, token: Token, message: seq<Byte>, picks: seq<seq<nat>>)
    requires Sized(s) && |picks| == |s.acks| / ACKS_PER_SLOT && |s.tokens| <= MAX_TOKENS && MemoOk(s)
    ensures MemoOk(MarkSent(cfg, s, token, message, picks))
  {
    hide MessageId, TokenToSendTo, MemoOk, Was;
    if MessageId(cfg.sha, message).Some? {
      var id := MessageId(cfg.sha, message).value;
      TokenToSendToMemo(cfg, s, token, {}, picks);
      var t := TokenToSendTo(cfg, s, token, {}, picks);
      var e := Bucket(t.0, id);
      var rs := t.0.entries[e];
      var i := FindRec(rs, id, |rs|);
      if t.1.Some? && i.Some? {
        var s' := MarkSent(cfg, s, token, message, picks);
        MarkWas(rs, i.value, t.1.value);
        NothingNewSame(t.0, t.0);
        forall x, k | 0 <= x < |t.0.entries| && 0 <= k < |s'.entries[x]| ensures Was(s'.entries[x][k], t.0.entries[x]) {
          if x != e {
            assert Was(t.0.entries[x][k], t.0.entries[x]);
          }
        }
        MemoStays(t.0, s');
      }
    }
  }

  lemma {:induction false} AckForTokenMemo(cfg: Config, s: Cache, token: Token, ack: Id, stray: Bits, picks: seq<seq<nat>>)
    requires Sized(s) && |picks| == |s.acks| / ACKS_PER_SLOT && |s.tokens| <= MAX_TOKENS && MemoOk(s)
    ensures MemoOk(AckForToken(cfg, s, token, ack, stray, picks).0)
  {
    hide AfterLookup, Contains, AckIndex, TokenToSendTo, MemoOk;
    var s1 := Looked(s, ACK_FILTER, ack);
    NothingNewSame(s, s1);
    MemoStays(s, s1);
    if !Contains(s.bloom, ACK_FILTER, ack) {
      var a := AckIndex(s1.acks, cfg.sha(ack));
      var bitmap := if a.Some? then s1.acks[a.value].sent else stray;
      TokenToSendToMemo(cfg, s1, token, bitmap, picks);
      var t := TokenToSendTo(cfg, s1, token, bitmap, picks).0;
      var s' := AckForToken(cfg, s, token, ack, stray, picks).0;
      NothingNewSame(t, s');
      MemoStays(t, s');
    }
  }

  lemma {:induction false} RequestMemo(s: Cache, req: Request)
    requires |s.tokens| <= MAX_TOKENS && MemoOk(s)
    ensures MemoOk(AfterRequest(s, req))
  {
    hide Eligible;
    var s' := AfterRequest(s, req);
    forall i | i in s'.zero ensures MemoBitOk(s', i) {
      assert i in s.zero ==> MemoBitOk(s, i);
      assert forall r :: RequestIndex(s', r) == RequestIndex(s, r);
      assert forall r :: Answerable(s', r) <==> Answerable(s, r);
    }
  }

  /** The memo agrees with the full scan in every reachable state, whatever operations came between. */
  lemma {:induction false} StepMemo(cfg: Config, s: Cache, ev: Event, s': Cache)
    requires MemoOk(s) && IsStep(cfg, s, ev, s')
    ensures MemoOk(s')
  {
    hide Save, SaveAck, AckForToken, MarkSent, GcChoices, Note, AfterLookup, MemoOk, AfterRequest, MessageId;
    match ev
    case SaveEvent(message, priority, picks) => SaveMemo(cfg, s, message, priority, picks);
    case AckEvent(ack, maxHops, picks) => SaveAckMemo(cfg, s, ack, maxHops, picks);
    case AckForEvent(token, ack, stray, picks) => AckForTokenMemo(cfg, s, token, ack, stray, picks);
    case MarkEvent(token, message, picks) => MarkSentMemo(cfg, s, token, message, picks);
    case RequestEvent(req) => RequestMemo(s, req);
    case _ =>
      NothingNewSame(s, s');
      MemoStays(s, s');
  }

  lemma {:induction false} RunMemo(cfg: Config, states: seq<Cache>, evs: seq<Event>, k: nat)
    requires IsRun(cfg, states, evs) && MemoOk(states[0]) && k < |states|
    ensures MemoOk(states[k])
    decreases k
  {
    hide MemoOk, Step, ValidEvent, WellSized;
    if k > 0 {
      RunMemo(cfg, states, evs, k - 1);
      assert IsStep(cfg, states[k - 1], evs[k - 1], states[k]);
      StepMemo(cfg, states[k - 1], evs[k - 1], states[k]);
    }
  }
}
