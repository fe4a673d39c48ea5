/** The memo bit belongs to a token, not to a request: which other requests of the token it answers correctly. */
module Memo {
  import opened Base
  import opened Integrity
  import opened Packets
  import opened PcacheInvariants
  import opened PcacheModel
  import opened Records
  import opened Requests
  import opened Samples

  /** The message can be saved. */
  predicate Storing(cfg: Config, m: seq<Byte>) {
    |m| <= ALLNET_MTU && MessageId(cfg.sha, m).Some?
  }

  /** Every message that can be saved and that `req'` asks for, `req` asks for too. */
  ghost predicate Narrower(cfg: Config, req': Request, req: Request) {
    forall m: seq<Byte> | Storing(cfg, m) && req'.matches(m) :: req.matches(m)
  }

  /** A reachable state in which the memo bit of the token was set by `req`. */
  ghost predicate MemoBy(cfg: Config, s: Cache, req: Request) {
    Reachable(cfg, s) && MemoSet(s, req)
    && RequestIndex(s, req).value in s.asked && s.asked[RequestIndex(s, req).value] == req
  }

  /** In every reachable state the records are messages that can be saved. */
  lemma {:induction false} ReachableStores(cfg: Config, s: Cache, e: nat, k: nat)
    requires Reachable(cfg, s) && e < |s.entries| && k < |s.entries[e]|
    ensures Storing(cfg, s.entries[e][k].body)
  {
    hide IsStep, EmptyCache, TotalSize, MessageId;
    var buckets, slots, states, evs :| RunTo(cfg, buckets, slots, states, evs, s);
    RecordHasItsId(cfg, buckets, slots, states, evs, |evs|, e, k);
    ReachableOk(cfg, s);
    assert EntryOk(s.entries[e], e, |s.entries|);
    assert Storable(s.entries[e][k]);
  }

  /** ... and the memo agrees with the scan. */
  lemma {:induction false} ReachableMemo(cfg: Config, s: Cache)
    requires Reachable(cfg, s)
    ensures MemoOk(s)
  {
    hide IsStep, EmptyCache, MemoOk;
    var buckets, slots, states, evs :| RunTo(cfg, buckets, slots, states, evs, s);
    EmptyCacheIsGood(cfg, buckets, slots);
    RunMemo(cfg, states, evs, |evs|);
  }

  /** A memo set by one request answers another request of the token correctly in every reachable state, if
      and only if the other asks for no message that the first did not. */
  lemma {:induction false} MemoServesIffNarrower(cfg: Config, req: Request, req': Request)
    requires req'.token == req.token
    ensures (forall s | MemoBy(cfg, s, req) :: !Answerable(s, req')) <==> Narrower(cfg, req', req)
  {
    hide MemoBy, Answerable, Storing;
    if Narrower(cfg, req', req) {
      forall s | MemoBy(cfg, s, req) ensures !Answerable(s, req') {
        MemoServesNarrower(cfg, s, req, req');
      }
    } else {
      var m: seq<Byte> :| Storing(cfg, m) && req'.matches(m) && !req.matches(m);
      MemoMisses(cfg, req, req', m);
    }
  }

  lemma {:induction false} MemoServesNarrower(cfg: Config, s: Cache, req: Request, req': Request)
    requires MemoBy(cfg, s, req) && Narrower(cfg, req', req) && req'.token == req.token
    ensures !Answerable(s, req')
  {
    hide Reachable, Expired, Storing;
    ReachableMemo(cfg, s);
    var i := RequestIndex(s, req);
    assert MemoBitOk(s, i.value);
    forall e, k | 0 <= e < |s.entries| && 0 <= k < |s.entries[e]|
      ensures !Eligible(req', i, s.now, s.entries[e][k])
    {
      ReachableStores(cfg, s, e, k);
      assert !Eligible(req, i, s.now, s.entries[e][k]);
    }
  }

  /** The token is listed, one message is stored, and `req` was answered with nothing. */
  function Hidden(cfg: Config, req: Request, m: seq<Byte>): (s: Cache)
    requires MessageId(cfg.sha, m).Some?
  {
    Listed(cfg, req.token, m).(zero := {0}, asked := map[0 := req])
  }

  /** With the token listed and the message saved, `req`, which does not match it, sets the memo bit that then
      hides it from `req'`. */
  lemma {:induction false} MemoMisses(cfg: Config, req: Request, req': Request, m: seq<Byte>)
    requires Storing(cfg, m) && req'.matches(m) && !req.matches(m) && req'.token == req.token
    ensures MemoBy(cfg, Hidden(cfg, req, m), req) && Answerable(Hidden(cfg, req, m), req')
  {
    hide Reachable, IsStep, MessageId;
    ListedReached(cfg, req.token, m);
    RequestSets(cfg, req, m);
    NextIsReachable(cfg, Listed(cfg, req.token, m), RequestEvent(req), Hidden(cfg, req, m));
    NotExpiredAtFirst(m);
    assert FindToken([req.token], req.token, 1) == Some(0);
    assert Eligible(req', Some(0), 0, Hidden(cfg, req, m).entries[0][0]);
  }

  lemma {:induction false} NotExpiredAtFirst(m: seq<Byte>)
    ensures !Expired(m, 0)
  {
  }

  lemma {:induction false} RequestSets(cfg: Config, req: Request, m: seq<Byte>)
    requires Storing(cfg, m) && !req.matches(m)
    ensures IsStep(cfg, Listed(cfg, req.token, m), RequestEvent(req), Hidden(cfg, req, m))
  {
    hide MessageId, Expired;
    var s := Listed(cfg, req.token, m);
    YoungEmpty();
    assert FindToken([req.token], req.token, 1) == Some(0);
    assert !Answerable(s, req);
    assert {} + {0} == {0};
    var none: map<int, Request> := map[];
    assert none[0 := req] == map[0 := req];
  }
}
