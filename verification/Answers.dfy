/** What a data request is answered with. */
module Answers {
  import opened Base
  import opened PcacheInvariants
  import opened PcacheModel
  import opened Records
  import opened TokenBits

  /** The size of a struct pcache_message, which the buffer holds for every message next to its bytes. */
  const MESSAGE_STRUCT_SIZE := 16

  datatype Message = Message(body: seq<Byte>, priority: U32)

  /** The eligible ones among the first `n` records of an entry, in order. */
  function EligibleOf(req: Request, index: Option<nat>, now: nat, rs: seq<Rec>, n: nat): (ms: seq<Message>)
    requires n <= |rs|
  {
    if n == 0 then []
    else EligibleOf(req, index, now, rs, n - 1)
         + if Eligible(req, index, now, rs[n - 1]) then [Message(rs[n - 1].body, rs[n - 1].priority)] else []
  }

  /** The eligible records of the first `n` entries, in table order. */
  function AllEligible(req: Request, index: Option<nat>, now: nat, entries: seq<seq<Rec>>, n: nat): (ms: seq<Message>)
    requires n <= |entries|
  {
    if n == 0 then []
    else AllEligible(req, index, now, entries, n - 1) + EligibleOf(req, index, now, entries[n - 1], |entries[n - 1]|)
  }

  function BufferUse(ms: seq<Message>): (n: nat) {
    if ms == [] then 0 else BufferUse(ms[..|ms| - 1]) + MESSAGE_STRUCT_SIZE + |ms[|ms| - 1].body|
  }

  /** Within the limit on messages, if there is one, and within the buffer. */
  predicate Fits(ms: seq<Message>, max: int, bsize: nat) {
    (max > 0 ==> |ms| <= max) && BufferUse(ms) <= bsize
  }

  /** The longest prefix of the list that fits. */
  ghost predicate IsAnswer(all: seq<Message>, answer: seq<Message>, max: int, bsize: nat) {
    && answer <= all && Fits(answer, max, bsize)
    && (answer == all || !Fits(all[..|answer| + 1], max, bsize))
  }

  lemma {:induction false} FitsShorter(ms: seq<Message>, max: int, bsize: nat, k: nat)
    requires k <= |ms| && Fits(ms, max, bsize)
    ensures Fits(ms[..k], max, bsize)
    decreases |ms|
  {
    if k < |ms| {
      FitsShorter(ms[..|ms| - 1], max, bsize, k);
      assert ms[..|ms| - 1][..k] == ms[..k];
    } else {
      assert ms[..k] == ms;
    }
  }

  lemma {:induction false} PrefixFits(all: seq<Message>, b: seq<Message>, max: int, bsize: nat, k: nat)
    requires b <= all && Fits(b, max, bsize) && k <= |b|
    ensures Fits(all[..k], max, bsize)
  {
    FitsShorter(b, max, bsize, k);
    assert b[..k] == all[..k];
  }

  lemma {:induction false} FirstFits(all: seq<Message>, max: int, bsize: nat)
    requires all != [] && |all[0].body| <= ALLNET_MTU && bsize >= MESSAGE_STRUCT_SIZE + ALLNET_MTU
    ensures Fits(all[..1], max, bsize)
  {
    assert all[..1] == [all[0]];
    assert [all[0]][..0] == [];
  }

  /** There is only one such prefix: a maintainer can rely on the answer being as long as it can be. */
  lemma {:induction false} AnswerIsUnique(all: seq<Message>, a: seq<Message>, b: seq<Message>, max: int, bsize: nat)
    requires IsAnswer(all, a, max, bsize) && Fits(b, max, bsize) && b <= all
    ensures |b| <= |a|
    ensures IsAnswer(all, b, max, bsize) ==> a == b
  {
    hide Fits;
    if |b| > |a| {
      PrefixFits(all, b, max, bsize, |a| + 1);
    }
    if IsAnswer(all, b, max, bsize) && |a| > |b| {
      PrefixFits(all, a, max, bsize, |b| + 1);
    }
  }

  /** Once a message was skipped, later ones do not matter. */
  lemma {:induction false} AnswerStays(all: seq<Message>, answer: seq<Message>, more: seq<Message>, max: int, bsize: nat)
    requires IsAnswer(all, answer, max, bsize) && |answer| < |all|
    ensures IsAnswer(all + more, answer, max, bsize)
  {
    assert (all + more)[..|answer| + 1] == all[..|answer| + 1];
  }

  /** The states of the scan: all messages so far are in the answer, or the limit is reached, or the
      buffer was found full. */
  ghost predicate Scanning(all: seq<Message>, answer: seq<Message>, max: int, bsize: nat, full: bool) {
    && IsAnswer(all, answer, max, bsize)
    && (if full then |answer| < |all| else answer == all || (max > 0 && |answer| >= max))
  }

  lemma {:induction false} ScanOne(all: seq<Message>, answer: seq<Message>, max: int, bsize: nat, m: Message)
    requires Scanning(all, answer, max, bsize, false)
    ensures max > 0 && |answer| >= max ==> Scanning(all + [m], answer, max, bsize, false)
    ensures (max > 0 ==> |answer| < max) ==>
              var fits := BufferUse(answer) + MESSAGE_STRUCT_SIZE + |m.body| <= bsize;
              Scanning(all + [m], if fits then answer + [m] else answer, max, bsize, !fits)
  {
    assert (answer + [m])[..|answer|] == answer;
    assert answer == all ==> (all + [m])[..|answer| + 1] == answer + [m];
  }

  lemma {:induction false} ScanStart(max: int, bsize: nat)
    ensures Scanning([], [], max, bsize, false)
  {
  }

  lemma {:induction false} ScanFull(all: seq<Message>, answer: seq<Message>, more: seq<Message>, max: int, bsize: nat)
    requires Scanning(all, answer, max, bsize, true)
    ensures Scanning(all + more, answer, max, bsize, true)
  {
    hide Fits;
    AnswerStays(all, answer, more, max, bsize);
  }

  /** The memo bit that an empty answer sets. */
  ghost function Memoized(s: Cache, req: Request): (s': Cache)
    requires |s.tokens| <= MAX_TOKENS
  {
    var i := RequestIndex(s, req);
    if i.None? then s else s.(zero := s.zero + {i.value}, asked := s.asked[i.value := req])
  }

  /** Nothing is eligible exactly when nothing is answerable. */
  lemma {:induction false} EligibleOfEmpty(req: Request, index: Option<nat>, now: nat, rs: seq<Rec>, n: nat)
    requires n <= |rs|
    ensures EligibleOf(req, index, now, rs, n) == [] <==> forall i | 0 <= i < n :: !Eligible(req, index, now, rs[i])
    decreases n
  {
    hide Eligible;
    if n > 0 {
      EligibleOfEmpty(req, index, now, rs, n - 1);
    }
  }

  ghost predicate NothingIn(req: Request, index: Option<nat>, now: nat, rs: seq<Rec>) {
    forall i | 0 <= i < |rs| :: !Eligible(req, index, now, rs[i])
  }

  lemma {:induction false} AllEligibleEmpty(req: Request, index: Option<nat>, now: nat, entries: seq<seq<Rec>>, n: nat)
    requires n <= |entries|
    ensures AllEligible(req, index, now, entries, n) == [] <==> forall e | 0 <= e < n :: NothingIn(req, index, now, entries[e])
    decreases n
  {
    hide Eligible;
    if n > 0 {
      AllEligibleEmpty(req, index, now, entries, n - 1);
      EligibleOfEmpty(req, index, now, entries[n - 1], |entries[n - 1]|);
    }
  }

  /** The whole list a request could be answered with. */
  function AnswerList(s: Cache, req: Request): (ms: seq<Message>) {
    AllEligible(req, RequestIndex(s, req), s.now, s.entries, |s.entries|)
  }

  lemma {:induction false} ListIffAnswerable(s: Cache, req: Request)
    ensures AnswerList(s, req) != [] <==> Answerable(s, req)
  {
    hide Eligible;
    AllEligibleEmpty(req, RequestIndex(s, req), s.now, s.entries, |s.entries|);
    if !(forall e | 0 <= e < |s.entries| :: NothingIn(req, RequestIndex(s, req), s.now, s.entries[e])) {
      var e :| 0 <= e < |s.entries| && !NothingIn(req, RequestIndex(s, req), s.now, s.entries[e]);
      var i :| 0 <= i < |s.entries[e]| && Eligible(req, RequestIndex(s, req), s.now, s.entries[e][i]);
    }
  }

  ghost predicate AllSmall(ms: seq<Message>) {
    forall i | 0 <= i < |ms| :: |ms[i].body| <= ALLNET_MTU
  }

  lemma {:induction false} EligibleSmall(req: Request, index: Option<nat>, now: nat, rs: seq<Rec>, n: nat)
    requires n <= |rs| && AllStorable(rs)
    ensures AllSmall(EligibleOf(req, index, now, rs, n))
    decreases n
  {
    hide Eligible;
    if n > 0 {
      EligibleSmall(req, index, now, rs, n - 1);
    }
  }

  lemma {:induction false} AllEligibleSmall(req: Request, index: Option<nat>, now: nat, entries: seq<seq<Rec>>, n: nat)
    requires n <= |entries| && EntriesOk(entries)
    ensures AllSmall(AllEligible(req, index, now, entries, n))
    decreases n
  {
    hide Eligible, TotalSize;
    if n > 0 {
      AllEligibleSmall(req, index, now, entries, n - 1);
      assert EntryOk(entries[n - 1], n - 1, |entries|);
      EligibleSmall(req, index, now, entries[n - 1], |entries[n - 1]|);
    }
  }

  /** With a buffer for one largest message the answer is empty only if nothing is answerable: the memo
      of an empty answer then says what it should. */
  lemma {:induction false} EmptyAnswerMeansNothing(cfg: Config, s: Cache, req: Request, answer: seq<Message>, max: int, bsize: nat)
    requires TablesOk(cfg, s) && IsAnswer(AnswerList(s, req), answer, max, bsize)
    requires bsize >= MESSAGE_STRUCT_SIZE + ALLNET_MTU
    ensures answer == [] <==> !Answerable(s, req)
    ensures !MemoSet(s, req) ==> AfterRequest(s, req) == if answer == [] then Memoized(s, req) else s
  {
    hide AllEligible, EntriesOk, Answerable, Fits;
    ListIffAnswerable(s, req);
    AllEligibleSmall(req, RequestIndex(s, req), s.now, s.entries, |s.entries|);
    var all := AnswerList(s, req);
    if all != [] {
      FirstFits(all, max, bsize);
    }
  }
}
