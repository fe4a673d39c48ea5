/** Which records a data request can be answered with, and in which order. */
module AnswerPlaces {
  import opened Answers
  import opened PcacheInvariants
  import opened PcacheModel
  import opened Packets
  import opened Records

  /** A record of the table: its entry and its number there. */
  type Place = (nat, nat)

  ghost predicate IsPlace(s: Cache, p: Place) {
    p.0 < |s.entries| && p.1 < |s.entries[p.0]|
  }

  function At(s: Cache, p: Place): (r: Rec)
    requires IsPlace(s, p)
  {
    s.entries[p.0][p.1]
  }

  /** The record matches, has not expired, and was not sent to the token, unless that is the token of zeros. */
  ghost predicate ToBeGiven(s: Cache, req: Request, r: Rec) {
    && req.matches(r.body) && !Expired(r.body, s.now)
    && ((forall i | 0 <= i < 16 :: req.token[i] == 0)
        || forall i | 0 <= i < |s.tokens| && s.tokens[i] == req.token :: i !in r.sent)
  }

  predicate PlaceBefore(p: Place, q: Place) {
    p.0 < q.0 || (p.0 == q.0 && p.1 < q.1)
  }

  ghost predicate InTableOrder(places: seq<Place>) {
    forall i, j | 0 <= i < j < |places| :: PlaceBefore(places[i], places[j])
  }

  lemma {:induction false} GivenIff(cfg: Config, s: Cache, req: Request, r: Rec)
    requires TablesOk(cfg, s)
    ensures Eligible(req, RequestIndex(s, req), s.now, r) <==> ToBeGiven(s, req, r)
  {
    hide EntriesOk, AcksOk, Expired;
    assert req.token == NO_TOKEN <==> forall i | 0 <= i < 16 :: req.token[i] == 0;
    var n := RequestIndex(s, req);
    assert n.Some? ==> forall i | 0 <= i < |s.tokens| && s.tokens[i] == req.token :: i == n.value;
  }

  /** The places of an answer: the messages are those at the places, which are in table order. */
  ghost predicate Places(s: Cache, ms: seq<Message>, places: seq<Place>) {
    && |ms| == |places| && InTableOrder(places)
    && forall j | 0 <= j < |places| :: IsPlace(s, places[j]) && ms[j] == Message(At(s, places[j]).body, At(s, places[j]).priority)
  }

  /** The places lie before a place, and are all those before it that are to be given. */
  ghost predicate AllBefore(s: Cache, req: Request, places: seq<Place>, e: nat, k: nat) {
    forall p: Place :: p in places <==> IsPlace(s, p) && PlaceBefore(p, (e, k)) && ToBeGiven(s, req, At(s, p))
  }

  /** The scan up to a place. */
  function Upto(s: Cache, req: Request, e: nat, k: nat): (ms: seq<Message>)
    requires e < |s.entries| && k <= |s.entries[e]|
  {
    AllEligible(req, RequestIndex(s, req), s.now, s.entries, e) + EligibleOf(req, RequestIndex(s, req), s.now, s.entries[e], k)
  }

  lemma {:induction false} PlacesUpto(cfg: Config, s: Cache, req: Request, e: nat, k: nat) returns (places: seq<Place>)
    requires TablesOk(cfg, s) && e < |s.entries| && k <= |s.entries[e]|
    ensures Places(s, Upto(s, req, e, k), places) && AllBefore(s, req, places, e, k)
    decreases e, k
  {
    hide TablesOk, Eligible, ToBeGiven;
    if k > 0 {
      var before := PlacesUpto(cfg, s, req, e, k - 1);
      var p: Place, r := (e, k - 1), s.entries[e][k - 1];
      GivenIff(cfg, s, req, r);
      if ToBeGiven(s, req, r) {
        places := before + [p];
        assert Upto(s, req, e, k) == Upto(s, req, e, k - 1) + [Message(r.body, r.priority)];
      } else {
        places := before;
        assert Upto(s, req, e, k) == Upto(s, req, e, k - 1);
      }
      NextPlace(s, req, before, places, e, k - 1);
    } else if e > 0 {
      places := PlacesUpto(cfg, s, req, e - 1, |s.entries[e - 1]|);
      assert Upto(s, req, e, 0) == Upto(s, req, e - 1, |s.entries[e - 1]|);
    } else {
      places := [];
      assert Upto(s, req, 0, 0) == [];
    }
  }

  lemma {:induction false} NextPlace(s: Cache, req: Request, before: seq<Place>, places: seq<Place>, e: nat, k: nat)
    requires e < |s.entries| && k < |s.entries[e]| && AllBefore(s, req, before, e, k) && InTableOrder(before)
    requires places == if ToBeGiven(s, req, s.entries[e][k]) then before + [(e, k)] else before
    ensures AllBefore(s, req, places, e, k + 1) && InTableOrder(places)
  {
    hide ToBeGiven;
    forall i | 0 <= i < |before| ensures PlaceBefore(before[i], (e, k)) {
      assert before[i] in before;
    }
  }

  /** The list that answers are cut from has one message for every record of the table that is to be given, in the order
      of the table, with its bytes and its priority. */
  lemma {:induction false} AnswersAreAllGiven(cfg: Config, s: Cache, req: Request) returns (places: seq<Place>)
    requires TablesOk(cfg, s)
    ensures Places(s, AnswerList(s, req), places)
    ensures forall p: Place :: p in places <==> IsPlace(s, p) && ToBeGiven(s, req, At(s, p))
  {
    hide EntriesOk, AcksOk, Eligible, ToBeGiven;
    var e := |s.entries| - 1;
    places := PlacesUpto(cfg, s, req, e, |s.entries[e]|);
    assert Upto(s, req, e, |s.entries[e]|) == AnswerList(s, req);
  }
}
