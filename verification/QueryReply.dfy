/** What a reply to a resource query holds (resource_manager/resource_manager.cpp), by positions in
    the advertisements: node i, its schema j. */
module QueryReply {
  import opened Common
  import opened ResourceQuery
  import opened QueryAnswer

  datatype Position = Position(node: nat, schema: nat)

  predicate Offers(ads: seq<Advertisement>, p: Position) {
    p.node < |ads| && p.schema < |ads[p.node].schemas|
  }

  function ServiceAt(ads: seq<Advertisement>, p: Position): Candidate
    requires Offers(ads, p)
  {
    Candidate(ads[p.node].nodeId, ads[p.node].schemas[p.schema])
  }

  /** By node, and for one node by schema. */
  predicate Before(p: Position, p': Position) {
    p.node < p'.node || (p.node == p'.node && p.schema < p'.schema)
  }

  predicate Increasing(ps: seq<Position>) {
    forall k, l | 0 <= k < l < |ps| :: Before(ps[k], ps[l])
  }

  predicate Matches(e: Expr, ads: seq<Advertisement>, p: Position) {
    Offers(ads, p) && MatchesExpression(e, ServiceAt(ads, p))
  }

  /** cs are the services at the positions ps. */
  predicate Located(ads: seq<Advertisement>, ps: seq<Position>, cs: seq<Candidate>) {
    |ps| == |cs| && forall k | 0 <= k < |ps| :: Offers(ads, ps[k]) && cs[k] == ServiceAt(ads, ps[k])
  }

  /** ps are all the matches among the first n nodes and the first m schemas of node n, in order. */
  ghost predicate AllMatches(e: Expr, ads: seq<Advertisement>, n: nat, m: nat, ps: seq<Position>) {
    && Increasing(ps)
    && forall p :: p in ps <==> Matches(e, ads, p) && (p.node < n || (p.node == n && p.schema < m))
  }

  // ---------------------------------------------------------------- the selected services

  lemma MatchesSnoc(e: Expr, ads: seq<Advertisement>, n: nat, m: nat, ps: seq<Position>, cs: seq<Candidate>)
    requires n < |ads| && m < |ads[n].schemas| && AllMatches(e, ads, n, m, ps) && Located(ads, ps, cs)
    ensures var c := Candidate(ads[n].nodeId, ads[n].schemas[m]);
            var met := MatchesExpression(e, c);
            && AllMatches(e, ads, n, m + 1, ps + (if met then [Position(n, m)] else []))
            && Located(ads, ps + (if met then [Position(n, m)] else []), cs + (if met then [c] else []))
  {
    var p := Position(n, m);
    if MatchesExpression(e, ServiceAt(ads, p)) {
      forall k | 0 <= k < |ps| ensures Before(ps[k], p) {
        assert ps[k] in ps;
      }
    } else {
      assert ps + [] == ps && cs + [] == cs;
    }
  }

  lemma {:induction false} NodeMatches(e: Expr, ads: seq<Advertisement>, n: nat, m: nat, before: seq<Candidate>,
                                       ps: seq<Position>) returns (qs: seq<Position>)
    requires n < |ads| && m <= |ads[n].schemas| && AllMatches(e, ads, n, 0, ps)
    requires Located(ads, ps, Selected(e, before))
    ensures AllMatches(e, ads, n, m, qs) && Located(ads, qs, Selected(e, before + Offered(ads[n], m)))
    decreases m
  {
    if m == 0 {
      qs := ps;
      assert before + [] == before;
    } else {
      var c := Candidate(ads[n].nodeId, ads[n].schemas[m - 1]);
      qs := NodeMatches(e, ads, n, m - 1, before, ps);
      MatchesSnoc(e, ads, n, m - 1, qs, Selected(e, before + Offered(ads[n], m - 1)));
      SelectedNext(e, before, ads[n], m - 1);
      qs := qs + (if MatchesExpression(e, c) then [Position(n, m - 1)] else []);
    }
  }

  lemma NextNode(e: Expr, ads: seq<Advertisement>, n: nat, ps: seq<Position>)
    requires n < |ads| && AllMatches(e, ads, n, |ads[n].schemas|, ps)
    ensures AllMatches(e, ads, n + 1, 0, ps)
  {
  }

  lemma {:induction false} SelectedMatches(e: Expr, ads: seq<Advertisement>, n: nat) returns (ps: seq<Position>)
    requires n <= |ads|
    ensures AllMatches(e, ads, n, 0, ps) && Located(ads, ps, Selected(e, AllOffered(ads[..n])))
    decreases n
  {
    if n == 0 {
      ps := [];
    } else {
      ps := SelectedMatches(e, ads, n - 1);
      ps := NodeMatches(e, ads, n - 1, |ads[n - 1].schemas|, AllOffered(ads[..n - 1]), ps);
      NextNode(e, ads, n - 1, ps);
      assert ads[..n][..n - 1] == ads[..n - 1];
    }
  }

  // ---------------------------------------------------------------- the reply

  /** The reply holds the services at some matching positions, in order, at most maxRecords if that
      is not zero; and a match is missing only if the reply is full and ends before it. */
  ghost predicate FirstMatches(e: Expr, ads: seq<Advertisement>, maxRecords: nat, reply: seq<Candidate>,
                               ps: seq<Position>) {
    && |ps| == |reply| && Increasing(ps)
    && (forall k | 0 <= k < |ps| :: Matches(e, ads, ps[k]) && reply[k] == ServiceAt(ads, ps[k]))
    && (maxRecords > 0 ==> |reply| <= maxRecords)
    && (forall p | Matches(e, ads, p) && p !in ps ::
          maxRecords > 0 && |reply| == maxRecords && forall k | 0 <= k < |ps| :: Before(ps[k], p))
  }

  /** For all queries, advertisements and limits, zero among them. */
  lemma ReplyHoldsFirstMatches(query: string, ads: seq<Advertisement>, maxRecords: nat)
    ensures ParseQuery(query).None? ==> Answer(query, ads, maxRecords).None?
    ensures ParseQuery(query).Some? ==>
              && Answer(query, ads, maxRecords).Some?
              && exists ps ::
                   FirstMatches(ParseQuery(query).value, ads, maxRecords, Answer(query, ads, maxRecords).value, ps)
  {
    if ParseQuery(query).Some? {
      var e, reply := ParseQuery(query).value, Answer(query, ads, maxRecords).value;
      var all := SelectedMatches(e, ads, |ads|);
      assert ads[..|ads|] == ads;
      var ps := all[..|reply|];
      forall k | 0 <= k < |ps| ensures Matches(e, ads, ps[k]) && reply[k] == ServiceAt(ads, ps[k]) {
        assert all[k] in all;
      }
      forall p | Matches(e, ads, p) && p !in ps
        ensures maxRecords > 0 && |reply| == maxRecords && forall k | 0 <= k < |ps| :: Before(ps[k], p)
      {
        assert p in all;
        var i :| 0 <= i < |all| && all[i] == p;
        assert i >= |ps| by { assert forall k | 0 <= k < |ps| :: ps[k] in ps; }
      }
      assert FirstMatches(e, ads, maxRecords, reply, ps);
    }
  }
}
