/** Evaluating resource queries and answering them (resource_manager/resource_manager.cpp). */
module QueryAnswer {
  import opened Common
  import opened ErdText
  import opened ResourceQuery
  import opened QueryParser

  datatype Schema = Schema(protoFileName: string, hash: Bytes, version: nat, acceptedTypeUrls: seq<string>)

  datatype Candidate = Candidate(nodeId: Uuid, schema: Schema)

  // ---------------------------------------------------------------- evaluation

  predicate TextMatches(actual: string, operator: Operator, expected: string) {
    match operator case Equal => actual == expected case NotEqual => actual != expected case Has => false
  }

  predicate NumberMatches(actual: nat, operator: Operator, expected: nat) {
    match operator case Equal => actual == expected case NotEqual => actual != expected case Has => false
  }

  predicate MatchesComparison(field: string, operator: Operator, literal: Literal, c: Candidate) {
    if field == "node.id" then literal.Text? && TextMatches(UuidText(c.nodeId, ""), operator, literal.text)
    else if field == "service.proto_file_name" then
      literal.Text? && TextMatches(c.schema.protoFileName, operator, literal.text)
    else if field == "service.schema_hash" then
      literal.Text? && TextMatches(HexText(c.schema.hash, ""), operator, literal.text)
    else if field == "service.schema_version" then
      literal.Integer? && NumberMatches(c.schema.version, operator, literal.number)
    else if field == "service.accepted_type_urls" then
      literal.Text? && (if operator == NotEqual then literal.text !in c.schema.acceptedTypeUrls
                        else literal.text in c.schema.acceptedTypeUrls)
    else false
  }

  predicate MatchesExpression(e: Expr, c: Candidate) {
    match e
    case Empty => true
    case Comparison(field, operator, literal) => MatchesComparison(field, operator, literal, c)
    case And(l, r) => MatchesExpression(l, c) && MatchesExpression(r, c)
    case Or(l, r) => MatchesExpression(l, c) || MatchesExpression(r, c)
    case Not(x) => !MatchesExpression(x, c)
  }

  /** What a field of a candidate holds: one or several literals of one kind. */
  datatype Attribute = One(literal: Literal) | Many(literals: seq<string>)

  function AttributeOf(field: string, c: Candidate): Option<Attribute> {
    if field == "node.id" then Some(One(Text(UuidText(c.nodeId, ""))))
    else if field == "service.proto_file_name" then Some(One(Text(c.schema.protoFileName)))
    else if field == "service.schema_hash" then Some(One(Text(HexText(c.schema.hash, ""))))
    else if field == "service.schema_version" then Some(One(Integer(c.schema.version)))
    else if field == "service.accepted_type_urls" then Some(Many(c.schema.acceptedTypeUrls))
    else None
  }

  predicate Holds(a: Attribute, l: Literal) {
    match a
    case One(literal) => literal == l
    case Many(literals) => l.Text? && l.text in literals
  }

  predicate SameKind(a: Attribute, l: Literal) {
    match a
    case One(literal) => literal.Text? == l.Text?
    case Many(_) => l.Text?
  }

  /** A comparison selects a candidate exactly when the field exists, the literal is of its kind,
      and the field holds it (=, and HAS for repeated fields) or does not hold it (!=). So
      on a known field of the right kind != is the complement of =, and elsewhere both are
      false. */
  lemma ComparisonMeaning(field: string, operator: Operator, literal: Literal, c: Candidate)
    ensures MatchesComparison(field, operator, literal, c) <==>
            && AttributeOf(field, c).Some? && SameKind(AttributeOf(field, c).value, literal)
            && match operator
               case Equal => Holds(AttributeOf(field, c).value, literal)
               case NotEqual => !Holds(AttributeOf(field, c).value, literal)
               case Has => AttributeOf(field, c).value.Many? && Holds(AttributeOf(field, c).value, literal)
  {
  }

  // ---------------------------------------------------------------- answering

  datatype Advertisement = Advertisement(nodeId: Uuid, schemas: seq<Schema>)

  /** The advertised schemas of one node, and of all nodes, in order. */
  function Offered(ad: Advertisement, n: nat): seq<Candidate>
    requires n <= |ad.schemas|
  {
    if n == 0 then [] else Offered(ad, n - 1) + [Candidate(ad.nodeId, ad.schemas[n - 1])]
  }

  function AllOffered(ads: seq<Advertisement>): seq<Candidate> {
    if ads == [] then [] else AllOffered(ads[..|ads| - 1]) + Offered(ads[|ads| - 1], |ads[|ads| - 1].schemas|)
  }

  function Selected(e: Expr, cs: seq<Candidate>): seq<Candidate> {
    if cs == [] then []
    else Selected(e, cs[..|cs| - 1]) + (if MatchesExpression(e, cs[|cs| - 1]) then [cs[|cs| - 1]] else [])
  }

  /** The first so many; zero means no limit. */
  function Limited(cs: seq<Candidate>, maxRecords: nat): seq<Candidate> {
    if maxRecords == 0 || |cs| <= maxRecords then cs else cs[..maxRecords]
  }

  /** The reply to a query: the first matching services in order, or none if it does not parse. */
  function Answer(query: string, ads: seq<Advertisement>, maxRecords: nat): Option<seq<Candidate>> {
    match ParseQuery(query)
    case None => None
    case Some(e) => Some(Limited(Selected(e, AllOffered(ads)), maxRecords))
  }

  lemma SelectedSnoc(e: Expr, cs: seq<Candidate>, c: Candidate)
    ensures Selected(e, cs + [c]) == Selected(e, cs) + (if MatchesExpression(e, c) then [c] else [])
  {
    assert (cs + [c])[..|cs|] == cs;
  }

  lemma {:induction false} SelectedAppend(e: Expr, cs: seq<Candidate>, ds: seq<Candidate>)
    ensures Selected(e, cs + ds) == Selected(e, cs) + Selected(e, ds)
  {
    if ds == [] {
      assert cs + ds == cs;
    } else {
      SelectedAppend(e, cs, ds[..|ds| - 1]);
      assert cs + ds == (cs + ds[..|ds| - 1]) + [ds[|ds| - 1]];
      SelectedSnoc(e, cs + ds[..|ds| - 1], ds[|ds| - 1]);
    }
  }

  /** Expressions that match the same candidates select the same ones. */
  lemma {:induction false} SelectedSame(e: Expr, f: Expr, cs: seq<Candidate>)
    requires forall c | c in cs :: MatchesExpression(e, c) == MatchesExpression(f, c)
    ensures Selected(e, cs) == Selected(f, cs)
  {
    if cs != [] { SelectedSame(e, f, cs[..|cs| - 1]); }
  }

  lemma Connectives(l: Expr, r: Expr, c: Candidate)
    ensures MatchesExpression(Not(Not(l)), c) == MatchesExpression(l, c)
    ensures MatchesExpression(Not(And(l, r)), c) == MatchesExpression(Or(Not(l), Not(r)), c)
    ensures MatchesExpression(Not(Or(l, r)), c) == MatchesExpression(And(Not(l), Not(r)), c)
    ensures MatchesExpression(And(Empty, l), c) == MatchesExpression(And(l, Empty), c) == MatchesExpression(l, c)
  {
  }

  /** The connectives are Boolean: NOT is an involution that swaps AND and OR, and the empty
      query is the neutral element of AND. Rewriting a query by these laws leaves its answer
      the same, entry by entry. */
  lemma BooleanLaws(l: Expr, r: Expr, cs: seq<Candidate>)
    ensures Selected(Not(Not(l)), cs) == Selected(l, cs)
    ensures Selected(Not(And(l, r)), cs) == Selected(Or(Not(l), Not(r)), cs)
    ensures Selected(Not(Or(l, r)), cs) == Selected(And(Not(l), Not(r)), cs)
    ensures Selected(And(Empty, l), cs) == Selected(And(l, Empty), cs) == Selected(l, cs)
  {
    forall c { Connectives(l, r, c); }
    SelectedSame(Not(Not(l)), l, cs);
    SelectedSame(Not(And(l, r)), Or(Not(l), Not(r)), cs);
    SelectedSame(Not(Or(l, r)), And(Not(l), Not(r)), cs);
    SelectedSame(And(Empty, l), l, cs);
    SelectedSame(And(l, Empty), l, cs);
  }

  /** AND selects from what one side selected. */
  lemma {:induction false} AndSelectsTwice(l: Expr, r: Expr, cs: seq<Candidate>)
    ensures Selected(And(l, r), cs) == Selected(l, Selected(r, cs))
  {
    if cs != [] {
      var before, c := cs[..|cs| - 1], cs[|cs| - 1];
      AndSelectsTwice(l, r, before);
      if MatchesExpression(r, c) {
        SelectedSnoc(l, Selected(r, before), c);
      } else {
        assert Selected(r, cs) == Selected(r, before);
      }
    }
  }

  /** NOT selects exactly what is left. */
  lemma {:induction false} NotSelectsTheRest(e: Expr, cs: seq<Candidate>)
    ensures multiset(Selected(e, cs)) + multiset(Selected(Not(e), cs)) == multiset(cs)
  {
    if cs != [] {
      NotSelectsTheRest(e, cs[..|cs| - 1]);
      assert cs == cs[..|cs| - 1] + [cs[|cs| - 1]];
    }
  }

  /** Stopping at the limit loses nothing: more candidates do not change the first ones. */
  lemma EnoughSelected(e: Expr, cs: seq<Candidate>, ds: seq<Candidate>, maxRecords: nat)
    requires maxRecords > 0 && |Selected(e, cs)| == maxRecords
    ensures Limited(Selected(e, cs + ds), maxRecords) == Selected(e, cs)
  {
    SelectedAppend(e, cs, ds);
    assert (Selected(e, cs) + Selected(e, ds))[..maxRecords] == Selected(e, cs);
  }

  lemma {:induction false} OfferedSplit(ad: Advertisement, n: nat)
    requires n <= |ad.schemas|
    ensures exists ds :: Offered(ad, |ad.schemas|) == Offered(ad, n) + ds
    decreases |ad.schemas| - n
  {
    if n == |ad.schemas| {
      assert Offered(ad, n) == Offered(ad, n) + [];
    } else {
      OfferedSplit(ad, n + 1);
      var ds :| Offered(ad, |ad.schemas|) == Offered(ad, n + 1) + ds;
      var c := [Candidate(ad.nodeId, ad.schemas[n])];
      assert Offered(ad, n) + (c + ds) == Offered(ad, n) + c + ds;
    }
  }

  lemma SelectedNext(e: Expr, before: seq<Candidate>, ad: Advertisement, i: nat)
    requires i < |ad.schemas|
    ensures var c := Candidate(ad.nodeId, ad.schemas[i]);
            Selected(e, before + Offered(ad, i + 1))
            == Selected(e, before + Offered(ad, i)) + (if MatchesExpression(e, c) then [c] else [])
  {
    var c := Candidate(ad.nodeId, ad.schemas[i]);
    SelectedSnoc(e, before + Offered(ad, i), c);
    assert (before + Offered(ad, i)) + [c] == before + Offered(ad, i + 1);
  }

  lemma StopsEarly(e: Expr, before: seq<Candidate>, ad: Advertisement, n: nat, maxRecords: nat)
    requires n <= |ad.schemas| && maxRecords > 0 && |Selected(e, before + Offered(ad, n))| == maxRecords
    ensures Limited(Selected(e, before + Offered(ad, |ad.schemas|)), maxRecords) == Selected(e, before + Offered(ad, n))
  {
    OfferedSplit(ad, n);
    var rest :| Offered(ad, |ad.schemas|) == Offered(ad, n) + rest;
    assert before + Offered(ad, |ad.schemas|) == (before + Offered(ad, n)) + rest;
    EnoughSelected(e, before + Offered(ad, n), rest, maxRecords);
  }

  /** Runs over one node's schemas, appending matches until the limit is reached. */
  method AddServices(e: Expr, ad: Advertisement, maxRecords: nat, found: seq<Candidate>, ghost before: seq<Candidate>)
    returns (services: seq<Candidate>)
    requires found == Selected(e, before) && (maxRecords == 0 || |found| < maxRecords)
    ensures services == Limited(Selected(e, before + Offered(ad, |ad.schemas|)), maxRecords)
  {
    services := found;
    assert before + [] == before;
    for i := 0 to |ad.schemas|
      invariant services == Selected(e, before + Offered(ad, i))
      invariant maxRecords == 0 || |services| < maxRecords
    {
      SelectedNext(e, before, ad, i);
      var c := Candidate(ad.nodeId, ad.schemas[i]);
      if MatchesExpression(e, c) {
        services := services + [c];
        if maxRecords > 0 && |services| >= maxRecords {
          StopsEarly(e, before, ad, i + 1, maxRecords);
          return;
        }
      } else {
        assert services + [] == services;
      }
    }
  }

  /** Answers a query over all advertisements, stopping as soon as the limit is reached. */
  method AnswerQuery(query: string, ads: seq<Advertisement>, maxRecords: nat) returns (reply: Option<seq<Candidate>>)
    ensures reply == Answer(query, ads, maxRecords)
  {
    var parsed := ParseQueryExpression(query);
    if parsed.None? {
      return None;
    }
    var e := parsed.value;
    var services: seq<Candidate> := [];
    for i := 0 to |ads|
      invariant services == Selected(e, AllOffered(ads[..i]))
      invariant maxRecords == 0 || |services| < maxRecords
    {
      ghost var before := AllOffered(ads[..i]);
      assert ads[..i + 1][..i] == ads[..i];
      services := AddServices(e, ads[i], maxRecords, services, before);
      if maxRecords > 0 && |services| >= maxRecords {
        LimitReached(e, ads, i + 1, maxRecords);
        return Some(services);
      }
    }
    assert ads[..|ads|] == ads;
    return Some(services);
  }

  lemma {:induction false} AllOfferedSplit(ads: seq<Advertisement>, n: nat)
    requires n <= |ads|
    ensures exists ds :: AllOffered(ads) == AllOffered(ads[..n]) + ds
    decreases |ads|
  {
    if n == |ads| {
      assert ads[..n] == ads && AllOffered(ads) == AllOffered(ads[..n]) + [];
    } else {
      var init, last := ads[..|ads| - 1], Offered(ads[|ads| - 1], |ads[|ads| - 1].schemas|);
      AllOfferedSplit(init, n);
      assert init[..n] == ads[..n];
      var ds :| AllOffered(init) == AllOffered(ads[..n]) + ds;
      assert AllOffered(ads[..n]) + (ds + last) == AllOffered(ads[..n]) + ds + last;
    }
  }

  lemma LimitReached(e: Expr, ads: seq<Advertisement>, n: nat, maxRecords: nat)
    requires n <= |ads| && maxRecords > 0 && |Limited(Selected(e, AllOffered(ads[..n])), maxRecords)| == maxRecords
    ensures Limited(Selected(e, AllOffered(ads)), maxRecords) == Limited(Selected(e, AllOffered(ads[..n])), maxRecords)
  {
    AllOfferedSplit(ads, n);
    var ds :| AllOffered(ads) == AllOffered(ads[..n]) + ds;
    SelectedAppend(e, AllOffered(ads[..n]), ds);
    var all, some := Selected(e, AllOffered(ads)), Selected(e, AllOffered(ads[..n]));
    assert all[..maxRecords] == some[..maxRecords];
  }

  /** What a client asks is what it gets: the query printed from an expression is answered by
      the first services that satisfy that expression. */
  lemma AskedIsAnswered(e: Expr, gap: string, ads: seq<Advertisement>, maxRecords: nat)
    requires (Printable(e) || e == Empty) && IsGap(gap)
    ensures Answer(QueryText(e, gap), ads, maxRecords) == Some(Limited(Selected(e, AllOffered(ads)), maxRecords))
  {
    QueryRoundTrip(e, gap);
  }

  /** Selection keeps exactly the satisfying candidates. */
  lemma {:induction false} SelectedMeaning(e: Expr, cs: seq<Candidate>, c: Candidate)
    ensures c in Selected(e, cs) <==> c in cs && MatchesExpression(e, c)
    ensures multiset(Selected(e, cs))[c] == if MatchesExpression(e, c) then multiset(cs)[c] else 0
  {
    if cs != [] {
      SelectedMeaning(e, cs[..|cs| - 1], c);
      assert cs == cs[..|cs| - 1] + [cs[|cs| - 1]];
    }
  }
}
