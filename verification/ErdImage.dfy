/** What the requirement-tree parser can return (common/endorsement/endorsement_text.cpp): every
    tree it returns is printable, unless a literal above the signed range wrapped to the least
    64-bit integer. So printing a parsed tree and parsing it again changes nothing. */
module ErdImage {
  import opened Common
  import opened ErdTree
  import opened ErdText
  import opened ErdRoundTrip
  import opened ErdLocality
  import opened ErdSplice

  const LEAST_INT64: int := -(TWO_64 / 2)

  predicate MinFreeValue(v: Option<FieldValue>) {
    v != Some(IntValue(LEAST_INT64))
  }

  predicate MinFreeMes(t: MesTree) {
    match t
    case MesEquals(l, r) => (l.Some? ==> MinFreeMes(l.value)) && (r.Some? ==> MinFreeMes(r.value))
    case MesAnd(l, r) => (l.Some? ==> MinFreeMes(l.value)) && (r.Some? ==> MinFreeMes(r.value))
    case MesOr(l, r) => (l.Some? ==> MinFreeMes(l.value)) && (r.Some? ==> MinFreeMes(r.value))
    case MesAllOf(ts) => forall u | u in ts :: MinFreeMes(u)
    case MesAnyOf(ts) => forall u | u in ts :: MinFreeMes(u)
    case FieldEquals(_, value) => MinFreeValue(value)
    case FieldContains(_, _, value) => MinFreeValue(value)
    case _ => true
  }

  /** No message predicate in t compares with the least 64-bit integer. */
  predicate MinFree(t: Tree) {
    match t
    case Equals(l, r) => (l.Some? ==> MinFree(l.value)) && (r.Some? ==> MinFree(r.value))
    case And(l, r) => (l.Some? ==> MinFree(l.value)) && (r.Some? ==> MinFree(r.value))
    case Or(l, r) => (l.Some? ==> MinFree(l.value)) && (r.Some? ==> MinFree(r.value))
    case AllOf(ts) => forall u | u in ts :: MinFree(u)
    case AnyOf(ts) => forall u | u in ts :: MinFree(u)
    case MessageLeaf(c) => c.Some? ==> MinFreeMes(c.value)
    case _ => true
  }

  // ---------------------------------------------------------------- literals

  predicate SegmentChars(s: string) {
    forall c | c in s :: c != '.' && !EndsPath(c)
  }

  /** Segments come out non-empty and without delimiters, the first one starting where the
      reading started. */
  lemma {:induction false} PathLoopImage(s: string, done: FieldPath, segment: string)
    requires ReadPath(s, done, segment).Ok?
    requires (forall seg | seg in done :: PrintableSegment(seg)) && SegmentChars(segment)
    ensures var path := ReadPath(s, done, segment).value;
            && path != [] && (forall seg | seg in path :: PrintableSegment(seg))
            && (done != [] ==> path[0] == done[0])
            && (done == [] && segment != "" ==> path[0] != "" && path[0][0] == segment[0])
            && (done == [] && segment == "" ==> s != "" && path[0] != "" && path[0][0] == s[0])
    decreases |s|
  {
    if s != "" && !EndsPath(s[0]) {
      if s[0] == '.' {
        PathLoopImage(s[1..], done + [segment], "");
      } else {
        PathLoopImage(s[1..], done, segment + [s[0]]);
      }
    }
  }

  lemma PathImage(s: string)
    requires ParsePath(s).Ok?
    ensures PrintablePath(ParsePath(s).value)
  {
    PathLoopImage(SkipWs(s), [], "");
    var path := ParsePath(s).value;
    assert path[0] in path;
  }

  lemma {:induction false} QuotedImage(s: string)
    requires ReadQuoted(s).Ok?
    ensures '"' !in ReadQuoted(s).value
  {
    if s[0] != '"' { QuotedImage(s[1..]); }
  }

  lemma NumberImage(s: string)
    requires ParseNumber(s).Ok? && ParseNumber(s).value != IntValue(LEAST_INT64)
    ensures PrintableValue(ParseNumber(s).value)
  {
  }

  lemma ValueImage(s: string)
    requires ParseValue(s).Ok? && MinFreeValue(Some(ParseValue(s).value))
    ensures PrintableValue(ParseValue(s).value)
  {
    var u := SkipWs(s);
    ValueByKind(s);
    match KindOf(u)
    case Quote => QuotedImage(u[1..]);
    case Number => NumberImage(u);
    case _ =>
  }

  // ---------------------------------------------------------------- leaves

  lemma IdLeafImage(s: string, path: FieldPath)
    requires ParseIdLeaf(s, path).Ok? && (path == DESTINATION_PATH || path == SOURCE_PATH)
    ensures PrintableMes(ParseIdLeaf(s, path).value)
  {
    KnownPaths();
  }

  lemma KnownPaths()
    ensures PrintablePath(DESTINATION_PATH) && PrintablePath(SOURCE_PATH)
  {
    assert forall seg | seg in DESTINATION_PATH + SOURCE_PATH :: PrintableSegment(seg);
  }

  lemma FieldEqImage(s: string)
    requires ParseFieldEq(s).Ok? && MinFreeMes(ParseFieldEq(s).value)
    ensures PrintableMes(ParseFieldEq(s).value)
  {
    PathImage(s);
    ValueImage(Expect(SkipWs(ParsePath(s).rest), ',').rest);
  }

  lemma FieldContainsImage(s: string)
    requires ParseFieldContains(s).Ok? && MinFreeMes(ParseFieldContains(s).value)
    ensures PrintableMes(ParseFieldContains(s).value)
  {
    var s2 := Expect(SkipWs(ParsePath(s).rest), ',').rest;
    PathImage(s);
    PathImage(s2);
    ValueImage(Expect(SkipWs(ParsePath(s2).rest), ',').rest);
  }

  // ---------------------------------------------------------------- the three grammars

  lemma {:induction false} EndImage(s: string)
    requires ParseEnd(s).Ok?
    ensures PrintableEnd(ParseEnd(s).value)
    decreases |s|, 0
  {
    var u := SkipWs(s);
    var h := EndHead(u);
    EndBodyImage(h, u[Skip(h)..]);
  }

  lemma {:induction false} EndBodyImage(h: Head, body: string)
    requires ParseEndBody(h, body).Ok?
    ensures PrintableEnd(ParseEndBody(h, body).value)
    decreases |body|, 3
  {
    match h
    case HAnd => EndPairImage(body);
    case HOr => EndPairImage(body);
    case HEq => EndPairImage(body);
    case HAllOf => EndArgsImage(body);
    case HAnyOf => EndArgsImage(body);
    case _ =>
  }

  lemma {:induction false} EndPairImage(s: string)
    requires ParseEndPair(s).Ok?
    ensures PrintableEnd(ParseEndPair(s).value.0) && PrintableEnd(ParseEndPair(s).value.1)
    decreases |s|, 1
  {
    var s1 := Expect(s, '(').rest;
    EndImage(s1);
    EndImage(Expect(SkipWs(ParseEnd(s1).rest), ',').rest);
  }

  lemma {:induction false} EndArgsImage(s: string)
    requires ParseEndArgs(s).Ok?
    ensures forall t | t in ParseEndArgs(s).value :: PrintableEnd(t)
    decreases |s|, 2
  {
    var u := SkipWs(Expect(s, '(').rest);
    if !(u != "" && u[0] == ')') { EndTermsImage(u); }
  }

  lemma {:induction false} EndTermsImage(s: string)
    requires ParseEndTerms(s).Ok?
    ensures forall t | t in ParseEndTerms(s).value :: PrintableEnd(t)
    decreases |s|, 1
  {
    var u := SkipWs(ParseEnd(s).rest);
    assert ParseEnd(s).value in ParseEndTerms(s).value;
    EndImage(s);
    if u != "" && u[0] == ',' {
      assert ParseEndTerms(s).value == [ParseEnd(s).value] + ParseEndTerms(u[1..]).value;
      EndTermsImage(u[1..]);
    }
  }

  lemma {:induction false} MesImage(s: string)
    requires ParseMes(s).Ok? && MinFreeMes(ParseMes(s).value)
    ensures PrintableMes(ParseMes(s).value)
    decreases |s|, 0
  {
    var u := SkipWs(s);
    var h := MesHead(u);
    MesBodyImage(h, u[Skip(h)..]);
  }

  lemma {:induction false} MesBodyImage(h: Head, body: string)
    requires ParseMesBody(h, body).Ok? && MinFreeMes(ParseMesBody(h, body).value)
    ensures PrintableMes(ParseMesBody(h, body).value)
    decreases |body|, 3
  {
    match h
    case HAnd => MesPairImage(body);
    case HOr => MesPairImage(body);
    case HEq => MesPairImage(body);
    case HAllOf => MesArgsImage(body);
    case HAnyOf => MesArgsImage(body);
    case HDestination => IdLeafImage(body, DESTINATION_PATH);
    case HSource => IdLeafImage(body, SOURCE_PATH);
    case HFieldEq => FieldEqImage(body);
    case HFieldExists => PathImage(body);
    case HFieldContains => FieldContainsImage(body);
    case _ =>
  }

  lemma {:induction false} MesPairImage(s: string)
    requires ParseMesPair(s).Ok? && MinFreeMes(ParseMesPair(s).value.0) && MinFreeMes(ParseMesPair(s).value.1)
    ensures PrintableMes(ParseMesPair(s).value.0) && PrintableMes(ParseMesPair(s).value.1)
    decreases |s|, 1
  {
    var s1 := Expect(s, '(').rest;
    MesImage(s1);
    MesImage(Expect(SkipWs(ParseMes(s1).rest), ',').rest);
  }

  lemma {:induction false} MesArgsImage(s: string)
    requires ParseMesArgs(s).Ok? && (forall t | t in ParseMesArgs(s).value :: MinFreeMes(t))
    ensures forall t | t in ParseMesArgs(s).value :: PrintableMes(t)
    decreases |s|, 2
  {
    var u := SkipWs(Expect(s, '(').rest);
    if !(u != "" && u[0] == ')') { MesTermsImage(u); }
  }

  lemma {:induction false} MesTermsImage(s: string)
    requires ParseMesTerms(s).Ok? && (forall t | t in ParseMesTerms(s).value :: MinFreeMes(t))
    ensures forall t | t in ParseMesTerms(s).value :: PrintableMes(t)
    decreases |s|, 1
  {
    var u := SkipWs(ParseMes(s).rest);
    assert ParseMes(s).value in ParseMesTerms(s).value;
    MesImage(s);
    if u != "" && u[0] == ',' {
      assert ParseMesTerms(s).value == [ParseMes(s).value] + ParseMesTerms(u[1..]).value;
      MesTermsImage(u[1..]);
    }
  }

  lemma LeafImage(h: Head, body: string)
    requires ParseLeaf(h, body).Ok? && MinFree(ParseLeaf(h, body).value)
    ensures Printable(ParseLeaf(h, body).value)
  {
    match h
    case HEndorsement => EndImage(SkipWs(body));
    case HMessage => MesImage(SkipWs(body));
    case HDestination => IdLeafImage(body, DESTINATION_PATH);
    case HSource => IdLeafImage(body, SOURCE_PATH);
    case _ =>
  }

  /** Variables are printable, as far as no literal wrapped to the least 64-bit integer. */
  predicate Sound(vars: Variables) {
    vars.Some? ==> forall name | name in vars.value :: MinFree(vars.value[name]) ==> Printable(vars.value[name])
  }

  lemma {:induction false} TreeImage(s: string, vars: Variables)
    requires ParseTree(s, vars).Ok? && MinFree(ParseTree(s, vars).value) && Sound(vars)
    ensures Printable(ParseTree(s, vars).value)
    decreases |s|, 0
  {
    var u := SkipWs(s);
    var h := TreeHead(u);
    TreeBodyImage(h, u[Skip(h)..], vars);
  }

  lemma {:induction false} TreeBodyImage(h: Head, body: string, vars: Variables)
    requires ParseTreeBody(h, body, vars).Ok? && MinFree(ParseTreeBody(h, body, vars).value) && Sound(vars)
    ensures Printable(ParseTreeBody(h, body, vars).value)
    decreases |body|, 4
  {
    match h
    case HAnd => PairBodyImage(h, body, vars);
    case HOr => PairBodyImage(h, body, vars);
    case HEq => PairBodyImage(h, body, vars);
    case HAllOf => TreeArgsImage(body, vars);
    case HAnyOf => TreeArgsImage(body, vars);
    case HRef => ReferenceImage(body, vars);
    case _ => LeafBodyImage(h, body, vars);
  }

  lemma {:induction false} PairBodyImage(h: Head, body: string, vars: Variables)
    requires h == HAnd || h == HOr || h == HEq
    requires ParseTreeBody(h, body, vars).Ok? && MinFree(ParseTreeBody(h, body, vars).value) && Sound(vars)
    ensures Printable(ParseTreeBody(h, body, vars).value)
    decreases |body|, 3
  {
    TreePairImage(body, vars);
  }

  lemma LeafBodyImage(h: Head, body: string, vars: Variables)
    requires h != HAnd && h != HOr && h != HEq && h != HAllOf && h != HAnyOf && h != HRef
    requires ParseTreeBody(h, body, vars).Ok? && MinFree(ParseTreeBody(h, body, vars).value)
    ensures Printable(ParseTreeBody(h, body, vars).value)
  {
    match h
    case HEndorsement => LeafImage(h, body);
    case HType => LeafImage(h, body);
    case HValue => LeafImage(h, body);
    case HSigner => LeafImage(h, body);
    case HMessage => LeafImage(h, body);
    case HDestination => LeafImage(h, body);
    case HSource => LeafImage(h, body);
    case _ =>
  }

  lemma {:induction false} TreePairImage(s: string, vars: Variables)
    requires ParsePair(s, vars).Ok? && MinFree(ParsePair(s, vars).value.0) && MinFree(ParsePair(s, vars).value.1)
    requires Sound(vars)
    ensures Printable(ParsePair(s, vars).value.0) && Printable(ParsePair(s, vars).value.1)
    decreases |s|, 1
  {
    var s1 := Expect(s, '(').rest;
    TreeImage(s1, vars);
    TreeImage(Expect(SkipWs(ParseTree(s1, vars).rest), ',').rest, vars);
  }

  lemma {:induction false} TreeArgsImage(s: string, vars: Variables)
    requires ParseArgs(s, vars).Ok? && (forall t | t in ParseArgs(s, vars).value :: MinFree(t)) && Sound(vars)
    ensures forall t | t in ParseArgs(s, vars).value :: Printable(t)
    decreases |s|, 2
  {
    var u := SkipWs(Expect(s, '(').rest);
    if !(u != "" && u[0] == ')') { TreeTermsImage(u, vars); }
  }

  lemma {:induction false} TreeTermsImage(s: string, vars: Variables)
    requires ParseTerms(s, vars).Ok? && (forall t | t in ParseTerms(s, vars).value :: MinFree(t)) && Sound(vars)
    ensures forall t | t in ParseTerms(s, vars).value :: Printable(t)
    decreases |s|, 1
  {
    var u := SkipWs(ParseTree(s, vars).rest);
    assert ParseTree(s, vars).value in ParseTerms(s, vars).value;
    TreeImage(s, vars);
    if u != "" && u[0] == ',' {
      assert ParseTerms(s, vars).value == [ParseTree(s, vars).value] + ParseTerms(u[1..], vars).value;
      TreeTermsImage(u[1..], vars);
    }
  }

  lemma ReferenceImage(body: string, vars: Variables)
    requires ParseReference(body, vars).Ok? && MinFree(ParseReference(body, vars).value) && Sound(vars)
    ensures Printable(ParseReference(body, vars).value)
  {
    assert ReadName(body).value in vars.value;
  }

  // ---------------------------------------------------------------- results

  /** Every parsed tree but the blank one is printable, if no literal wrapped to the least
      64-bit integer. */
  lemma ParsedIsPrintable(text: string, vars: Variables)
    requires Sound(vars) && FromString(text, vars).Some? && MinFree(FromString(text, vars).value)
    ensures var t := FromString(text, vars).value; t == Unset || Printable(t)
  {
    if SkipWs(text) != "" { TreeImage(text, vars); }
  }

  /** Printing a parsed tree and parsing the print gives the same tree: the printed form is a
      normal form of every text the parser accepts. */
  lemma NormalForm(text: string, vars: Variables, vars': Variables)
    requires Sound(vars) && FromString(text, vars).Some? && MinFree(FromString(text, vars).value)
    ensures FromString(ToString(FromString(text, vars).value), vars') == FromString(text, vars)
  {
    ParsedIsPrintable(text, vars);
    StringRoundTrip(FromString(text, vars).value, vars');
  }

  /** Printable is exactly what survives printing: leaving the least 64-bit integer aside, a
      tree comes back from its own text if and only if it is printable or blank. */
  lemma RoundTripIff(t: Tree)
    requires MinFree(t)
    ensures FromString(ToString(t), None) == Some(t) <==> Printable(t) || t == Unset
  {
    if Printable(t) || t == Unset {
      StringRoundTrip(t, None);
    } else if FromString(ToString(t), None) == Some(t) {
      ParsedIsPrintable(ToString(t), None);
    }
  }

  /** A tree that does not come back: a conjunction with the unset tree. */
  lemma UnprintableIsLost()
    ensures var t := And(Some(Unset), Some(True));
            MinFree(t) && FromString(ToString(t), None) != Some(t)
  {
    RoundTripIff(And(Some(Unset), Some(True)));
  }
}
