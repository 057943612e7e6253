/** Exactly when a variable reference stands for the printed tree of its variable
    (common/endorsement/endorsement_text.cpp). */
module ErdReferences {
  import opened Common
  import opened ErdTree
  import opened ErdText
  import opened ErdRoundTrip
  import opened ErdSplice
  import opened ErdImage

  /** Among these names, the variables hold no literal that wrapped to the least 64-bit integer. */
  predicate MinFreeAt(vars: Environment, names: set<string>) {
    forall name | name in names && name in vars :: MinFree(vars[name])
  }

  /** A parsed tree holds the trees it refers to, so they are printable if it is, and free of the
      least integer if it is. */
  lemma {:induction false} RefsInTree(s: string, vars: Environment)
    requires ParseTree(s, Some(vars)).Ok?
    ensures Printable(ParseTree(s, Some(vars)).value) ==> PrintableAt(vars, RefsTree(s, vars))
    ensures MinFree(ParseTree(s, Some(vars)).value) ==> MinFreeAt(vars, RefsTree(s, vars))
    decreases |s|, 0
  {
    var u := SkipWs(s);
    TreeUnfolds(s, Some(vars));
    RefsInBody(TreeHead(u), u, vars);
  }

  lemma {:induction false} RefsInBody(h: Head, u: string, vars: Environment)
    requires h == TreeHead(u) && h != HNone && ParseTreeBody(h, u[Skip(h)..], Some(vars)).Ok?
    ensures Printable(ParseTreeBody(h, u[Skip(h)..], Some(vars)).value) ==> PrintableAt(vars, RefsBody(h, u, vars))
    ensures MinFree(ParseTreeBody(h, u[Skip(h)..], Some(vars)).value) ==> MinFreeAt(vars, RefsBody(h, u, vars))
    decreases |u[Skip(h)..]|, 4
  {
    if h == HAnd || h == HOr || h == HEq {
      PairRefs(h, u, vars);
    } else if h == HAllOf || h == HAnyOf {
      ArgsRefs(h, u, vars);
    } else if h == HRef {
      assert RefsBody(h, u, vars) == {ReadName(u[Skip(h)..]).value};
    } else {
      assert RefsBody(h, u, vars) == {};
    }
  }

  lemma PairTree(h: Head, body: string, vars: Environment)
    requires (h == HAnd || h == HOr || h == HEq) && ParseTreeBody(h, body, Some(vars)).Ok?
    ensures ParsePair(body, Some(vars)).Ok?
    ensures var p := ParsePair(body, Some(vars)).value;
            ParseTreeBody(h, body, Some(vars)).value
            in {And(Some(p.0), Some(p.1)), Or(Some(p.0), Some(p.1)), Equals(Some(p.0), Some(p.1))}
  {
  }

  lemma SidesOf(t: Tree, l: Tree, r: Tree)
    requires t in {And(Some(l), Some(r)), Or(Some(l), Some(r)), Equals(Some(l), Some(r))}
    ensures (Printable(t) ==> Printable(l) && Printable(r)) && (MinFree(t) ==> MinFree(l) && MinFree(r))
  {
  }

  lemma {:induction false} PairRefs(h: Head, u: string, vars: Environment)
    requires h == TreeHead(u) && (h == HAnd || h == HOr || h == HEq)
    requires ParseTreeBody(h, u[Skip(h)..], Some(vars)).Ok?
    ensures Printable(ParseTreeBody(h, u[Skip(h)..], Some(vars)).value) ==> PrintableAt(vars, RefsBody(h, u, vars))
    ensures MinFree(ParseTreeBody(h, u[Skip(h)..], Some(vars)).value) ==> MinFreeAt(vars, RefsBody(h, u, vars))
    decreases |u[Skip(h)..]|, 2
  {
    PairTree(h, u[Skip(h)..], vars);
    var (l, r) := ParsePair(u[Skip(h)..], Some(vars)).value;
    SidesOf(ParseTreeBody(h, u[Skip(h)..], Some(vars)).value, l, r);
    RefsInPair(u[Skip(h)..], vars);
    assert RefsBody(h, u, vars) == RefsPair(u[Skip(h)..], vars);
  }

  lemma ArgsTree(h: Head, body: string, vars: Environment)
    requires (h == HAllOf || h == HAnyOf) && ParseTreeBody(h, body, Some(vars)).Ok?
    ensures ParseArgs(body, Some(vars)).Ok?
    ensures var t, ts := ParseTreeBody(h, body, Some(vars)).value, ParseArgs(body, Some(vars)).value;
            && (Printable(t) ==> forall u | u in ts :: Printable(u))
            && (MinFree(t) ==> forall u | u in ts :: MinFree(u))
  {
  }

  lemma {:induction false} ArgsRefs(h: Head, u: string, vars: Environment)
    requires h == TreeHead(u) && (h == HAllOf || h == HAnyOf)
    requires ParseTreeBody(h, u[Skip(h)..], Some(vars)).Ok?
    ensures Printable(ParseTreeBody(h, u[Skip(h)..], Some(vars)).value) ==> PrintableAt(vars, RefsBody(h, u, vars))
    ensures MinFree(ParseTreeBody(h, u[Skip(h)..], Some(vars)).value) ==> MinFreeAt(vars, RefsBody(h, u, vars))
    decreases |u[Skip(h)..]|, 3
  {
    ArgsTree(h, u[Skip(h)..], vars);
    RefsInArgs(u[Skip(h)..], vars);
    assert RefsBody(h, u, vars) == RefsArgs(u[Skip(h)..], vars);
  }

  lemma {:induction false} RefsInPair(s: string, vars: Environment)
    requires ParsePair(s, Some(vars)).Ok?
    ensures var (l, r) := ParsePair(s, Some(vars)).value;
            && (Printable(l) && Printable(r) ==> PrintableAt(vars, RefsPair(s, vars)))
            && (MinFree(l) && MinFree(r) ==> MinFreeAt(vars, RefsPair(s, vars)))
    decreases |s|, 1
  {
    var s1 := Expect(s, '(').rest;
    RefsInTree(s1, vars);
    RefsInTree(Expect(SkipWs(ParseTree(s1, Some(vars)).rest), ',').rest, vars);
  }

  lemma {:induction false} RefsInArgs(s: string, vars: Environment)
    requires ParseArgs(s, Some(vars)).Ok?
    ensures var ts := ParseArgs(s, Some(vars)).value;
            && ((forall t | t in ts :: Printable(t)) ==> PrintableAt(vars, RefsArgs(s, vars)))
            && ((forall t | t in ts :: MinFree(t)) ==> MinFreeAt(vars, RefsArgs(s, vars)))
    decreases |s|, 2
  {
    var u := SkipWs(Expect(s, '(').rest);
    if !(u != "" && u[0] == ')') { RefsInTerms(u, vars); }
  }

  lemma {:induction false} RefsInTerms(s: string, vars: Environment)
    requires ParseTerms(s, Some(vars)).Ok?
    ensures var ts := ParseTerms(s, Some(vars)).value;
            && ((forall t | t in ts :: Printable(t)) ==> PrintableAt(vars, RefsTerms(s, vars)))
            && ((forall t | t in ts :: MinFree(t)) ==> MinFreeAt(vars, RefsTerms(s, vars)))
    decreases |s|, 1
  {
    var u := SkipWs(ParseTree(s, Some(vars)).rest);
    var ts := ParseTerms(s, Some(vars)).value;
    RefsInTree(s, vars);
    assert ts[0] == ParseTree(s, Some(vars)).value && ts[0] in ts;
    if u != "" && u[0] == ',' {
      RefsInTerms(u[1..], vars);
      assert ts[1..] == ParseTerms(u[1..], Some(vars)).value;
      assert forall t | t in ts[1..] :: t in ts;
    }
  }

  /** The text is one reference, to a variable that holds the unset tree. */
  predicate LoneBlank(text: string, vars: Environment) {
    var u := SkipWs(text);
    && TreeHead(u) == HRef && ParseReference(u[Skip(HRef)..], Some(vars)).Ok?
    && ParseReference(u[Skip(HRef)..], Some(vars)).value == Unset
  }

  lemma NeverUnset(h: Head, body: string, vars: Variables)
    requires h != HRef && ParseTreeBody(h, body, vars).Ok?
    ensures ParseTreeBody(h, body, vars).value != Unset
  {
    match h
    case HEndorsement => LeafNotUnset(h, body);
    case HType => LeafNotUnset(h, body);
    case HValue => LeafNotUnset(h, body);
    case HSigner => LeafNotUnset(h, body);
    case HMessage => LeafNotUnset(h, body);
    case HDestination => LeafNotUnset(h, body);
    case HSource => LeafNotUnset(h, body);
    case _ =>
  }

  lemma LeafNotUnset(h: Head, body: string)
    requires ParseLeaf(h, body).Ok?
    ensures ParseLeaf(h, body).value != Unset
  {
  }

  lemma UnsetIsReference(text: string, vars: Environment)
    requires ParseTree(text, Some(vars)).Ok?
    ensures ParseTree(text, Some(vars)).value == Unset <==> LoneBlank(text, vars)
  {
    TreeUnfolds(text, Some(vars));
    var u := SkipWs(text);
    if TreeHead(u) != HRef { NeverUnset(TreeHead(u), u[Skip(TreeHead(u))..], Some(vars)); }
  }

  lemma BlankSplices(text: string, vars: Environment)
    requires LoneBlank(text, vars) && FromString(text, Some(vars)).Some?
    ensures FromString(SpliceText(text, vars), None) == FromString(text, Some(vars)) == Some(Unset)
  {
    TreeUnfolds(text, Some(vars));
    var rest := ParseTree(text, Some(vars)).rest;
    assert SpliceTree(text, vars, rest) == Taken(text, SkipWs(text)) + rest;
    BlankSkipped(text, rest);
  }

  /** A text that parses means the same with its references replaced by the printed trees if and
      only if every variable it refers to is printable, or it is nothing but a reference to a
      blank variable. */
  lemma SubstitutionIff(text: string, vars: Environment)
    requires FromString(text, Some(vars)).Some? && MinFree(FromString(text, Some(vars)).value)
    ensures FromString(SpliceText(text, vars), None) == FromString(text, Some(vars))
       <==> PrintableAt(vars, References(text, vars)) || LoneBlank(text, vars)
  {
    if PrintableAt(vars, References(text, vars)) {
      SplicingIsSubstitution(text, vars);
    } else {
      UnsetIsReference(text, vars);
      if LoneBlank(text, vars) {
        BlankSplices(text, vars);
      } else if FromString(SpliceText(text, vars), None) == FromString(text, Some(vars)) {
        ParsedIsPrintable(SpliceText(text, vars), None);
        RefsInTree(text, vars);
      }
    }
  }

  // ---------------------------------------------------------------- a text that changes its meaning

  const REFERENCE := "${v}"
  const BLANK: Environment := map["v" := Unset]

  lemma ReferenceTaken(rest: string)
    ensures ParseTree(REFERENCE + rest, Some(BLANK)) == Ok(Unset, rest)
    ensures RefsTree(REFERENCE + rest, BLANK) == {"v"}
  {
    var s := REFERENCE + rest;
    StartsWithSelf("${", "v}" + rest);
    assert s == "${" + ("v}" + rest) && s[2..] == "v}" + rest;
    assert SkipWs(s) == s && TreeHead(s) == HRef;
    assert s[2..][1..] == "}" + rest && ("}" + rest)[1..] == rest;
    assert ReadName("}" + rest) == Ok("", rest);
    assert [s[2]] + "" == "v";
  }

  lemma TrueTaken(vars: Variables)
    ensures ParseTree("TRUE" + ")", vars) == Ok(True, ")")
  {
    TreeConstantWords(")");
    TreeStep("TRUE" + ")", HTrue, "TRUE", ")", vars);
  }

  lemma PairTaken(s: string, s1: string, s2: string, s3: string, vars: Variables)
    requires Expect(s, '(') == Ok('(', s1) && ParseTree(s1, vars) == Ok(Unset, s2)
    requires Expect(SkipWs(s2), ',') == Ok(',', s3) && ParseTree(s3, vars) == Ok(True, ")")
    ensures ParsePair(s, vars) == Ok((Unset, True), "")
  {
    assert Expect(SkipWs(")"), ')') == Ok(')', "") by { assert ")"[1..] == ""; }
  }

  lemma ExpectFirst(c: char, rest: string)
    requires !IsSpace(c)
    ensures Expect([c] + rest, c) == Ok(c, rest) && SkipWs([c] + rest) == [c] + rest
  {
    assert ([c] + rest)[1..] == rest;
  }

  lemma PairRefersTo(s: string, s1: string)
    requires s == "(" + s1 && ParsePair(s, Some(BLANK)).Ok?
    ensures RefsTree(s1, BLANK) <= RefsPair(s, BLANK)
  {
    assert s[1..] == s1;
  }

  lemma AndTaken(text: string, body: string, args: string)
    requires text == "AND" + body && body == "(" + args && ParsePair(body, Some(BLANK)) == Ok((Unset, True), "")
    ensures TreeHead(text) == HAnd && ParseTree(text, Some(BLANK)) == Ok(And(Some(Unset), Some(True)), "")
    ensures SkipWs(text) != ""
  {
    TreeOperatorWord("AND", HAnd, args);
    TreeStep(text, HAnd, "AND", body, Some(BLANK));
  }

  lemma BodyTaken()
    ensures var args := REFERENCE + ("," + ("TRUE" + ")"));
            && ParsePair("(" + args, Some(BLANK)) == Ok((Unset, True), "") && RefsTree.requires(args, BLANK)
            && "v" in RefsTree(args, BLANK)
  {
    var args := REFERENCE + ("," + ("TRUE" + ")"));
    ReferenceTaken("," + ("TRUE" + ")"));
    TrueTaken(Some(BLANK));
    ExpectFirst('(', args);
    ExpectFirst(',', ("TRUE" + ")"));
    PairTaken("(" + args, args, "," + ("TRUE" + ")"), ("TRUE" + ")"), Some(BLANK));
  }

  /** AND(${v},TRUE) with a blank v parses, but its printed form does not. */
  lemma SubstitutionFails()
    ensures var text := "AND" + ("(" + (REFERENCE + ("," + ("TRUE" + ")"))));
            && FromString(text, Some(BLANK)) == Some(And(Some(Unset), Some(True)))
            && FromString(SpliceText(text, BLANK), None) != FromString(text, Some(BLANK))
  {
    var args := REFERENCE + ("," + ("TRUE" + ")"));
    var text := "AND" + ("(" + args);
    BodyTaken();
    AndTaken(text, "(" + args, args);
    AndRefs(text, "(" + args);
    PairRefersTo("(" + args, args);
    SubstitutionIff(text, BLANK);
  }

  lemma AndRefs(text: string, body: string)
    requires text == "AND" + body && TreeHead(text) == HAnd && ParsePair(body, Some(BLANK)).Ok?
    ensures References(text, BLANK) == RefsPair(body, BLANK) && !LoneBlank(text, BLANK)
  {
    assert SkipWs(text) == text;
    assert text[3..] == body;
    assert ParseTree(text, Some(BLANK)) == ParseTreeBody(HAnd, body, Some(BLANK));
    assert RefsTree(text, BLANK) == RefsBody(HAnd, text, BLANK);
  }
}
