/** Variable references in requirement-tree text (common/endorsement/endorsement_text.cpp). A
    reference resolves to a tree; here it is shown that this is the same as writing the printed
    form of that tree in its place. */
module ErdSplice {
  import opened Common
  import opened ErdTree
  import opened ErdText
  import opened ErdRoundTrip
  import opened ErdLocality

  type Environment = map<string, Tree>

  /** The variables among these names hold printable trees. */
  predicate PrintableAt(vars: Environment, names: set<string>) {
    forall name | name in names && name in vars :: Printable(vars[name])
  }

  /** The part of s before rest. */
  function Taken(s: string, rest: string): string
    requires |rest| <= |s|
  {
    s[..|s| - |rest|]
  }

  // ---------------------------------------------------------------- substitution

  /** The text consumed by a tree at the start of s, with every reference at a tree position
      replaced by the printed tree of its variable and all else copied, followed by tail. */
  function SpliceTree(s: string, vars: Environment, tail: string): string
    requires ParseTree(s, Some(vars)).Ok?
    decreases |s|, 1
  {
    var u := SkipWs(s);
    Taken(s, u) + SpliceBody(TreeHead(u), u, vars, tail)
  }

  function SpliceBody(h: Head, u: string, vars: Environment, tail: string): string
    requires h == TreeHead(u) && h != HNone && ParseTreeBody(h, u[Skip(h)..], Some(vars)).Ok?
    decreases |u|, 0
  {
    var body := u[Skip(h)..];
    if h == HRef then TreeText(ParseReference(body, Some(vars)).value, tail)
    else if h == HAnd || h == HOr || h == HEq then u[..Skip(h)] + SplicePair(body, vars, tail)
    else if h == HAllOf || h == HAnyOf then u[..Skip(h)] + SpliceArgs(body, vars, tail)
    else Retail(u, |ParseTreeBody(h, body, Some(vars)).rest|, tail)
  }

  function SplicePair(s: string, vars: Environment, tail: string): string
    requires ParsePair(s, Some(vars)).Ok?
    decreases |s|, 2
  {
    var s1 := Expect(s, '(').rest;
    var s2 := ParseTree(s1, Some(vars)).rest;
    var s3 := Expect(SkipWs(s2), ',').rest;
    var s4 := ParseTree(s3, Some(vars)).rest;
    var s5 := Expect(SkipWs(s4), ')').rest;
    Taken(s, s1) + SpliceTree(s1, vars, Taken(s2, s3) + SpliceTree(s3, vars, Taken(s4, s5) + tail))
  }

  function SpliceArgs(s: string, vars: Environment, tail: string): string
    requires ParseArgs(s, Some(vars)).Ok?
    decreases |s|, 3
  {
    var s1 := Expect(s, '(').rest;
    var u := SkipWs(s1);
    if u != "" && u[0] == ')' then Taken(s, u[1..]) + tail
    else Taken(s, s1) + (Taken(s1, u) + SpliceTerms(u, vars, tail))
  }

  function SpliceTerms(s: string, vars: Environment, tail: string): string
    requires ParseTerms(s, Some(vars)).Ok?
    decreases |s|, 2
  {
    var s1 := ParseTree(s, Some(vars)).rest;
    var u := SkipWs(s1);
    if u != "" && u[0] == ',' then SpliceTree(s, vars, Taken(s1, u[1..]) + SpliceTerms(u[1..], vars, tail))
    else SpliceTree(s, vars, Taken(s1, Expect(u, ')').rest) + tail)
  }

  /** A whole text with its references replaced; a text that does not parse is left alone. */
  function SpliceText(text: string, vars: Environment): string {
    match ParseTree(text, Some(vars))
    case Ok(_, rest) => SpliceTree(text, vars, rest)
    case Err => text
  }

  // ---------------------------------------------------------------- referenced variables

  /** The variables referenced at a tree position by the tree at the start of s. */
  function RefsTree(s: string, vars: Environment): set<string>
    requires ParseTree(s, Some(vars)).Ok?
    decreases |s|, 1
  {
    var u := SkipWs(s);
    RefsBody(TreeHead(u), u, vars)
  }

  function RefsBody(h: Head, u: string, vars: Environment): set<string>
    requires h == TreeHead(u) && h != HNone && ParseTreeBody(h, u[Skip(h)..], Some(vars)).Ok?
    decreases |u|, 0
  {
    var body := u[Skip(h)..];
    if h == HRef then {ReadName(body).value}
    else if h == HAnd || h == HOr || h == HEq then RefsPair(body, vars)
    else if h == HAllOf || h == HAnyOf then RefsArgs(body, vars)
    else {}
  }

  function RefsPair(s: string, vars: Environment): set<string>
    requires ParsePair(s, Some(vars)).Ok?
    decreases |s|, 2
  {
    var s1 := Expect(s, '(').rest;
    RefsTree(s1, vars) + RefsTree(Expect(SkipWs(ParseTree(s1, Some(vars)).rest), ',').rest, vars)
  }

  function RefsArgs(s: string, vars: Environment): set<string>
    requires ParseArgs(s, Some(vars)).Ok?
    decreases |s|, 3
  {
    var u := SkipWs(Expect(s, '(').rest);
    if u != "" && u[0] == ')' then {} else RefsTerms(u, vars)
  }

  function RefsTerms(s: string, vars: Environment): set<string>
    requires ParseTerms(s, Some(vars)).Ok?
    decreases |s|, 2
  {
    var u := SkipWs(ParseTree(s, Some(vars)).rest);
    RefsTree(s, vars) + (if u != "" && u[0] == ',' then RefsTerms(u[1..], vars) else {})
  }

  /** The variables a text refers to; none if it does not parse. */
  function References(text: string, vars: Environment): set<string> {
    if ParseTree(text, Some(vars)).Ok? then RefsTree(text, vars) else {}
  }

  // ---------------------------------------------------------------- small steps

  lemma {:induction false} BlankSkipped(s: string, x: string)
    ensures SkipWs(Taken(s, SkipWs(s)) + x) == SkipWs(x)
  {
    var blank := Taken(s, SkipWs(s));
    if s != "" && IsSpace(s[0]) {
      BlankSkipped(s[1..], x);
      assert blank == [s[0]] + Taken(s[1..], SkipWs(s[1..]));
      assert (blank + x)[1..] == Taken(s[1..], SkipWs(s[1..])) + x;
    } else {
      assert blank + x == x;
    }
  }

  lemma ExpectTaken(s: string, c: char, x: string)
    requires Expect(s, c).Ok?
    ensures Expect(Taken(s, Expect(s, c).rest) + x, c) == Ok(c, x)
  {
    ExpectLocal(s, c, |Expect(s, c).rest|, x);
    WholeTail(Expect(s, c).rest, x);
  }

  lemma DelimiterTaken(s: string, c: char, x: string)
    requires Expect(SkipWs(s), c).Ok?
    ensures Expect(SkipWs(Taken(s, Expect(SkipWs(s), c).rest) + x), c) == Ok(c, x)
  {
    DelimiterLocal(s, c, |Expect(SkipWs(s), c).rest|, x);
    WholeTail(Expect(SkipWs(s), c).rest, x);
  }

  lemma WholeTail(s: string, x: string)
    ensures Retail(s, |s|, x) == x
  {
  }

  lemma TreeConstantLocal(u: string, n: nat, tail: string)
    requires (TreeHead(u) == HTrue || TreeHead(u) == HFalse) && Skip(TreeHead(u)) + n <= |u|
    ensures TreeHead(Retail(u, n, tail)) == TreeHead(u)
  {
    ConstantIsHead(u);
    ConstantLocal(u, n, tail);
    NoOperatorLocal(u, n, tail);
    TreeConstantHead(Retail(u, n, tail));
  }

  lemma ConstantIsHead(u: string)
    requires TreeHead(u) == HTrue || TreeHead(u) == HFalse
    ensures OperatorHead(u) == HNone && ConstantHead(u) == TreeHead(u)
  {
  }

  lemma TreeLeafLocal(u: string, n: nat, tail: string)
    requires var h := TreeHead(u);
             || h == HEndorsement || h == HType || h == HValue || h == HSigner
             || h == HMessage || h == HDestination || h == HSource
    requires Skip(TreeHead(u)) + n <= |u|
    ensures TreeHead(Retail(u, n, tail)) == TreeHead(u)
  {
    var h, u' := TreeHead(u), Retail(u, n, tail);
    RetailAt(u, n, tail, 0);
    NoOperatorLocal(u, n, tail);
    if h == HMessage {
      StartsWithLocal(u, "MESSAGE(", n, tail);
    } else if h == HDestination {
      StartsWithLocal(u, "DESTINATION(", n, tail);
    } else if h == HSource {
      StartsWithLocal(u, "SOURCE(", n, tail);
    } else {
      StartsWithLocal(u, "ENDORSEMENT(", n, tail);
      if h != HEndorsement { StartsWithLocal(u, "ENDORSEMENT_TYPE(", n, tail); }
      if h == HValue || h == HSigner { StartsWithLocal(u, "ENDORSEMENT_VALUE(", n, tail); }
      if h == HSigner { StartsWithLocal(u, "ENDORSEMENT_SIGNER(", n, tail); }
    }
  }

  /** The head of a tree other than a reference is decided by its word. */
  lemma TreeHeadLocal(u: string, n: nat, tail: string)
    requires TreeHead(u) != HNone && TreeHead(u) != HRef && Decides(TreeHead(u)) + n <= |u|
    ensures TreeHead(Retail(u, n, tail)) == TreeHead(u)
  {
    RetailAt(u, n, tail, 0);
    if OperatorHead(u) != HNone {
      OperatorLocal(u, n, tail);
      TreeOperatorHead(Retail(u, n, tail));
    } else if TreeHead(u) == HTrue || TreeHead(u) == HFalse {
      TreeConstantLocal(u, n, tail);
    } else {
      TreeLeafLocal(u, n, tail);
    }
  }

  lemma NonBlankStart(h: Head, u: string)
    requires h == TreeHead(u) && h != HNone
    ensures u != "" && !IsSpace(u[0]) && u[0] != ')' && u[0] != ','
  {
  }

  /** An operator's word and the parenthesis after it. */
  lemma OperatorBody(u: string)
    requires OperatorHead(u) != HNone
    ensures var body := u[Skip(OperatorHead(u))..];
            body != "" && body[0] == '(' && Expect(body, '(') == Ok('(', body[1..])
  {
    var h := OperatorHead(u);
    match h
    case HAnd => WordThen(u, "AND(", 3);
    case HOr => WordThen(u, "OR(", 2);
    case HEq => WordThen(u, "EQ(", 2);
    case HAllOf => WordThen(u, "ALLOF(", 5);
    case HAnyOf => WordThen(u, "ANYOF(", 5);
  }

  lemma {:induction false} WordThen(u: string, word: string, k: nat)
    requires StartsWith(u, word) && k < |word|
    ensures k < |u| && u[k] == word[k]
  {
    if k > 0 { WordThen(u[1..], word[1..], k - 1); }
  }

  // ---------------------------------------------------------------- the spliced text parses alike

  /** A word of an operator followed by spliced arguments still starts with that operator. */
  lemma OperatorKept(u: string, h: Head, args: string)
    requires h == TreeHead(u) && (h == HAnd || h == HOr || h == HEq || h == HAllOf || h == HAnyOf)
    requires args != "" && args[0] == '('
    ensures TreeHead(u[..Skip(h)] + args) == h && (u[..Skip(h)] + args)[Skip(h)..] == args
  {
    OperatorOpens(h, u);
    var n := |u| - Skip(h) - 1;
    assert u[..Skip(h)] + args == Retail(u, n, args[1..]) by {
      assert u[..|u| - n] == u[..Skip(h)] + ['('];
      assert args == ['('] + args[1..];
    }
    TreeHeadLocal(u, n, args[1..]);
  }

  lemma BodyStarts(h: Head, u: string, vars: Environment, tail: string)
    requires h == TreeHead(u) && h != HNone && ParseTreeBody(h, u[Skip(h)..], Some(vars)).Ok?
    requires PrintableAt(vars, RefsBody(h, u, vars))
    ensures var b := SpliceBody(h, u, vars, tail); b != "" && !IsSpace(b[0]) && b[0] != ')' && b[0] != ','
  {
    NonBlankStart(h, u);
    if h == HRef {
      RefStarts(u, vars, tail);
    } else if h != HAnd && h != HOr && h != HEq && h != HAllOf && h != HAnyOf {
      RetailAt(u, |ParseTreeBody(h, u[Skip(h)..], Some(vars)).rest|, tail, 0);
    }
  }

  lemma RefStarts(u: string, vars: Environment, tail: string)
    requires TreeHead(u) == HRef && ParseReference(u[Skip(HRef)..], Some(vars)).Ok?
    requires PrintableAt(vars, RefsBody(HRef, u, vars))
    ensures var b := TreeText(ParseReference(u[Skip(HRef)..], Some(vars)).value, tail);
            b != "" && !IsSpace(b[0]) && b[0] != ')' && b[0] != ','
  {
    var name := ReadName(u[2..]).value;
    TreeTextHead(vars[name], tail);
  }

  lemma TreeUnfolds(s: string, vars: Variables)
    requires ParseTree(s, vars).Ok?
    ensures var u := SkipWs(s);
            TreeHead(u) != HNone && ParseTree(s, vars) == ParseTreeBody(TreeHead(u), u[Skip(TreeHead(u))..], vars)
  {
  }

  /** Leading white space does not matter. */
  lemma AfterBlank(s: string, b: string, vars: Variables)
    requires SkipWs(s) == b
    ensures ParseTree(s, vars) == ParseTree(b, vars)
  {
    SkipSkip(s);
  }

  lemma {:induction false} SpliceTreeParses(s: string, vars: Environment, tail: string)
    requires ParseTree(s, Some(vars)).Ok? && PrintableAt(vars, RefsTree(s, vars))
    ensures ParseTree(SpliceTree(s, vars, tail), None) == Ok(ParseTree(s, Some(vars)).value, tail)
    decreases |s|, 1
  {
    TreeUnfolds(s, Some(vars));
    var u := SkipWs(s);
    var b := SpliceBody(TreeHead(u), u, vars, tail);
    BodyStarts(TreeHead(u), u, vars, tail);
    BlankSkipped(s, b);
    AfterBlank(Taken(s, u) + b, b, None);
    SpliceBodyParses(TreeHead(u), u, vars, tail);
  }

  /** What a text that starts with its tree parses to. */
  lemma ParseNow(b: string, h: Head, vars: Variables)
    requires b != "" && !IsSpace(b[0]) && h == TreeHead(b) && h != HNone
    ensures ParseTree(b, vars) == ParseTreeBody(h, b[Skip(h)..], vars)
  {
  }

  predicate IsOperator(h: Head) {
    h == HAnd || h == HOr || h == HEq || h == HAllOf || h == HAnyOf
  }

  lemma OperatorIsHead(u: string)
    requires IsOperator(TreeHead(u))
    ensures OperatorHead(u) == TreeHead(u)
  {
  }

  lemma OperatorOpens(h: Head, u: string)
    requires h == TreeHead(u) && IsOperator(h)
    ensures u[Skip(h)..] != "" && u[Skip(h)..][0] == '('
  {
    OperatorIsHead(u);
    OperatorBody(u);
  }

  lemma PairBodyParses(h: Head, u: string, vars: Environment, args: string, tail: string)
    requires h == TreeHead(u) && (h == HAnd || h == HOr || h == HEq) && args != "" && args[0] == '('
    requires var p := ParsePair(u[Skip(h)..], Some(vars)); p.Ok? && ParsePair(args, None) == Ok(p.value, tail)
    ensures ParseTree(u[..Skip(h)] + args, None) == Ok(ParseTreeBody(h, u[Skip(h)..], Some(vars)).value, tail)
  {
    NonBlankStart(h, u);
    OperatorKept(u, h, args);
    ParseNow(u[..Skip(h)] + args, h, None);
  }

  lemma ArgsBodyParses(h: Head, u: string, vars: Environment, args: string, tail: string)
    requires h == TreeHead(u) && (h == HAllOf || h == HAnyOf) && args != "" && args[0] == '('
    requires var p := ParseArgs(u[Skip(h)..], Some(vars)); p.Ok? && ParseArgs(args, None) == Ok(p.value, tail)
    ensures ParseTree(u[..Skip(h)] + args, None) == Ok(ParseTreeBody(h, u[Skip(h)..], Some(vars)).value, tail)
  {
    NonBlankStart(h, u);
    OperatorKept(u, h, args);
    ParseNow(u[..Skip(h)] + args, h, None);
  }

  lemma {:induction false} SpliceBodyParses(h: Head, u: string, vars: Environment, tail: string)
    requires h == TreeHead(u) && h != HNone && ParseTreeBody(h, u[Skip(h)..], Some(vars)).Ok?
    requires PrintableAt(vars, RefsBody(h, u, vars))
    ensures ParseTree(SpliceBody(h, u, vars, tail), None) == Ok(ParseTreeBody(h, u[Skip(h)..], Some(vars)).value, tail)
    decreases |u|, 0
  {
    var body := u[Skip(h)..];
    if h == HRef {
      ReferenceParses(body, vars, tail);
    } else if h == HAnd || h == HOr || h == HEq {
      SplicePairParses(body, vars, tail);
      OperatorOpens(h, u);
      PairStarts(body, vars, tail);
      PairBodyParses(h, u, vars, SplicePair(body, vars, tail), tail);
    } else if h == HAllOf || h == HAnyOf {
      SpliceArgsParses(body, vars, tail);
      OperatorOpens(h, u);
      ArgsStart(body, vars, tail);
      ArgsBodyParses(h, u, vars, SpliceArgs(body, vars, tail), tail);
    } else {
      VerbatimParses(h, u, vars, tail);
    }
  }

  lemma ReferenceParses(body: string, vars: Environment, tail: string)
    requires ParseReference(body, Some(vars)).Ok? && Printable(ParseReference(body, Some(vars)).value)
    ensures ParseTree(TreeText(ParseReference(body, Some(vars)).value, tail), None)
         == Ok(ParseReference(body, Some(vars)).value, tail)
  {
    TreeRoundTrip(vars[ReadName(body).value], tail, None);
  }

  /** Constants and leaves are copied. */
  lemma VerbatimParses(h: Head, u: string, vars: Environment, tail: string)
    requires h == TreeHead(u) && h != HNone && ParseTreeBody(h, u[Skip(h)..], Some(vars)).Ok?
    requires h != HRef && h != HAnd && h != HOr && h != HEq && h != HAllOf && h != HAnyOf
    ensures ParseTree(Retail(u, |ParseTreeBody(h, u[Skip(h)..], Some(vars)).rest|, tail), None)
         == Ok(ParseTreeBody(h, u[Skip(h)..], Some(vars)).value, tail)
  {
    var body := u[Skip(h)..];
    var rest := ParseTreeBody(h, body, Some(vars)).rest;
    var u' := Retail(u, |rest|, tail);
    NonBlankStart(h, u);
    RetailAt(u, |rest|, tail, 0);
    TreeHeadLocal(u, |rest|, tail);
    RetailDrop(u, |rest|, tail, Skip(h));
    WholeTail(rest, tail);
    ParseNow(u', h, None);
    if h != HTrue && h != HFalse { LeafLocal(h, body, |rest|, tail); }
  }

  lemma PairStarts(body: string, vars: Environment, tail: string)
    requires body != "" && body[0] == '(' && ParsePair(body, Some(vars)).Ok?
    ensures var p := SplicePair(body, vars, tail); p != "" && p[0] == '('
  {
    assert Expect(body, '(').rest == body[1..] && Taken(body, body[1..]) == ['('];
  }

  lemma ArgsStart(body: string, vars: Environment, tail: string)
    requires body != "" && body[0] == '(' && ParseArgs(body, Some(vars)).Ok?
    ensures var p := SpliceArgs(body, vars, tail); p != "" && p[0] == '('
  {
    assert Expect(body, '(').rest == body[1..] && Taken(body, body[1..]) == ['('];
  }

  lemma {:induction false} SplicePairParses(s: string, vars: Environment, tail: string)
    requires ParsePair(s, Some(vars)).Ok? && PrintableAt(vars, RefsPair(s, vars))
    ensures ParsePair(SplicePair(s, vars, tail), None) == Ok(ParsePair(s, Some(vars)).value, tail)
    decreases |s|, 2
  {
    var s1 := Expect(s, '(').rest;
    var s2 := ParseTree(s1, Some(vars)).rest;
    var s3 := Expect(SkipWs(s2), ',').rest;
    var s4 := ParseTree(s3, Some(vars)).rest;
    var s5 := Expect(SkipWs(s4), ')').rest;
    var close := Taken(s4, s5) + tail;
    var right := SpliceTree(s3, vars, close);
    var comma := Taken(s2, s3) + right;
    ExpectTaken(s, '(', SpliceTree(s1, vars, comma));
    SpliceTreeParses(s1, vars, comma);
    DelimiterTaken(s2, ',', right);
    SpliceTreeParses(s3, vars, close);
    DelimiterTaken(s4, ')', tail);
  }

  lemma {:induction false} SpliceArgsParses(s: string, vars: Environment, tail: string)
    requires ParseArgs(s, Some(vars)).Ok? && PrintableAt(vars, RefsArgs(s, vars))
    ensures ParseArgs(SpliceArgs(s, vars, tail), None) == Ok(ParseArgs(s, Some(vars)).value, tail)
    decreases |s|, 3
  {
    var s1 := Expect(s, '(').rest;
    var u := SkipWs(s1);
    if u != "" && u[0] == ')' {
      EmptyArgsParse(s, tail);
    } else {
      var terms := SpliceTerms(u, vars, tail);
      ExpectTaken(s, '(', Taken(s1, u) + terms);
      SpliceTermsParses(u, vars, tail);
      TermsStart(u, vars, tail);
      BlankSkipped(s1, terms);
    }
  }

  lemma EmptyArgsParse(s: string, tail: string)
    requires Expect(s, '(').Ok? && var u := SkipWs(Expect(s, '(').rest); u != "" && u[0] == ')'
    ensures var u := SkipWs(Expect(s, '(').rest);
            ParseArgs(Taken(s, u[1..]) + tail, None) == Ok([], tail)
  {
    var s1 := Expect(s, '(').rest;
    var u := SkipWs(s1);
    var n := |u[1..]|;
    ExpectLocal(s, '(', n, tail);
    SkipWsLocal(s1, n, tail);
    RetailAt(u, n, tail, 0);
    RetailDrop(u, n, tail, 1);
    WholeTail(u[1..], tail);
  }

  lemma TreeStarts(u: string, vars: Environment, tail: string)
    requires ParseTree(u, Some(vars)).Ok? && PrintableAt(vars, RefsTree(u, vars)) && SkipWs(u) == u
    ensures var t := SpliceTree(u, vars, tail); t != "" && !IsSpace(t[0]) && t[0] != ')'
  {
    TreeUnfolds(u, Some(vars));
    BodyStarts(TreeHead(u), u, vars, tail);
    assert SpliceTree(u, vars, tail) == SpliceBody(TreeHead(u), u, vars, tail);
  }

  /** Terms start like their first tree. */
  lemma TermsStart(u: string, vars: Environment, tail: string)
    requires ParseTerms(u, Some(vars)).Ok? && PrintableAt(vars, RefsTerms(u, vars)) && SkipWs(u) == u
    ensures var t := SpliceTerms(u, vars, tail); t != "" && !IsSpace(t[0]) && t[0] != ')'
  {
    var s1 := ParseTree(u, Some(vars)).rest;
    var v := SkipWs(s1);
    if v != "" && v[0] == ',' {
      TreeStarts(u, vars, Taken(s1, v[1..]) + SpliceTerms(v[1..], vars, tail));
    } else {
      TreeStarts(u, vars, Taken(s1, Expect(v, ')').rest) + tail);
    }
  }

  lemma {:induction false} SpliceTermsParses(s: string, vars: Environment, tail: string)
    requires ParseTerms(s, Some(vars)).Ok? && PrintableAt(vars, RefsTerms(s, vars))
    ensures ParseTerms(SpliceTerms(s, vars, tail), None) == Ok(ParseTerms(s, Some(vars)).value, tail)
    decreases |s|, 2
  {
    var s1 := ParseTree(s, Some(vars)).rest;
    var u := SkipWs(s1);
    if u != "" && u[0] == ',' {
      var more := SpliceTerms(u[1..], vars, tail);
      SpliceTreeParses(s, vars, Taken(s1, u[1..]) + more);
      SpliceTermsParses(u[1..], vars, tail);
      CommaTaken(s1, more);
    } else {
      SpliceTreeParses(s, vars, Taken(s1, Expect(u, ')').rest) + tail);
      CloseTaken(s1, tail);
    }
  }

  lemma CommaTaken(s1: string, x: string)
    requires var u := SkipWs(s1); u != "" && u[0] == ','
    ensures SkipWs(Taken(s1, SkipWs(s1)[1..]) + x) == [','] + x
  {
    var u := SkipWs(s1);
    var n := |u[1..]|;
    SkipWsLocal(s1, n, x);
    assert Retail(u, n, x) == [','] + x;
  }

  lemma CloseTaken(s1: string, x: string)
    requires var u := SkipWs(s1); Expect(u, ')').Ok? && (u == "" || u[0] != ',')
    ensures var v := SkipWs(Taken(s1, Expect(SkipWs(s1), ')').rest) + x);
            v != "" && v[0] == ')' && Expect(v, ')') == Ok(')', x)
  {
    DelimiterTaken(s1, ')', x);
    SkipSkip(s1);
    SkipSkip(Taken(s1, Expect(SkipWs(s1), ')').rest) + x);
  }

  // ---------------------------------------------------------------- without references

  /** A text that parses without a resolver parses the same with any. */
  lemma {:induction false} ResolverIdle(s: string, vars: Environment)
    requires ParseTree(s, None).Ok?
    ensures ParseTree(s, Some(vars)) == ParseTree(s, None)
    decreases |s|, 0
  {
    var u := SkipWs(s);
    var h := TreeHead(u);
    var body := u[Skip(h)..];
    if h == HAnd || h == HOr || h == HEq {
      ResolverIdlePair(body, vars);
    } else if h == HAllOf || h == HAnyOf {
      ResolverIdleArgs(body, vars);
    }
  }

  lemma {:induction false} ResolverIdlePair(s: string, vars: Environment)
    requires ParsePair(s, None).Ok?
    ensures ParsePair(s, Some(vars)) == ParsePair(s, None)
    decreases |s|, 1
  {
    var s1 := Expect(s, '(').rest;
    ResolverIdle(s1, vars);
    ResolverIdle(Expect(SkipWs(ParseTree(s1, None).rest), ',').rest, vars);
  }

  lemma {:induction false} ResolverIdleArgs(s: string, vars: Environment)
    requires ParseArgs(s, None).Ok?
    ensures ParseArgs(s, Some(vars)) == ParseArgs(s, None)
    decreases |s|, 2
  {
    var u := SkipWs(Expect(s, '(').rest);
    if !(u != "" && u[0] == ')') { ResolverIdleTerms(u, vars); }
  }

  lemma {:induction false} ResolverIdleTerms(s: string, vars: Environment)
    requires ParseTerms(s, None).Ok?
    ensures ParseTerms(s, Some(vars)) == ParseTerms(s, None)
    decreases |s|, 1
  {
    ResolverIdle(s, vars);
    var u := SkipWs(ParseTree(s, None).rest);
    if u != "" && u[0] == ',' { ResolverIdleTerms(u[1..], vars); }
  }

  // ---------------------------------------------------------------- the theorem

  /** Resolving references while parsing is parsing the text in which each reference was
      replaced by the printed tree of its variable, without any resolver. This holds for every
      text, also for those that do not parse, whenever the variables it refers to hold printable
      trees. */
  lemma SplicingIsSubstitution(text: string, vars: Environment)
    requires PrintableAt(vars, References(text, vars))
    ensures FromString(text, Some(vars)) == FromString(SpliceText(text, vars), None)
  {
    var p := ParseTree(text, Some(vars));
    if p.Ok? {
      SpliceTreeParses(text, vars, p.rest);
      ParsedIsNotBlank(text, Some(vars));
      ParsedIsNotBlank(SpliceText(text, vars), None);
    } else if ParseTree(text, None).Ok? {
      ResolverIdle(text, vars);
    }
  }

  lemma ParsedIsNotBlank(text: string, vars: Variables)
    requires ParseTree(text, vars).Ok?
    ensures SkipWs(text) != ""
  {
  }
}
