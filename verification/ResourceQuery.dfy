/** The resource query language (resource_manager/resource_manager.cpp): what the lexer and the
    parser accept, as functions, and a printer with only the needed parentheses. */
module ResourceQuery {
  import opened Common
  import opened ErdText

  datatype Operator = Equal | NotEqual | Has

  datatype Literal = Text(text: string) | Integer(number: nat)

  /** Empty is the query that selects everything. */
  datatype Expr =
    | Empty
    | Comparison(field: string, operator: Operator, literal: Literal)
    | And(left: Expr, right: Expr)
    | Or(left: Expr, right: Expr)
    | Not(operand: Expr)

  /** Bad stands for input the lexer throws on. */
  datatype Token =
    | Name(text: string) | Quoted(text: string) | Digits(text: string)
    | Compare(operator: Operator) | AndWord | OrWord | NotWord | Open | Close | End | Bad

  // ---------------------------------------------------------------- lexer

  predicate IsAlpha(c: char) { 'a' <= c <= 'z' || 'A' <= c <= 'Z' }

  predicate StartsName(c: char) { IsAlpha(c) || c == '_' }

  predicate InName(c: char) { IsAlnum(c) || c == '_' || c == '.' }

  function Uppercase(s: string): (u: string)
    ensures |u| == |s|
  {
    if s == "" then "" else [Upper(s[0])] + Uppercase(s[1..])
  }

  function Word(s: string): Token {
    var upper := Uppercase(s);
    if upper == "AND" then AndWord
    else if upper == "OR" then OrWord
    else if upper == "NOT" then NotWord
    else if upper == "HAS" then Compare(Has)
    else Name(s)
  }

  /** The longest prefix of name characters, or of digits. */
  function NameLength(s: string): (n: nat)
    ensures n <= |s|
  {
    if s == "" || !InName(s[0]) then 0 else 1 + NameLength(s[1..])
  }

  function DigitsLength(s: string): (n: nat)
    ensures n <= |s|
  {
    if s == "" || !IsDigit(s[0]) then 0 else 1 + DigitsLength(s[1..])
  }

  /** The rest of a quoted string after its opening quote: its value, and what follows. */
  function ReadQuote(s: string): (r: Parsed<string>)
    ensures r.Ok? ==> |r.rest| < |s|
  {
    if s == "" then Err
    else if s[0] == '"' then Ok("", s[1..])
    else if s[0] == '\\' then
      if |s| == 1 then Err
      else
        var (value, rest) :- ReadQuote(s[2..]);
        Ok([s[1]] + value, rest)
    else
      var (value, rest) :- ReadQuote(s[1..]);
      Ok([s[0]] + value, rest)
  }

  /** The first token of s, which does not start with whitespace, and what follows it. */
  function Scan(s: string): (r: (Token, string))
    ensures r.0 != End && r.0 != Bad ==> |r.1| < |s|
  {
    if s == "" then (End, "")
    else if s[0] == '(' then (Open, s[1..])
    else if s[0] == ')' then (Close, s[1..])
    else if s[0] == '=' then (Compare(Equal), s[1..])
    else if s[0] == '!' && |s| > 1 && s[1] == '=' then (Compare(NotEqual), s[2..])
    else if s[0] == '"' then
      (match ReadQuote(s[1..]) case Ok(value, rest) => (Quoted(value), rest) case Err => (Bad, ""))
    else if IsDigit(s[0]) then (Digits(s[..DigitsLength(s)]), s[DigitsLength(s)..])
    else if StartsName(s[0]) then (Word(s[..NameLength(s)]), s[NameLength(s)..])
    else (Bad, "")
  }

  /** All tokens of s, up to its end or to the first thing the lexer throws on. */
  function Tokens(s: string): (ts: seq<Token>)
    ensures ts != []
    decreases |s|
  {
    var (t, rest) := Scan(SkipWs(s));
    if t == End || t == Bad then [t] else [t] + Tokens(rest)
  }

  // ---------------------------------------------------------------- parser

  function Peek(ts: seq<Token>): Token { if ts == [] then End else ts[0] }

  /** Moves on to the next token, which the lexer may throw on. */
  function Advance(ts: seq<Token>): (r: Option<seq<Token>>)
    requires ts != []
    ensures r.Some? ==> r.value == ts[1..]
  {
    if Peek(ts[1..]) == Bad then None else Some(ts[1..])
  }

  type Parse = Option<(Expr, seq<Token>)>

  function ParseOr(ts: seq<Token>): (r: Parse)
    ensures r.Some? ==> |r.value.1| < |ts|
    decreases |ts|, 4
  {
    match ParseAnd(ts)
    case Some((e, rest)) => OrTail(e, rest)
    case None => None
  }

  function OrTail(e: Expr, ts: seq<Token>): (r: Parse)
    ensures r.Some? ==> |r.value.1| <= |ts|
    decreases |ts|, 3
  {
    if Peek(ts) != OrWord then Some((e, ts))
    else
      match Advance(ts)
      case None => None
      case Some(more) =>
        match ParseAnd(more)
        case Some((right, rest)) => OrTail(Or(e, right), rest)
        case None => None
  }

  function ParseAnd(ts: seq<Token>): (r: Parse)
    ensures r.Some? ==> |r.value.1| < |ts|
    decreases |ts|, 3
  {
    match ParseUnary(ts)
    case Some((e, rest)) => AndTail(e, rest)
    case None => None
  }

  function AndTail(e: Expr, ts: seq<Token>): (r: Parse)
    ensures r.Some? ==> |r.value.1| <= |ts|
    decreases |ts|, 2
  {
    if Peek(ts) != AndWord then Some((e, ts))
    else
      match Advance(ts)
      case None => None
      case Some(more) =>
        match ParseUnary(more)
        case Some((right, rest)) => AndTail(And(e, right), rest)
        case None => None
  }

  function ParseUnary(ts: seq<Token>): (r: Parse)
    ensures r.Some? ==> |r.value.1| < |ts|
    decreases |ts|, 1
  {
    if Peek(ts) == NotWord then
      match Advance(ts)
      case None => None
      case Some(more) =>
        match ParseUnary(more)
        case Some((e, rest)) => Some((Not(e), rest))
        case None => None
    else ParsePrimary(ts)
  }

  function ParsePrimary(ts: seq<Token>): (r: Parse)
    ensures r.Some? ==> |r.value.1| < |ts|
    decreases |ts|, 0
  {
    if Peek(ts) == Open then
      match Advance(ts)
      case None => None
      case Some(more) =>
        match ParseOr(more)
        case None => None
        case Some((e, rest)) =>
          if Peek(rest) != Close then None
          else match Advance(rest) case Some(after) => Some((e, after)) case None => None
    else ParseComparison(ts)
  }

  /** A field name, an operator and a literal; decimal literals above the 64-bit range are
      refused, others keep their low 32 bits. */
  function ParseComparison(ts: seq<Token>): (r: Parse)
    ensures r.Some? ==> |r.value.1| < |ts|
  {
    if !Peek(ts).Name? || Advance(ts).None? then None
    else
      var ts' := ts[1..];
      if !Peek(ts').Compare? || Advance(ts').None? then None
      else
        var ts'' := ts'[1..];
        match LiteralOf(Peek(ts''))
        case None => None
        case Some(literal) =>
          match Advance(ts'')
          case None => None
          case Some(rest) => Some((Comparison(ts[0].text, ts'[0].operator, literal), rest))
  }

  function LiteralOf(t: Token): (r: Option<Literal>)
    ensures r.Some? ==> t != End
  {
    match t
    case Quoted(text) => Some(Text(text))
    case Digits(text) =>
      var n := DecimalValue(text);
      if n >= TWO_64 then None else Some(Integer(n % TWO_32))
    case _ => None
  }

  /** The number a string of digits stands for. */
  function DecimalValue(s: string): nat {
    if s == "" then 0
    else 10 * DecimalValue(s[..|s| - 1]) + (if IsDigit(s[|s| - 1]) then DigitValue(s[|s| - 1]) else 0)
  }

  function ParseTokens(ts: seq<Token>): Option<Expr>
    requires ts != []
  {
    if ts[0] == Bad then None
    else
      match ParseOr(ts)
      case Some((e, rest)) => if Peek(rest) == End then Some(e) else None
      case None => None
  }

  function ParseQuery(query: string): Option<Expr> {
    if query == "" then Some(Empty) else ParseTokens(Tokens(query))
  }

  // ---------------------------------------------------------------- printer

  /** Binding strength of an expression and of the place it stands in: 0 for either side of
      nothing, 1 beside OR, 2 beside AND and under NOT. */
  function Strength(e: Expr): nat {
    match e
    case Or(_, _) => 0
    case And(_, _) => 1
    case _ => 2
  }

  /** The tokens of e in a place of the given strength, followed by rest. Parentheses stand
      only where e binds weaker than its place. */
  function Print(e: Expr, place: nat, rest: seq<Token>): seq<Token>
    decreases e, 1
  {
    if Strength(e) < place then [Open] + PrintBare(e, [Close] + rest) else PrintBare(e, rest)
  }

  function PrintBare(e: Expr, rest: seq<Token>): seq<Token>
    decreases e, 0
  {
    match e
    case Or(l, r) => Print(l, 0, [OrWord] + Print(r, 1, rest))
    case And(l, r) => Print(l, 1, [AndWord] + Print(r, 2, rest))
    case Not(x) => [NotWord] + Print(x, 2, rest)
    case Comparison(field, operator, literal) => [Name(field), Compare(operator), LiteralToken(literal)] + rest
    case Empty => rest
  }

  function LiteralToken(l: Literal): Token {
    match l
    case Text(text) => Quoted(text)
    case Integer(n) => Digits(DigitsOf(n))
  }

  function DigitsOf(n: nat): string {
    (if n < 10 then "" else DigitsOf(n / 10)) + [(n % 10 + 48) as char]
  }

  /** Field names that lex as names, and numbers that fit 32 bits. */
  predicate IsName(s: string) {
    s != "" && StartsName(s[0]) && (forall c | c in s :: InName(c)) && Word(s).Name?
  }

  predicate Printable(e: Expr) {
    match e
    case Empty => false
    case Comparison(field, _, literal) => IsName(field) && (literal.Integer? ==> literal.number < TWO_32)
    case And(l, r) => Printable(l) && Printable(r)
    case Or(l, r) => Printable(l) && Printable(r)
    case Not(x) => Printable(x)
  }

  // ---------------------------------------------------------------- parsing what was printed

  predicate NoBad(ts: seq<Token>) {
    forall t | t in ts :: t != Bad
  }

  lemma {:induction false} DigitsValue(n: nat)
    ensures DecimalValue(DigitsOf(n)) == n && DigitsOf(n) != ""
    ensures forall c | c in DigitsOf(n) :: IsDigit(c)
  {
    var s := DigitsOf(n);
    if n >= 10 {
      DigitsValue(n / 10);
      assert s[..|s| - 1] == DigitsOf(n / 10);
    } else {
      assert s[..|s| - 1] == "";
    }
  }

  lemma {:induction false} PrintNoBad(e: Expr, place: nat, rest: seq<Token>)
    requires NoBad(rest)
    ensures NoBad(Print(e, place, rest))
    decreases e, 1
  {
    if Strength(e) < place { PrintBareNoBad(e, [Close] + rest); } else { PrintBareNoBad(e, rest); }
  }

  lemma {:induction false} PrintBareNoBad(e: Expr, rest: seq<Token>)
    requires NoBad(rest)
    ensures NoBad(PrintBare(e, rest))
    decreases e, 0
  {
    match e
    case Or(l, r) =>
      PrintNoBad(r, 1, rest);
      PrintNoBad(l, 0, [OrWord] + Print(r, 1, rest));
    case And(l, r) =>
      PrintNoBad(r, 2, rest);
      PrintNoBad(l, 1, [AndWord] + Print(r, 2, rest));
    case Not(x) => PrintNoBad(x, 2, rest);
    case _ =>
  }

  lemma AdvanceOver(t: Token, rest: seq<Token>)
    requires NoBad(rest)
    ensures ([t] + rest)[1..] == rest && Advance([t] + rest) == Some(rest)
  {
    if rest != [] { assert rest[0] in rest; }
  }

  lemma IntegerReads(text: string, n: nat)
    requires DecimalValue(text) == n < TWO_32
    ensures LiteralOf(Digits(text)) == Some(Integer(n))
  {
  }

  lemma LiteralReads(l: Literal)
    requires l.Integer? ==> l.number < TWO_32
    ensures LiteralOf(LiteralToken(l)) == Some(l)
  {
    if l.Integer? {
      DigitsValue(l.number);
      IntegerReads(DigitsOf(l.number), l.number);
    }
  }

  lemma ComparisonParses(e: Expr, rest: seq<Token>)
    requires e.Comparison? && Printable(e) && NoBad(rest)
    ensures ParseComparison(PrintBare(e, rest)) == Some((e, rest))
  {
    var after := [LiteralToken(e.literal)] + rest;
    var after' := [Compare(e.operator)] + after;
    assert PrintBare(e, rest) == [Name(e.field)] + after';
    AdvanceOver(LiteralToken(e.literal), rest);
    AdvanceOver(Compare(e.operator), after);
    AdvanceOver(Name(e.field), after');
    LiteralReads(e.literal);
  }

  lemma NotParses(x: Expr, operand: seq<Token>, rest: seq<Token>)
    requires NoBad(operand) && ParseUnary(operand) == Some((x, rest))
    ensures ParseUnary([NotWord] + operand) == Some((Not(x), rest))
  {
    AdvanceOver(NotWord, operand);
  }

  lemma Parenthesised(e: Expr, inner: seq<Token>, rest: seq<Token>)
    requires NoBad(inner) && NoBad(rest) && ParseOr(inner) == Some((e, [Close] + rest))
    ensures ParseUnary([Open] + inner) == Some((e, rest))
  {
    AdvanceOver(Open, inner);
    AdvanceOver(Close, rest);
  }

  lemma AndChain(l: Expr, r: Expr, right: seq<Token>, rest: seq<Token>)
    requires NoBad(right) && ParseUnary(right) == Some((r, rest))
    ensures AndTail(l, [AndWord] + right) == AndTail(And(l, r), rest)
  {
    AdvanceOver(AndWord, right);
  }

  lemma OrChain(l: Expr, r: Expr, right: seq<Token>, rest: seq<Token>)
    requires NoBad(right) && ParseAnd(right) == Some((r, rest))
    ensures OrTail(l, [OrWord] + right) == OrTail(Or(l, r), rest)
  {
    AdvanceOver(OrWord, right);
  }

  /** NOT takes the next operand only; weaker expressions stand in parentheses. */
  lemma {:induction false} UnaryParses(e: Expr, rest: seq<Token>)
    requires Printable(e) && NoBad(rest)
    ensures ParseUnary(Print(e, 2, rest)) == Some((e, rest))
    decreases e, 1
  {
    match e
    case Comparison(_, _, _) => ComparisonParses(e, rest);
    case Not(x) =>
      UnaryParses(x, rest);
      PrintNoBad(x, 2, rest);
      NotParses(x, Print(x, 2, rest), rest);
    case And(_, _) =>
      AndBareParses(e, [Close] + rest);
      PrintBareNoBad(e, [Close] + rest);
      Parenthesised(e, PrintBare(e, [Close] + rest), rest);
    case Or(_, _) =>
      OrBareParses(e, [Close] + rest);
      PrintBareNoBad(e, [Close] + rest);
      Parenthesised(e, PrintBare(e, [Close] + rest), rest);
  }

  /** AND chains associate to the left, whatever stands beside them. */
  lemma {:induction false} AndParses(e: Expr, rest: seq<Token>)
    requires Printable(e) && NoBad(rest)
    ensures ParseAnd(Print(e, 1, rest)) == AndTail(e, rest)
    decreases e, 2
  {
    if e.And? { AndBareParses(e, rest); } else { UnaryParses(e, rest); }
  }

  lemma {:induction false} AndBareParses(e: Expr, rest: seq<Token>)
    requires e.And? && Printable(e) && NoBad(rest)
    ensures ParseAnd(PrintBare(e, rest)) == AndTail(e, rest)
    decreases e, 0
  {
    PrintNoBad(e.right, 2, rest);
    UnaryParses(e.right, rest);
    AndChain(e.left, e.right, Print(e.right, 2, rest), rest);
    AndParses(e.left, [AndWord] + Print(e.right, 2, rest));
  }

  /** OR chains associate to the left and give way to AND on both sides. */
  lemma {:induction false} OrParses(e: Expr, rest: seq<Token>)
    requires Printable(e) && NoBad(rest) && Peek(rest) != AndWord
    ensures ParseOr(Print(e, 0, rest)) == OrTail(e, rest)
    decreases e, 3
  {
    if e.Or? { OrBareParses(e, rest); } else { AndParses(e, rest); }
  }

  lemma {:induction false} OrBareParses(e: Expr, rest: seq<Token>)
    requires e.Or? && Printable(e) && NoBad(rest) && Peek(rest) != AndWord
    ensures ParseOr(PrintBare(e, rest)) == OrTail(e, rest)
    decreases e, 0
  {
    PrintNoBad(e.right, 1, rest);
    AndParses(e.right, rest);
    OrChain(e.left, e.right, Print(e.right, 1, rest), rest);
    OrParses(e.left, [OrWord] + Print(e.right, 1, rest));
  }

  /** The parser undoes the printer on tokens. */
  lemma TokenRoundTrip(e: Expr)
    requires Printable(e)
    ensures Print(e, 0, [End]) != [] && ParseTokens(Print(e, 0, [End])) == Some(e)
  {
    PrintNoBad(e, 0, [End]);
    OrParses(e, [End]);
    assert Print(e, 0, [End]) != [] ==> Print(e, 0, [End])[0] in Print(e, 0, [End]);
  }

  // ---------------------------------------------------------------- lexing what was rendered

  function Escaped(s: string): string {
    if s == "" then ""
    else (if s[0] == '"' || s[0] == '\\' then ['\\', s[0]] else [s[0]]) + Escaped(s[1..])
  }

  function OperatorText(operator: Operator): string {
    match operator case Equal => "=" case NotEqual => "!=" case Has => "HAS"
  }

  function TokenText(t: Token): string {
    match t
    case Name(text) => text
    case Quoted(text) => "\"" + (Escaped(text) + "\"")
    case Digits(text) => text
    case Compare(operator) => OperatorText(operator)
    case AndWord => "AND"
    case OrWord => "OR"
    case NotWord => "NOT"
    case Open => "("
    case Close => ")"
    case _ => ""
  }

  /** Tokens joined by a gap, up to the end marker. */
  function Render(ts: seq<Token>, gap: string): string {
    if ts == [] || ts[0] == End || ts[0] == Bad then ""
    else TokenText(ts[0]) + (gap + Render(ts[1..], gap))
  }

  /** Tokens the lexer can produce, before one end marker. */
  predicate Lexable(ts: seq<Token>) {
    ts != [] &&
    if ts[0] == End then |ts| == 1 else LexableToken(ts[0]) && Lexable(ts[1..])
  }

  predicate LexableToken(t: Token) {
    match t
    case Name(text) => IsName(text)
    case Digits(text) => text != "" && forall c | c in text :: IsDigit(c)
    case End => false
    case Bad => false
    case _ => true
  }

  predicate IsGap(gap: string) {
    gap != "" && forall c | c in gap :: IsSpace(c)
  }

  lemma {:induction false} GapSkipped(gap: string, rest: string)
    requires forall c | c in gap :: IsSpace(c)
    ensures SkipWs(gap + rest) == SkipWs(rest)
  {
    if gap == "" {
      assert gap + rest == rest;
    } else {
      assert gap[0] in gap && forall c | c in gap[1..] :: c in gap;
      GapSkipped(gap[1..], rest);
      assert (gap + rest)[1..] == gap[1..] + rest;
    }
  }

  lemma {:induction false} NameLengthOf(s: string, rest: string)
    requires (forall c | c in s :: InName(c)) && (rest == "" || !InName(rest[0]))
    ensures NameLength(s + rest) == |s|
  {
    if s == "" {
      assert s + rest == rest;
    } else {
      assert s[0] in s && forall c | c in s[1..] :: c in s;
      NameLengthOf(s[1..], rest);
      assert (s + rest)[1..] == s[1..] + rest;
    }
  }

  lemma {:induction false} DigitsLengthOf(s: string, rest: string)
    requires (forall c | c in s :: IsDigit(c)) && (rest == "" || !IsDigit(rest[0]))
    ensures DigitsLength(s + rest) == |s|
  {
    if s == "" {
      assert s + rest == rest;
    } else {
      assert s[0] in s && forall c | c in s[1..] :: c in s;
      DigitsLengthOf(s[1..], rest);
      assert (s + rest)[1..] == s[1..] + rest;
    }
  }

  lemma QuoteStep(c: char, text: string, value: string, rest: string)
    requires ReadQuote(text) == Ok(value, rest)
    ensures ReadQuote(['\\', c] + text) == Ok([c] + value, rest)
    ensures c != '"' && c != '\\' ==> ReadQuote([c] + text) == Ok([c] + value, rest)
  {
    assert (['\\', c] + text)[2..] == text && ([c] + text)[1..] == text;
  }

  lemma {:induction false} QuoteRead(s: string, rest: string)
    ensures ReadQuote(Escaped(s) + ("\"" + rest)) == Ok(s, rest)
  {
    var text := Escaped(s) + ("\"" + rest);
    if s == "" {
      assert text == "\"" + rest;
    } else {
      QuoteRead(s[1..], rest);
      var tail := Escaped(s[1..]) + ("\"" + rest);
      QuoteStep(s[0], tail, s[1..], rest);
      assert s == [s[0]] + s[1..];
      var first := if s[0] == '"' || s[0] == '\\' then ['\\', s[0]] else [s[0]];
      Regroup(first, Escaped(s[1..]), "\"" + rest);
    }
  }

  lemma ScanName(s: string, rest: string)
    requires s != "" && StartsName(s[0]) && (forall c | c in s :: InName(c)) && rest != "" && IsSpace(rest[0])
    ensures Scan(s + rest) == (Word(s), rest)
  {
    NameLengthOf(s, rest);
    assert (s + rest)[0] == s[0] && (s + rest)[..|s|] == s && (s + rest)[|s|..] == rest;
  }

  lemma ScanDigits(s: string, rest: string)
    requires s != "" && (forall c | c in s :: IsDigit(c)) && rest != "" && IsSpace(rest[0])
    ensures Scan(s + rest) == (Digits(s), rest)
  {
    assert s[0] in s;
    DigitsLengthOf(s, rest);
    assert (s + rest)[0] == s[0] && (s + rest)[..|s|] == s && (s + rest)[|s|..] == rest;
  }

  lemma ScanQuoted(s: string, rest: string)
    ensures Scan(TokenText(Quoted(s)) + rest) == (Quoted(s), rest)
  {
    var text := TokenText(Quoted(s)) + rest;
    assert text[1..] == Escaped(s) + ("\"" + rest) && text[0] == '"';
    QuoteRead(s, rest);
  }

  lemma Words()
    ensures Word("AND") == AndWord && Word("OR") == OrWord && Word("NOT") == NotWord && Word("HAS") == Compare(Has)
  {
    assert Uppercase("D") == "D" && Uppercase("ND") == "ND" && Uppercase("AND") == "AND";
    assert Uppercase("R") == "R" && Uppercase("OR") == "OR";
    assert Uppercase("T") == "T" && Uppercase("OT") == "OT" && Uppercase("NOT") == "NOT";
    assert Uppercase("S") == "S" && Uppercase("AS") == "AS" && Uppercase("HAS") == "HAS";
  }

  lemma ScanSymbol(t: Token, rest: string)
    requires t == Open || t == Close || t == Compare(Equal) || t == Compare(NotEqual)
    ensures Scan(TokenText(t) + rest) == (t, rest)
  {
    var text := TokenText(t) + rest;
    assert text[|TokenText(t)|..] == rest;
  }

  /** Whatever is rendered before a gap is read back as one token. */
  lemma ScanToken(t: Token, rest: string)
    requires LexableToken(t) && rest != "" && IsSpace(rest[0])
    ensures Scan(TokenText(t) + rest) == (t, rest)
  {
    Words();
    match t
    case Name(text) => ScanName(text, rest);
    case Quoted(text) => ScanQuoted(text, rest);
    case Digits(text) => ScanDigits(text, rest);
    case Compare(Has) => ScanName("HAS", rest);
    case AndWord => ScanName("AND", rest);
    case OrWord => ScanName("OR", rest);
    case NotWord => ScanName("NOT", rest);
    case _ => ScanSymbol(t, rest);
  }

  lemma TokenStart(t: Token, rest: string)
    requires LexableToken(t)
    ensures SkipWs(TokenText(t) + rest) == TokenText(t) + rest
  {
    var text := TokenText(t);
    assert text != "" && !IsSpace(text[0]) by {
      if t.Digits? { assert t.text[0] in t.text; }
    }
    assert (text + rest)[0] == text[0];
  }

  /** Lexing rendered tokens gives the tokens, whatever whitespace separates them. */
  lemma {:induction false} LexRender(ts: seq<Token>, gap: string)
    requires Lexable(ts) && IsGap(gap)
    ensures Tokens(Render(ts, gap)) == ts
  {
    if ts[0] != End {
      var rest := gap + Render(ts[1..], gap);
      assert gap[0] in gap && rest[0] == gap[0];
      TokenStart(ts[0], rest);
      ScanToken(ts[0], rest);
      GapSkipped(gap, Render(ts[1..], gap));
      LexRender(ts[1..], gap);
      assert ts == [ts[0]] + ts[1..];
    }
  }

  // ---------------------------------------------------------------- the whole round trip

  lemma {:induction false} PrintLexable(e: Expr, place: nat, rest: seq<Token>)
    requires Printable(e) && Lexable(rest)
    ensures Lexable(Print(e, place, rest))
    decreases e, 1
  {
    if Strength(e) < place {
      assert ([Close] + rest)[1..] == rest;
      PrintBareLexable(e, [Close] + rest);
      assert ([Open] + PrintBare(e, [Close] + rest))[1..] == PrintBare(e, [Close] + rest);
    } else {
      PrintBareLexable(e, rest);
    }
  }

  lemma {:induction false} PrintBareLexable(e: Expr, rest: seq<Token>)
    requires Printable(e) && Lexable(rest)
    ensures Lexable(PrintBare(e, rest))
    decreases e, 0
  {
    match e
    case Or(l, r) =>
      PrintLexable(r, 1, rest);
      assert ([OrWord] + Print(r, 1, rest))[1..] == Print(r, 1, rest);
      PrintLexable(l, 0, [OrWord] + Print(r, 1, rest));
    case And(l, r) =>
      PrintLexable(r, 2, rest);
      assert ([AndWord] + Print(r, 2, rest))[1..] == Print(r, 2, rest);
      PrintLexable(l, 1, [AndWord] + Print(r, 2, rest));
    case Not(x) =>
      PrintLexable(x, 2, rest);
      assert ([NotWord] + Print(x, 2, rest))[1..] == Print(x, 2, rest);
    case Comparison(field, operator, literal) =>
      ComparisonLexable(field, operator, literal, rest);
  }

  lemma ComparisonLexable(field: string, operator: Operator, literal: Literal, rest: seq<Token>)
    requires IsName(field) && Lexable(rest)
    ensures Lexable([Name(field), Compare(operator), LiteralToken(literal)] + rest)
  {
    var ts := [Name(field), Compare(operator), LiteralToken(literal)] + rest;
    assert ts[1..][1..][1..] == rest;
    if literal.Integer? { DigitsValue(literal.number); }
    assert Lexable(ts[1..][1..]);
    assert Lexable(ts[1..]);
  }

  /** The text of an expression, tokens separated by the given whitespace. */
  function QueryText(e: Expr, gap: string): string {
    if e == Empty then "" else Render(Print(e, 0, [End]), gap)
  }

  /** Parsing undoes printing: precedence, left association, parentheses, escapes and numbers
      all come back, and the empty query is the one that selects everything. */
  lemma QueryRoundTrip(e: Expr, gap: string)
    requires (Printable(e) || e == Empty) && IsGap(gap)
    ensures ParseQuery(QueryText(e, gap)) == Some(e)
  {
    if e != Empty {
      var ts := Print(e, 0, [End]);
      PrintLexable(e, 0, [End]);
      LexRender(ts, gap);
      TokenRoundTrip(e);
      PrintStart(e, 0, [End]);
    }
  }

  lemma {:induction false} PrintStart(e: Expr, place: nat, rest: seq<Token>)
    requires Printable(e)
    ensures Print(e, place, rest) != [] && Print(e, place, rest)[0] != End
    decreases e
  {
    match e
    case Or(l, r) => if Strength(e) < place { } else { PrintStart(l, 0, [OrWord] + Print(r, 1, rest)); }
    case And(l, r) => if Strength(e) < place { } else { PrintStart(l, 1, [AndWord] + Print(r, 2, rest)); }
    case _ =>
  }

  // ---------------------------------------------------------------- the fewest parentheses

  function Opens(ts: seq<Token>): nat {
    if ts == [] then 0 else (if ts[0] == Open then 1 else 0) + Opens(ts[1..])
  }

  lemma OpensCons(t: Token, ts: seq<Token>)
    ensures Opens([t] + ts) == (if t == Open then 1 else 0) + Opens(ts)
  {
    assert ([t] + ts)[1..] == ts;
  }

  /** Parentheses the printer writes for e in a place of the given strength. */
  function Needed(e: Expr, place: nat): nat
    decreases e, 1
  {
    (if Strength(e) < place then 1 else 0) + NeededInside(e)
  }

  function NeededInside(e: Expr): nat
    decreases e, 0
  {
    match e
    case Or(l, r) => Needed(l, 0) + Needed(r, 1)
    case And(l, r) => Needed(l, 1) + Needed(r, 2)
    case Not(x) => Needed(x, 2)
    case _ => 0
  }

  lemma {:induction false} PrintOpens(e: Expr, place: nat, rest: seq<Token>)
    ensures Opens(Print(e, place, rest)) == Needed(e, place) + Opens(rest)
    decreases e, 1
  {
    if Strength(e) < place {
      PrintBareOpens(e, [Close] + rest);
      OpensCons(Close, rest);
      OpensCons(Open, PrintBare(e, [Close] + rest));
    } else {
      PrintBareOpens(e, rest);
    }
  }

  lemma {:induction false} PrintBareOpens(e: Expr, rest: seq<Token>)
    ensures Opens(PrintBare(e, rest)) == NeededInside(e) + Opens(rest)
    decreases e, 0
  {
    match e
    case Or(l, r) =>
      PrintOpens(r, 1, rest);
      OpensCons(OrWord, Print(r, 1, rest));
      PrintOpens(l, 0, [OrWord] + Print(r, 1, rest));
    case And(l, r) =>
      PrintOpens(r, 2, rest);
      OpensCons(AndWord, Print(r, 2, rest));
      PrintOpens(l, 1, [AndWord] + Print(r, 2, rest));
    case Not(x) =>
      PrintOpens(x, 2, rest);
      OpensCons(NotWord, Print(x, 2, rest));
    case Comparison(field, operator, literal) =>
      var literalOn := [LiteralToken(literal)] + rest;
      OpensCons(LiteralToken(literal), rest);
      OpensCons(Compare(operator), literalOn);
      OpensCons(Name(field), [Compare(operator)] + literalOn);
      assert PrintBare(e, rest) == [Name(field)] + ([Compare(operator)] + literalOn);
    case Empty =>
  }

  /** Whatever parses to e at some level has spent at least the parentheses e needs there. */
  lemma {:induction false} OrSpends(ts: seq<Token>)
    requires ParseOr(ts).Some?
    ensures Opens(ts) >= Needed(ParseOr(ts).value.0, 0) + Opens(ParseOr(ts).value.1)
    decreases |ts|, 4
  {
    AndSpends(ts);
    var (e, rest) := ParseAnd(ts).value;
    OrTailSpends(e, rest);
  }

  lemma {:induction false} OrTailSpends(e: Expr, ts: seq<Token>)
    requires OrTail(e, ts).Some?
    ensures Needed(e, 0) + Opens(ts) >= Needed(OrTail(e, ts).value.0, 0) + Opens(OrTail(e, ts).value.1)
    decreases |ts|, 3
  {
    if Peek(ts) == OrWord {
      AndSpends(ts[1..]);
      var (right, rest) := ParseAnd(ts[1..]).value;
      OrTailSpends(Or(e, right), rest);
    }
  }

  lemma {:induction false} AndSpends(ts: seq<Token>)
    requires ParseAnd(ts).Some?
    ensures Opens(ts) >= Needed(ParseAnd(ts).value.0, 1) + Opens(ParseAnd(ts).value.1)
    decreases |ts|, 3
  {
    UnarySpends(ts);
    var (e, rest) := ParseUnary(ts).value;
    AndTailSpends(e, rest);
  }

  lemma {:induction false} AndTailSpends(e: Expr, ts: seq<Token>)
    requires AndTail(e, ts).Some?
    ensures Needed(e, 1) + Opens(ts) >= Needed(AndTail(e, ts).value.0, 1) + Opens(AndTail(e, ts).value.1)
    decreases |ts|, 2
  {
    if Peek(ts) == AndWord {
      UnarySpends(ts[1..]);
      var (right, rest) := ParseUnary(ts[1..]).value;
      AndTailSpends(And(e, right), rest);
    }
  }

  lemma {:induction false} UnarySpends(ts: seq<Token>)
    requires ParseUnary(ts).Some?
    ensures Opens(ts) >= Needed(ParseUnary(ts).value.0, 2) + Opens(ParseUnary(ts).value.1)
    decreases |ts|, 1
  {
    if Peek(ts) == NotWord {
      UnarySpends(ts[1..]);
    } else if Peek(ts) == Open {
      OrSpends(ts[1..]);
    } else {
      ComparisonSpends(ts);
    }
  }

  lemma ComparisonSpends(ts: seq<Token>)
    requires ParseComparison(ts).Some?
    ensures Opens(ts) >= Opens(ParseComparison(ts).value.1) && ParseComparison(ts).value.0.Comparison?
  {
    assert Opens(ts) >= Opens(ts[1..]);
    assert Opens(ts[1..]) >= Opens(ts[1..][1..]);
    assert Opens(ts[1..][1..]) >= Opens(ts[1..][1..][1..]);
  }

  /** No sequence of tokens that parses to e has fewer parentheses than the printed one. */
  lemma FewestParentheses(e: Expr, ts: seq<Token>)
    requires ts != [] && ParseTokens(ts) == Some(e)
    ensures Opens(Print(e, 0, [End])) <= Opens(ts)
  {
    OrSpends(ts);
    PrintOpens(e, 0, [End]);
    OpensCons(End, []);
  }

  // ---------------------------------------------------------------- what the parser returns

  predicate NamesOk(ts: seq<Token>) {
    forall t | t in ts && t.Name? :: IsName(t.text)
  }

  lemma {:induction false} NamePrefix(s: string)
    ensures forall c | c in s[..NameLength(s)] :: InName(c)
  {
    if s != "" && InName(s[0]) {
      NamePrefix(s[1..]);
      assert s[..NameLength(s)] == [s[0]] + s[1..][..NameLength(s[1..])];
    }
  }

  lemma ScannedName(s: string)
    requires Scan(s).0.Name?
    ensures IsName(Scan(s).0.text)
  {
    NamePrefix(s);
    assert s[..NameLength(s)][0] == s[0];
  }

  lemma {:induction false} LexedNames(s: string)
    ensures NamesOk(Tokens(s))
    decreases |s|
  {
    var (t, rest) := Scan(SkipWs(s));
    if t.Name? { ScannedName(SkipWs(s)); }
    if t != End && t != Bad { LexedNames(rest); }
  }

  /** A parse of well-named tokens gives a printable expression and leaves such tokens. */
  predicate Good(p: Parse) {
    p.Some? ==> Printable(p.value.0) && NamesOk(p.value.1)
  }

  lemma NamesLater(ts: seq<Token>)
    requires ts != [] && NamesOk(ts)
    ensures NamesOk(ts[1..])
  {
  }

  lemma {:induction false} OrGood(ts: seq<Token>)
    requires NamesOk(ts)
    ensures Good(ParseOr(ts))
    decreases |ts|, 4
  {
    AndGood(ts);
    if ParseAnd(ts).Some? { OrTailGood(ParseAnd(ts).value.0, ParseAnd(ts).value.1); }
  }

  lemma {:induction false} OrTailGood(e: Expr, ts: seq<Token>)
    requires Printable(e) && NamesOk(ts)
    ensures Good(OrTail(e, ts))
    decreases |ts|, 3
  {
    if Peek(ts) == OrWord {
      NamesLater(ts);
      AndGood(ts[1..]);
      if ParseAnd(ts[1..]).Some? { OrTailGood(Or(e, ParseAnd(ts[1..]).value.0), ParseAnd(ts[1..]).value.1); }
    }
  }

  lemma {:induction false} AndGood(ts: seq<Token>)
    requires NamesOk(ts)
    ensures Good(ParseAnd(ts))
    decreases |ts|, 3
  {
    UnaryGood(ts);
    if ParseUnary(ts).Some? { AndTailGood(ParseUnary(ts).value.0, ParseUnary(ts).value.1); }
  }

  lemma {:induction false} AndTailGood(e: Expr, ts: seq<Token>)
    requires Printable(e) && NamesOk(ts)
    ensures Good(AndTail(e, ts))
    decreases |ts|, 2
  {
    if Peek(ts) == AndWord {
      NamesLater(ts);
      UnaryGood(ts[1..]);
      if ParseUnary(ts[1..]).Some? { AndTailGood(And(e, ParseUnary(ts[1..]).value.0), ParseUnary(ts[1..]).value.1); }
    }
  }

  lemma {:induction false} UnaryGood(ts: seq<Token>)
    requires NamesOk(ts)
    ensures Good(ParseUnary(ts))
    decreases |ts|, 1
  {
    if Peek(ts) == NotWord {
      NamesLater(ts);
      UnaryGood(ts[1..]);
    } else {
      PrimaryGood(ts);
      assert ParseUnary(ts) == ParsePrimary(ts);
    }
  }

  lemma {:induction false} PrimaryGood(ts: seq<Token>)
    requires NamesOk(ts)
    ensures Good(ParsePrimary(ts))
    decreases |ts|, 0
  {
    if Peek(ts) == Open {
      NamesLater(ts);
      OrGood(ts[1..]);
      if ParsePrimary(ts).Some? { NamesLater(ParseOr(ts[1..]).value.1); }
    } else {
      ComparisonGood(ts);
    }
  }

  lemma ComparisonGood(ts: seq<Token>)
    requires NamesOk(ts)
    ensures Good(ParseComparison(ts))
  {
    if ParseComparison(ts).Some? {
      assert ts[0] in ts;
      NamesLater(ts);
      NamesLater(ts[1..]);
      NamesLater(ts[1..][1..]);
    }
  }

  /** The printable expressions, with the empty query, are exactly those that some text parses to. */
  lemma ParsedIffPrintable(e: Expr)
    ensures Printable(e) || e == Empty <==> exists query :: ParseQuery(query) == Some(e)
  {
    if Printable(e) || e == Empty {
      QueryRoundTrip(e, " ");
      assert ParseQuery(QueryText(e, " ")) == Some(e);
    }
    if exists query :: ParseQuery(query) == Some(e) {
      var query :| ParseQuery(query) == Some(e);
      if query != "" {
        LexedNames(query);
        OrGood(Tokens(query));
      }
    }
  }
}
