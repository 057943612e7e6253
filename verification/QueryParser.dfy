/** The resource manager's query objects (resource_manager/resource_manager.cpp): the lexer and
    the parser with their cursors. */
module QueryParser {
  import opened Common
  import opened ErdText
  import opened ResourceQuery

  class QueryLexer {
    const input: string
    var position: nat

    predicate Valid()
      reads this
    {
      position <= |input|
    }

    /** What is left to read. */
    function Rest(): string
      requires Valid()
      reads this
    {
      input[position..]
    }

    constructor (input: string)
      ensures Valid() && this.input == input && Rest() == input
    {
      this.input, position := input, 0;
    }

    method SkipWhitespace()
      requires Valid()
      modifies this
      ensures Valid() && Rest() == SkipWs(old(Rest()))
    {
      while position < |input| && IsSpace(input[position])
        invariant Valid()
        invariant SkipWs(Rest()) == SkipWs(old(Rest()))
        decreases |input| - position
      {
        assert input[position..][1..] == input[position + 1..];
        position := position + 1;
      }
    }

    /** Reads a quoted string; none if the input ends inside it. */
    method ReadString() returns (value: Option<string>)
      requires Valid() && position < |input|
      modifies this
      ensures Valid()
      ensures var r := ReadQuote(old(Rest())[1..]);
              match r
              case Ok(text, rest) => value == Some(text) && Rest() == rest
              case Err => value == None
    {
      position := position + 1;
      assert Rest() == old(Rest())[1..];
      var text := "";
      ghost var whole := ReadQuote(Rest());
      ContinuesFirst(whole);
      while position < |input|
        invariant Valid()
        invariant Continues(whole, text, ReadQuote(Rest()))
        decreases |input| - position
      {
        var current := input[position];
        QuoteContinues(whole, text, Rest());
        assert Rest()[1..] == input[position + 1..];
        position := position + 1;
        if current == '"' {
          return Some(text);
        }
        if current == '\\' {
          if position >= |input| {
            return None;
          }
          assert Rest()[1..] == input[position + 1..];
          current := input[position];
          position := position + 1;
        }
        text := text + [current];
      }
      return None;
    }

    method ReadInteger() returns (t: Token)
      requires Valid()
      modifies this
      ensures Valid()
      ensures var n := DigitsLength(old(Rest())); t == Digits(old(Rest())[..n]) && Rest() == old(Rest())[n..]
    {
      var start := position;
      while position < |input| && IsDigit(input[position])
        invariant start <= position <= |input|
        invariant DigitsLength(input[start..]) == (position - start) + DigitsLength(Rest())
        decreases |input| - position
      {
        assert input[position..][1..] == input[position + 1..];
        position := position + 1;
      }
      assert input[start..][..position - start] == input[start..position];
      t := Digits(input[start..position]);
    }

    method ReadIdentifier() returns (t: Token)
      requires Valid()
      modifies this
      ensures Valid()
      ensures var n := NameLength(old(Rest())); t == Word(old(Rest())[..n]) && Rest() == old(Rest())[n..]
    {
      var start := position;
      while position < |input| && InName(input[position])
        invariant start <= position <= |input|
        invariant NameLength(input[start..]) == (position - start) + NameLength(Rest())
        decreases |input| - position
      {
        assert input[position..][1..] == input[position + 1..];
        position := position + 1;
      }
      assert input[start..][..position - start] == input[start..position];
      var upper := ToUpper(input[start..position]);
      if upper == "AND" { return AndWord; }
      if upper == "OR" { return OrWord; }
      if upper == "NOT" { return NotWord; }
      if upper == "HAS" { return Compare(Has); }
      return Name(input[start..position]);
    }

    /** The next token; Bad where the lexer throws. */
    method Next() returns (t: Token)
      requires Valid()
      modifies this
      ensures Valid()
      ensures var (token, rest) := Scan(SkipWs(old(Rest()))); t == token && (t != Bad ==> Rest() == rest)
    {
      SkipWhitespace();
      if position >= |input| {
        return End;
      }
      var current := input[position];
      if current == '(' {
        position := position + 1;
        return Open;
      }
      if current == ')' {
        position := position + 1;
        return Close;
      }
      if current == '=' {
        position := position + 1;
        return Compare(Equal);
      }
      if current == '!' && position + 1 < |input| && input[position + 1] == '=' {
        position := position + 2;
        return Compare(NotEqual);
      }
      if current == '"' {
        var value := ReadString();
        return if value.Some? then Quoted(value.value) else Bad;
      }
      if IsDigit(current) {
        t := ReadInteger();
        return;
      }
      if StartsName(current) {
        t := ReadIdentifier();
        return;
      }
      return Bad;
    }
  }

  /** One character of a quoted string, escaped or not, or its end. */
  lemma QuoteContinues(whole: Parsed<string>, text: string, s: string)
    requires Continues(whole, text, ReadQuote(s)) && s != ""
    ensures s[0] == '"' ==> whole == Ok(text, s[1..])
    ensures s[0] == '\\' && s[1..] == "" ==> whole == Err
    ensures s[0] == '\\' && s[1..] != "" ==> Continues(whole, text + [s[1..][0]], ReadQuote(s[1..][1..]))
    ensures s[0] != '"' && s[0] != '\\' ==> Continues(whole, text + [s[0]], ReadQuote(s[1..]))
  {
    if s[0] == '"' {
      assert text + "" == text;
    } else if s[0] == '\\' {
      if |s| > 1 {
        assert s[1..][1..] == s[2..];
        ContinuesMore(whole, text, s[1], ReadQuote(s[2..]));
      }
    } else {
      ContinuesMore(whole, text, s[0], ReadQuote(s[1..]));
    }
  }

  method ToUpper(s: string) returns (upper: string)
    ensures upper == Uppercase(s)
  {
    upper := "";
    for i := 0 to |s|
      invariant upper + Uppercase(s[i..]) == Uppercase(s)
    {
      assert s[i..][1..] == s[i + 1..];
      upper := upper + [Upper(s[i])];
    }
  }

  class Parser {
    const lexer: QueryLexer
    var current: Token

    predicate Valid()
      reads this, lexer
    {
      lexer.Valid() && current != Bad && (current == End ==> lexer.Rest() == "")
    }

    /** The current token and all that follow. */
    function Stream(): (ts: seq<Token>)
      requires Valid()
      reads this, lexer
      ensures ts != [] && ts[0] == current
    {
      if current == End then [End] else [current] + Tokens(lexer.Rest())
    }

    constructor (lexer: QueryLexer, current: Token)
      requires lexer.Valid() && current != Bad && (current == End ==> lexer.Rest() == "")
      ensures this.lexer == lexer && this.current == current && Valid()
    {
      this.lexer, this.current := lexer, current;
    }

    /** Moves past the expected token; fails on another one, or if the lexer throws. Past the end
        there is only the end. */
    method Consume(expected: Token) returns (ok: bool)
      requires Valid()
      modifies this, lexer
      ensures ok == (old(current) == expected && Advance(old(Stream())).Some?)
      ensures ok ==> Valid() && Stream() == if expected == End then old(Stream()) else old(Stream())[1..]
      ensures old(current) != expected ==> Valid() && Stream() == old(Stream())
    {
      if current != expected {
        return false;
      }
      var t := lexer.Next();
      if t == Bad {
        return false;
      }
      current := t;
      return true;
    }

    method ParseOrChain() returns (e: Option<Expr>)
      requires Valid()
      modifies this, lexer
      ensures e.Some? ==> Valid()
      ensures ParseOr(old(Stream())) == if e.Some? then Some((e.value, Stream())) else None
      decreases |Stream()|, 3
    {
      e := ParseAndChain();
      if e.None? {
        return;
      }
      while current == OrWord
        invariant e.Some? && Valid()
        invariant |Stream()| < |old(Stream())|
        invariant ParseOr(old(Stream())) == OrTail(e.value, Stream())
        decreases |Stream()|
      {
        var ok := Consume(OrWord);
        if !ok {
          return None;
        }
        var right := ParseAndChain();
        if right.None? {
          return None;
        }
        e := Some(Or(e.value, right.value));
      }
    }

    method ParseAndChain() returns (e: Option<Expr>)
      requires Valid()
      modifies this, lexer
      ensures e.Some? ==> Valid()
      ensures ParseAnd(old(Stream())) == if e.Some? then Some((e.value, Stream())) else None
      decreases |Stream()|, 2
    {
      e := ParseUnaryOperand();
      if e.None? {
        return;
      }
      while current == AndWord
        invariant e.Some? && Valid()
        invariant |Stream()| < |old(Stream())|
        invariant ParseAnd(old(Stream())) == AndTail(e.value, Stream())
        decreases |Stream()|
      {
        var ok := Consume(AndWord);
        if !ok {
          return None;
        }
        var right := ParseUnaryOperand();
        if right.None? {
          return None;
        }
        e := Some(And(e.value, right.value));
      }
    }

    method ParseUnaryOperand() returns (e: Option<Expr>)
      requires Valid()
      modifies this, lexer
      ensures e.Some? ==> Valid()
      ensures ParseUnary(old(Stream())) == if e.Some? then Some((e.value, Stream())) else None
      decreases |Stream()|, 1
    {
      if current == NotWord {
        var ok := Consume(NotWord);
        if !ok {
          return None;
        }
        e := ParseUnaryOperand();
        if e.Some? {
          e := Some(Not(e.value));
        }
      } else {
        e := ParsePrimaryOperand();
      }
    }

    method ParsePrimaryOperand() returns (e: Option<Expr>)
      requires Valid()
      modifies this, lexer
      ensures e.Some? ==> Valid()
      ensures ParsePrimary(old(Stream())) == if e.Some? then Some((e.value, Stream())) else None
      decreases |Stream()|, 0
    {
      if current == Open {
        var ok := Consume(Open);
        if !ok {
          return None;
        }
        e := ParseOrChain();
        if e.None? {
          return None;
        }
        ok := Consume(Close);
        if !ok {
          return None;
        }
      } else {
        e := ParseOneComparison();
      }
    }

    method ParseOneComparison() returns (e: Option<Expr>)
      requires Valid()
      modifies this, lexer
      ensures e.Some? ==> Valid()
      ensures ParseComparison(old(Stream())) == if e.Some? then Some((e.value, Stream())) else None
    {
      if !current.Name? {
        return None;
      }
      var field := current.text;
      var ok := Consume(current);
      if !ok {
        return None;
      }
      if !current.Compare? {
        return None;
      }
      var operator := current.operator;
      ok := Consume(current);
      if !ok {
        return None;
      }
      var literal := LiteralOf(current);
      if literal.None? {
        return None;
      }
      ok := Consume(current);
      if !ok {
        return None;
      }
      return Some(Comparison(field, operator, literal.value));
    }
  }

  lemma StartOfStream(query: string, first: Token, rest: string)
    requires (first, rest) == Scan(SkipWs(query))
    ensures Tokens(query) == if first == End || first == Bad then [first] else [first] + Tokens(rest)
  {
  }

  /** A parser on the first token of a query; none if the lexer throws at once. */
  method StartParser(query: string) returns (parser: Parser?)
    ensures parser == null <==> Tokens(query)[0] == Bad
    ensures parser != null ==>
              fresh(parser) && fresh(parser.lexer) && parser.Valid() && parser.Stream() == Tokens(query)
  {
    var lexer := new QueryLexer(query);
    var first := lexer.Next();
    StartOfStream(query, first, Scan(SkipWs(query)).1);
    if first == Bad {
      return null;
    }
    parser := new Parser(lexer, first);
  }

  /** Parses a whole query; none where the source throws. */
  method ParseQueryExpression(query: string) returns (e: Option<Expr>)
    ensures e == ParseQuery(query)
  {
    if query == "" {
      return Some(Empty);
    }
    var parser := StartParser(query);
    if parser == null {
      return None;
    }
    e := parser.ParseOrChain();
    if e.Some? && parser.current != End {
      e := None;
    }
  }
}
