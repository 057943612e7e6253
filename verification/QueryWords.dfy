/** The words of resource queries (resource_manager/resource_manager.cpp) and how tightly they bind,
    against literal text and tokens. */
module QueryWords {
  import opened Common
  import opened ErdText
  import opened ResourceQuery

  // ---------------------------------------------------------------- words

  lemma SymbolTokens(rest: string)
    ensures Scan("(" + rest) == (Open, rest) && Scan(")" + rest) == (Close, rest)
    ensures Scan("=" + rest) == (Compare(Equal), rest) && Scan("!=" + rest) == (Compare(NotEqual), rest)
    ensures Scan("") == (End, "")
  {
    ScanSymbol(Open, rest);
    ScanSymbol(Close, rest);
    ScanSymbol(Compare(Equal), rest);
    ScanSymbol(Compare(NotEqual), rest);
  }

  /** Keywords are read in any case; any other name stays as it is written. */
  lemma KeywordTokens(s: string)
    ensures Word(s) == AndWord <==> Uppercase(s) == "AND"
    ensures Word(s) == OrWord <==> Uppercase(s) == "OR"
    ensures Word(s) == NotWord <==> Uppercase(s) == "NOT"
    ensures Word(s) == Compare(Has) <==> Uppercase(s) == "HAS"
    ensures Uppercase(s) !in {"AND", "OR", "NOT", "HAS"} ==> Word(s) == Name(s)
  {
  }

  lemma MixedCase()
    ensures Word("and") == AndWord && Word("Or") == OrWord && Word("noT") == NotWord && Word("has") == Compare(Has)
    ensures Word("an") == Name("an")
  {
    assert "and"[1..] == "nd" && "nd"[1..] == "d" && "d"[1..] == "";
    assert Uppercase("d") == "D" && Uppercase("nd") == "ND" && Uppercase("and") == "AND";
    assert "Or"[1..] == "r" && Uppercase("r") == "R" && Uppercase("Or") == "OR";
    assert "noT"[1..] == "oT" && "oT"[1..] == "T" && Uppercase("T") == "T" && Uppercase("oT") == "OT";
    assert Uppercase("noT") == "NOT";
    assert "has"[1..] == "as" && "as"[1..] == "s" && Uppercase("s") == "S" && Uppercase("as") == "AS";
    assert Uppercase("has") == "HAS";
    assert "an"[1..] == "n" && Uppercase("n") == "N" && Uppercase("an") == "AN";
  }

  /** A quoted string ends at the next quote that no backslash precedes; a backslash makes the
      character after it plain, whatever that is. */
  lemma QuotedCharacters(c: char, s: string)
    ensures ReadQuote("\"" + s) == Ok("", s) && ReadQuote("").Err? && ReadQuote("\\").Err?
    ensures ReadQuote(s).Ok? ==>
              && ReadQuote("\\" + ([c] + s)) == Ok([c] + ReadQuote(s).value, ReadQuote(s).rest)
              && (c != '"' && c != '\\' ==> ReadQuote([c] + s) == Ok([c] + ReadQuote(s).value, ReadQuote(s).rest))
  {
    assert ("\"" + s)[1..] == s && ([c] + s)[1..] == s && ("\\" + ([c] + s))[2..] == s;
  }

  // ---------------------------------------------------------------- literals

  lemma LiteralTokens(text: string, digits: string)
    requires digits != "" && forall c | c in digits :: IsDigit(c)
    ensures LiteralOf(Quoted(text)) == Some(Text(text))
    ensures DecimalValue(digits) >= 0x1_0000_0000_0000_0000 ==> LiteralOf(Digits(digits)).None?
    ensures DecimalValue(digits) < 0x1_0000_0000 ==> LiteralOf(Digits(digits)) == Some(Integer(DecimalValue(digits)))
    ensures DecimalValue(digits) < 0x1_0000_0000_0000_0000 ==>
              LiteralOf(Digits(digits)) == Some(Integer(DecimalValue(digits) % 0x1_0000_0000))
  {
  }

  lemma {:induction false} DecimalMore(digits: string, d: nat)
    requires d < 10
    ensures DecimalValue(digits + [(48 + d) as char]) == 10 * DecimalValue(digits) + d
  {
    assert (digits + [(48 + d) as char])[..|digits|] == digits;
  }

  // ---------------------------------------------------------------- binding

  predicate IsTest(e: Expr) {
    e.Comparison? && Printable(e)
  }

  /** The tokens of a comparison: field, operator, literal. */
  function TestTokens(e: Expr): seq<Token>
    requires e.Comparison?
  {
    [Name(e.field), Compare(e.operator), LiteralToken(e.literal)]
  }

  lemma TestPrints(e: Expr, place: nat, rest: seq<Token>)
    requires e.Comparison? && place <= 2
    ensures Print(e, place, rest) == TestTokens(e) + rest
  {
  }

  lemma OrPrints(l: Expr, r: Expr, rest: seq<Token>)
    ensures Print(Or(l, r), 0, rest) == Print(l, 0, [OrWord] + Print(r, 1, rest))
  {
  }

  lemma AndPrints(l: Expr, r: Expr, place: nat, rest: seq<Token>)
    requires place <= 1
    ensures Print(And(l, r), place, rest) == Print(l, 1, [AndWord] + Print(r, 2, rest))
  {
  }

  lemma NotPrints(x: Expr, place: nat, rest: seq<Token>)
    requires place <= 2
    ensures Print(Not(x), place, rest) == [NotWord] + Print(x, 2, rest)
  {
  }

  lemma GroupPrints(l: Expr, r: Expr, rest: seq<Token>)
    ensures Print(And(l, r), 2, rest) == [Open] + Print(l, 1, [AndWord] + Print(r, 2, [Close] + rest))
  {
  }

  /** AND binds tighter than OR, on either side of it. */
  lemma AndBeforeOr(x: Expr, y: Expr, z: Expr)
    requires IsTest(x) && IsTest(y) && IsTest(z)
    ensures ParseTokens(TestTokens(x) + ([OrWord] + (TestTokens(y) + ([AndWord] + (TestTokens(z) + [End])))))
         == Some(Or(x, And(y, z)))
    ensures ParseTokens(TestTokens(x) + ([AndWord] + (TestTokens(y) + ([OrWord] + (TestTokens(z) + [End])))))
         == Some(Or(And(x, y), z))
  {
    var tail := TestTokens(z) + [End];
    TestPrints(z, 2, [End]);
    TestPrints(z, 1, [End]);
    TestPrints(y, 1, [AndWord] + tail);
    TestPrints(y, 2, [OrWord] + tail);
    TestPrints(x, 0, [OrWord] + (TestTokens(y) + ([AndWord] + tail)));
    TestPrints(x, 1, [AndWord] + (TestTokens(y) + ([OrWord] + tail)));
    OrPrints(x, And(y, z), [End]);
    AndPrints(y, z, 1, [End]);
    TokenRoundTrip(Or(x, And(y, z)));
    OrPrints(And(x, y), z, [End]);
    AndPrints(x, y, 0, [OrWord] + tail);
    TokenRoundTrip(Or(And(x, y), z));
  }

  /** Equal words group from the left. */
  lemma LeftFirst(x: Expr, y: Expr, z: Expr)
    requires IsTest(x) && IsTest(y) && IsTest(z)
    ensures ParseTokens(TestTokens(x) + ([OrWord] + (TestTokens(y) + ([OrWord] + (TestTokens(z) + [End])))))
         == Some(Or(Or(x, y), z))
    ensures ParseTokens(TestTokens(x) + ([AndWord] + (TestTokens(y) + ([AndWord] + (TestTokens(z) + [End])))))
         == Some(And(And(x, y), z))
  {
    var tail := TestTokens(z) + [End];
    TestPrints(z, 1, [End]);
    TestPrints(z, 2, [End]);
    TestPrints(y, 1, [OrWord] + tail);
    TestPrints(y, 2, [AndWord] + tail);
    TestPrints(x, 0, [OrWord] + (TestTokens(y) + ([OrWord] + tail)));
    TestPrints(x, 1, [AndWord] + (TestTokens(y) + ([AndWord] + tail)));
    OrPrints(Or(x, y), z, [End]);
    OrPrints(x, y, [OrWord] + tail);
    TokenRoundTrip(Or(Or(x, y), z));
    AndPrints(And(x, y), z, 0, [End]);
    AndPrints(x, y, 1, [AndWord] + tail);
    TokenRoundTrip(And(And(x, y), z));
  }

  /** NOT binds tightest, and parentheses override everything. */
  lemma NotFirst(x: Expr, y: Expr)
    requires IsTest(x) && IsTest(y)
    ensures ParseTokens([NotWord] + (TestTokens(x) + ([AndWord] + (TestTokens(y) + [End])))) == Some(And(Not(x), y))
    ensures ParseTokens([NotWord] + ([Open] + (TestTokens(x) + ([AndWord] + (TestTokens(y) + ([Close] + [End]))))))
         == Some(Not(And(x, y)))
  {
    var tail := TestTokens(y) + [End];
    TestPrints(y, 2, [End]);
    TestPrints(x, 2, [AndWord] + tail);
    AndPrints(Not(x), y, 0, [End]);
    NotPrints(x, 1, [AndWord] + tail);
    TokenRoundTrip(And(Not(x), y));
    TestPrints(y, 2, [Close] + [End]);
    TestPrints(x, 1, [AndWord] + (TestTokens(y) + ([Close] + [End])));
    NotPrints(And(x, y), 0, [End]);
    GroupPrints(x, y, [End]);
    TokenRoundTrip(Not(And(x, y)));
  }
}
