/** Parsing the printed form of a printable tree gives the tree back, through all three nested
    grammars, whatever text follows. */
module ErdRoundTrip {
  import opened Common
  import opened ErdTree
  import opened ErdText

  // ---------------------------------------------------------------- printable trees

  predicate PrintableSegment(segment: string) {
    segment != "" && forall c | c in segment :: c != '.' && !EndsPath(c)
  }

  predicate PrintablePath(path: FieldPath) {
    path != [] && (forall seg | seg in path :: PrintableSegment(seg))
    && PrintableSegment(path[0]) && !IsSpace(path[0][0])
  }

  predicate PrintableValue(v: FieldValue) {
    match v
    case ValueUnset => false
    case BytesValue(_) => true
    case StringValue(t) => '"' !in t
    case IntValue(n) => -(TWO_64 / 2) < n < TWO_64 / 2
    case UintValue(n) => n < TWO_64
    case BoolValue(_) => true
    case EnumValue(n) => -(TWO_32 / 2) <= n < TWO_32 / 2
  }

  predicate PrintableEnd(t: EndTree) {
    match t
    case EndUnset => false
    case EndTrue => true
    case EndFalse => true
    case EndEquals(l, r) => l.Some? && r.Some? && PrintableEnd(l.value) && PrintableEnd(r.value)
    case EndAnd(l, r) => l.Some? && r.Some? && PrintableEnd(l.value) && PrintableEnd(r.value)
    case EndOr(l, r) => l.Some? && r.Some? && PrintableEnd(l.value) && PrintableEnd(r.value)
    case EndAllOf(ts) => forall u | u in ts :: PrintableEnd(u)
    case EndAnyOf(ts) => forall u | u in ts :: PrintableEnd(u)
    case TypeEquals(kind) => kind.Some?
    case ValueEquals(_) => true
    case SignerEquals(signer) => signer.Some?
  }

  predicate PrintableMes(t: MesTree) {
    match t
    case MesUnset => false
    case MesTrue => true
    case MesFalse => true
    case MesEquals(l, r) => l.Some? && r.Some? && PrintableMes(l.value) && PrintableMes(r.value)
    case MesAnd(l, r) => l.Some? && r.Some? && PrintableMes(l.value) && PrintableMes(r.value)
    case MesOr(l, r) => l.Some? && r.Some? && PrintableMes(l.value) && PrintableMes(r.value)
    case MesAllOf(ts) => forall u | u in ts :: PrintableMes(u)
    case MesAnyOf(ts) => forall u | u in ts :: PrintableMes(u)
    case FieldEquals(path, value) =>
      path.Some? && value.Some? && PrintablePath(path.value) && PrintableValue(value.value)
    case FieldExists(path) => path.Some? && PrintablePath(path.value)
    case FieldContains(path, sub, value) =>
      path.Some? && sub.Some? && value.Some?
      && PrintablePath(path.value) && PrintablePath(sub.value) && PrintableValue(value.value)
  }

  /** No unset node, every child present, and every literal one the grammar can carry. */
  predicate Printable(t: Tree) {
    match t
    case Unset => false
    case True => true
    case False => true
    case Equals(l, r) => l.Some? && r.Some? && Printable(l.value) && Printable(r.value)
    case And(l, r) => l.Some? && r.Some? && Printable(l.value) && Printable(r.value)
    case Or(l, r) => l.Some? && r.Some? && Printable(l.value) && Printable(r.value)
    case AllOf(ts) => forall u | u in ts :: Printable(u)
    case AnyOf(ts) => forall u | u in ts :: Printable(u)
    case EndorsementLeaf(p) => p.Some? && PrintableEnd(p.value)
    case MessageLeaf(c) => c.Some? && PrintableMes(c.value)
  }

  // ---------------------------------------------------------------- hex and UUIDs

  lemma HexDigitValue(n: int)
    requires 0 <= n < 16
    ensures IsHex(HexDigit(n)) && HexValue(HexDigit(n)) == n
  {
  }

  lemma {:induction false} HexRoundTrip(b: Bytes, rest: string)
    requires rest == "" || !IsHex(rest[0])
    ensures ParseHexBytes(HexText(b, rest)) == Ok(b, rest)
  {
    if b != [] {
      HexRoundTrip(b[1..], rest);
      HexDigitValue(b[0] / 16);
      HexDigitValue(b[0] % 16);
      assert HexText(b, rest)[2..] == HexText(b[1..], rest);
      assert [b[0]] + b[1..] == b;
    }
  }

  lemma {:induction false} HexTextAppend(b: Bytes, rest: string)
    ensures HexText(b, rest) == HexText(b, "") + rest
    ensures |HexText(b, "")| == 2 * |b|
    ensures forall c | c in HexText(b, "") :: IsHex(c)
    ensures HexPairs(HexText(b, "")) == b
  {
    if b != [] {
      HexTextAppend(b[1..], rest);
      HexDigitValue(b[0] / 16);
      HexDigitValue(b[0] % 16);
      assert HexText(b, "")[2..] == HexText(b[1..], "");
    }
  }

  lemma {:induction false} HexTextConcat(a: Bytes, b: Bytes)
    ensures HexText(a + b, "") == HexText(a, "") + HexText(b, "")
  {
    if a == [] {
      assert a + b == b;
    } else {
      HexTextConcat(a[1..], b);
      assert (a + b)[1..] == a[1..] + b;
    }
  }

  /** The text of a UUID, group by group. */
  lemma UuidTextGroups(b: Uuid, rest: string)
    ensures UuidText(b, rest)
         == HexText(b[..4], "") + ("-" + (HexText(b[4..6], "") + ("-" + (HexText(b[6..8], "")
            + ("-" + (HexText(b[8..10], "") + ("-" + (HexText(b[10..], "") + rest))))))))
  {
    HexTextAppend(b[10..], rest);
    HexTextAppend(b[8..10], "-" + HexText(b[10..], rest));
    HexTextAppend(b[6..8], "-" + HexText(b[8..10], "-" + HexText(b[10..], rest)));
    HexTextAppend(b[4..6], "-" + HexText(b[6..8], "-" + HexText(b[8..10], "-" + HexText(b[10..], rest))));
    HexTextAppend(b[..4], "-" + HexText(b[4..6], "-" + HexText(b[6..8], "-" + HexText(b[8..10],
                                "-" + HexText(b[10..], rest)))));
  }

  /** Five groups of hex digits joined by dashes are a UUID, and give their digits back. */
  lemma GroupsParse(g1: string, g2: string, g3: string, g4: string, g5: string, rest: string)
    requires |g1| == 8 && |g2| == 4 && |g3| == 4 && |g4| == 4 && |g5| == 12
    requires forall c | c in g1 || c in g2 || c in g3 || c in g4 || c in g5 :: IsHex(c)
    ensures var s := g1 + ("-" + (g2 + ("-" + (g3 + ("-" + (g4 + ("-" + (g5 + rest))))))));
            && IsUuid(s) && s[36..] == rest
            && s[..36][..8] == g1 && s[..36][9..13] == g2 && s[..36][14..18] == g3
            && s[..36][19..23] == g4 && s[..36][24..] == g5
  {
    var s := g1 + ("-" + (g2 + ("-" + (g3 + ("-" + (g4 + ("-" + (g5 + rest))))))));
    assert s[..8] == g1 && s[8] == '-' && s[9..13] == g2 && s[13] == '-' && s[14..18] == g3 && s[18] == '-';
    assert s[19..23] == g4 && s[23] == '-' && s[24..36] == g5;
    forall i | 0 <= i < 36
      ensures if i == 8 || i == 13 || i == 18 || i == 23 then s[i] == '-' else IsHex(s[i])
    {
      if i < 8 {
        assert s[i] == g1[i];
      } else if 9 <= i < 13 {
        assert s[i] == g2[i - 9];
      } else if 14 <= i < 18 {
        assert s[i] == g3[i - 14];
      } else if 19 <= i < 23 {
        assert s[i] == g4[i - 19];
      } else if 24 <= i {
        assert s[i] == g5[i - 24];
      }
    }
  }

  lemma HexTextSplit(b: Bytes, i: nat, j: nat)
    requires i <= j <= |b|
    ensures HexText(b[i..], "") == HexText(b[i..j], "") + HexText(b[j..], "")
  {
    assert b[i..] == b[i..j] + b[j..];
    HexTextConcat(b[i..j], b[j..]);
  }

  lemma HexTextOfGroups(b: Uuid)
    ensures HexText(b, "") == HexText(b[..4], "") + (HexText(b[4..6], "") + (HexText(b[6..8], "")
                              + (HexText(b[8..10], "") + HexText(b[10..], ""))))
  {
    assert b == b[0..] && b[..4] == b[0..4];
    HexTextSplit(b, 0, 4);
    HexTextSplit(b, 4, 6);
    HexTextSplit(b, 6, 8);
    HexTextSplit(b, 8, 10);
  }

  lemma UuidRoundTrip(b: Uuid, rest: string)
    ensures ParseUuid(UuidText(b, rest)) == Ok(b, rest)
  {
    var s := UuidText(b, rest);
    assert IsUuid(s) && s[36..] == rest && StripDashes(s[..36]) == HexText(b, "") by {
      HexTextAppend(b[..4], "");
      HexTextAppend(b[4..6], "");
      HexTextAppend(b[6..8], "");
      HexTextAppend(b[8..10], "");
      HexTextAppend(b[10..], "");
      UuidTextGroups(b, rest);
      GroupsParse(HexText(b[..4], ""), HexText(b[4..6], ""), HexText(b[6..8], ""),
                  HexText(b[8..10], ""), HexText(b[10..], ""), rest);
      UuidDigits(s[..36]);
      HexTextOfGroups(b);
    }
    HexTextAppend(b, "");
  }

  lemma UuidTextStart(b: Uuid, rest: string)
    ensures UuidText(b, rest) != "" && !IsSpace(UuidText(b, rest)[0])
  {
    HexDigitValue(b[..4][0] / 16);
  }

  lemma {:induction false} HexTextStart(b: Bytes, rest: string)
    requires rest == "" || !IsSpace(rest[0])
    ensures HexText(b, rest) == "" || !IsSpace(HexText(b, rest)[0])
  {
    if b != [] { HexDigitValue(b[0] / 16); }
  }

  lemma UuidArgRoundTrip(b: Uuid, rest: string)
    ensures ParseUuidArg(UuidText(b, ")" + rest)) == Ok(b, rest)
  {
    UuidTextStart(b, ")" + rest);
    UuidRoundTrip(b, ")" + rest);
  }

  lemma HexArgRoundTrip(b: Bytes, rest: string)
    ensures ParseHexArg(HexText(b, ")" + rest)) == Ok(b, rest)
  {
    HexTextStart(b, ")" + rest);
    HexRoundTrip(b, ")" + rest);
  }

  // ---------------------------------------------------------------- numbers, paths, values

  /** Reading one more digit. */
  lemma DigitStep(acc: nat, d: nat, rest: string)
    requires d < 10 && acc * 10 + d < TWO_64
    ensures IsDigit((d + 48) as char)
    ensures ReadDigits([(d + 48) as char] + rest, acc) == ReadDigits(rest, acc * 10 + d)
  {
    assert ([(d + 48) as char] + rest)[1..] == rest;
  }

  lemma {:induction false} DigitsRoundTrip(n: nat, rest: string)
    requires n < TWO_64
    ensures DecimalText(n, rest) != "" && IsDigit(DecimalText(n, rest)[0])
    ensures ReadDigits(DecimalText(n, rest), 0) == ReadDigits(rest, n)
    decreases n
  {
    DigitStep(n / 10, n % 10, rest);
    if n >= 10 {
      DigitsRoundTrip(n / 10, [(n % 10 + 48) as char] + rest);
    }
  }

  lemma NumberRoundTrip(n: int, rest: string)
    requires -(TWO_64 / 2) < n < TWO_64 / 2
    requires rest != "" && !IsDigit(rest[0]) && rest[0] != 'u' && rest[0] != 'U'
    ensures ParseNumber(IntText(n, rest)) == Ok(IntValue(n), rest)
  {
    DigitsRoundTrip(if n < 0 then -n else n, rest);
  }

  lemma UnsignedRoundTrip(n: nat, rest: string)
    requires n < TWO_64
    ensures ParseNumber(DecimalText(n, "u" + rest)) == Ok(UintValue(n), rest)
  {
    DigitsRoundTrip(n, "u" + rest);
  }

  lemma ToInt32Keeps(n: int)
    requires -(TWO_32 / 2) <= n < TWO_32 / 2
    ensures ToInt32(n) == n
  {
  }

  lemma EnumRoundTrip(n: int, rest: string)
    requires -(TWO_32 / 2) <= n < TWO_32 / 2
    ensures ParseEnum(IntText(n, ")" + rest)) == Ok(EnumValue(n), rest)
  {
    var s := IntText(n, ")" + rest);
    ToInt32Keeps(n);
    if n < 0 {
      DigitsRoundTrip(-n, ")" + rest);
      assert SkipWs(s) == s && s[1..] == DecimalText(-n, ")" + rest);
    } else {
      DigitsRoundTrip(n, ")" + rest);
      assert SkipWs(s) == s && s[0] != '-';
    }
  }

  lemma {:induction false} QuotedRoundTrip(t: string, rest: string)
    requires '"' !in t
    ensures ReadQuoted(t + ("\"" + rest)) == Ok(t, rest)
  {
    if t == "" {
      assert t + ("\"" + rest) == "\"" + rest;
    } else {
      assert t[0] in t && t == [t[0]] + t[1..];
      QuotedRoundTrip(t[1..], rest);
      assert (t + ("\"" + rest))[1..] == t[1..] + ("\"" + rest);
    }
  }

  lemma {:induction false} SegmentRoundTrip(segment: string, read: string, done: FieldPath, rest: string)
    requires forall c | c in segment :: c != '.' && !EndsPath(c)
    ensures ReadPath(segment + rest, done, read) == ReadPath(rest, done, read + segment)
    decreases segment
  {
    if segment == "" {
      assert segment + rest == rest && read + segment == read;
    } else {
      var c := segment[0];
      assert c in segment && forall d | d in segment[1..] :: d in segment;
      SegmentRoundTrip(segment[1..], read + [c], done, rest);
      assert (segment + rest)[1..] == segment[1..] + rest;
      assert read + [c] + segment[1..] == read + segment;
    }
  }

  lemma {:induction false} PathLoopRoundTrip(path: FieldPath, done: FieldPath, rest: string)
    requires path != [] && forall seg | seg in path :: PrintableSegment(seg)
    requires rest != "" && EndsPath(rest[0])
    ensures ReadPath(PathText(path, rest), done, "") == Ok(done + path, rest)
    decreases path
  {
    assert path[0] in path;
    if |path| == 1 {
      SegmentRoundTrip(path[0], "", done, rest);
      assert path == [path[0]] && "" + path[0] == path[0];
    } else {
      var more := "." + PathText(path[1..], rest);
      SegmentRoundTrip(path[0], "", done, more);
      assert "" + path[0] == path[0];
      PathLoopRoundTrip(path[1..], done + [path[0]], rest);
      assert done + [path[0]] + path[1..] == done + path;
    }
  }

  lemma PathRoundTrip(path: FieldPath, rest: string)
    requires PrintablePath(path) && rest != "" && EndsPath(rest[0])
    ensures ParsePath(PathText(path, rest)) == Ok(path, rest)
  {
    PathLoopRoundTrip(path, [], rest);
    assert [] + path == path;
    assert PathText(path, rest)[0] == path[0][0];
  }

  // ---------------------------------------------------------------- words

  lemma {:induction false} StartsWithSelf(word: string, rest: string)
    ensures StartsWith(word + rest, word)
    ensures StartsWithIgnoringCase(word + rest, word)
  {
    if word != "" {
      StartsWithSelf(word[1..], rest);
      assert (word + rest)[1..] == word[1..] + rest;
    }
  }

  /** A digit or a minus sign does not start any other kind of literal. */
  lemma NumberIsNoWord(s: string)
    requires s != "" && (IsDigit(s[0]) || s[0] == '-')
    ensures !BoolWord(s, "true") && !BoolWord(s, "false") && !StartsWith(s, "enum(")
  {
  }

  lemma ValueRoundTrip(v: FieldValue, rest: string)
    requires PrintableValue(v)
    ensures ParseValue(ValueText(v, ")" + rest)) == Ok(v, ")" + rest)
  {
    match v
    case BytesValue(b) =>
      HexRoundTrip(b, ")" + rest);
    case StringValue(t) =>
      QuotedRoundTrip(t, ")" + rest);
    case IntValue(n) =>
      IntValueRoundTrip(n, rest);
    case UintValue(n) =>
      UintValueRoundTrip(n, rest);
    case BoolValue(b) =>
      BoolValueRoundTrip(b, ")" + rest);
    case EnumValue(n) =>
      EnumRoundTrip(n, ")" + rest);
      StartsWithSelf("enum(", IntText(n, ")" + (")" + rest)));
      assert ValueText(v, ")" + rest)[5..] == IntText(n, ")" + (")" + rest));
  }

  lemma IntValueRoundTrip(n: int, rest: string)
    requires -(TWO_64 / 2) < n < TWO_64 / 2
    ensures ParseValue(IntText(n, ")" + rest)) == Ok(IntValue(n), ")" + rest)
  {
    NumberRoundTrip(n, ")" + rest);
    DigitsRoundTrip(if n < 0 then -n else n, ")" + rest);
    NumberIsNoWord(IntText(n, ")" + rest));
    if n >= 0 { DecimalIsNoHex(n, ")" + rest); }
  }

  lemma UintValueRoundTrip(n: nat, rest: string)
    requires n < TWO_64
    ensures ParseValue(DecimalText(n, "u" + (")" + rest))) == Ok(UintValue(n), ")" + rest)
  {
    UnsignedRoundTrip(n, ")" + rest);
    DigitsRoundTrip(n, "u" + (")" + rest));
    NumberIsNoWord(DecimalText(n, "u" + (")" + rest)));
    DecimalIsNoHex(n, "u" + (")" + rest));
  }

  /** No decimal literal is mistaken for 0x. */
  lemma {:induction false} DecimalIsNoHex(n: nat, rest: string)
    requires rest != "" && rest[0] != 'x' && rest[0] != 'X'
    ensures |DecimalText(n, rest)| > 1 && DecimalText(n, rest)[1] != 'x' && DecimalText(n, rest)[1] != 'X'
  {
    if n >= 10 { DecimalIsNoHex(n / 10, [(n % 10 + 48) as char] + rest); }
  }

  lemma BoolValueRoundTrip(b: bool, rest: string)
    requires rest != "" && !IsAlnum(rest[0])
    ensures ParseValue(ValueText(BoolValue(b), rest)) == Ok(BoolValue(b), rest)
  {
    var s := ValueText(BoolValue(b), rest);
    if b {
      StartsWithSelf("true", rest);
      assert s == "true" + rest && BoolWord(s, "true") && s[4..] == rest;
    } else {
      StartsWithSelf("false", rest);
      assert s == "false" + rest && s[0] == 'f';
      assert BoolWord(s, "false") && s[5..] == rest;
    }
  }

  // ---------------------------------------------------------------- heads

  lemma OperatorHeads(x: string)
    ensures OperatorHead("AND" + ("(" + x)) == HAnd
    ensures OperatorHead("OR" + ("(" + x)) == HOr
    ensures OperatorHead("EQ" + ("(" + x)) == HEq
    ensures OperatorHead("ALLOF" + ("(" + x)) == HAllOf
    ensures OperatorHead("ANYOF" + ("(" + x)) == HAnyOf
  {
    Word("AND", "AND(", x);
    Word("OR", "OR(", x);
    Word("EQ", "EQ(", x);
    Word("ALLOF", "ALLOF(", x);
    Word("ANYOF", "ANYOF(", x);
    StartsWithNot("ALLOF" + ("(" + x), "AND(", 1);
    StartsWithNot("ANYOF" + ("(" + x), "AND(", 2);
    StartsWithNot("ANYOF" + ("(" + x), "ALLOF(", 1);
  }

  lemma Word(word: string, call: string, x: string)
    requires call == word + "("
    ensures StartsWith(word + ("(" + x), call)
  {
    assert word + ("(" + x) == call + x;
    StartsWithSelf(call, x);
  }

  /** No operator starts with any of these letters. */
  lemma NoOperator(s: string)
    requires s != "" && (s[0] in "TFMDS" || (s[0] == 'E' && |s| > 1 && s[1] == 'N'))
    ensures OperatorHead(s) == HNone
  {
    if s[0] == 'E' { StartsWithNot(s, "EQ(", 1); }
  }

  predicate IsCapital(c: char) { 'A' <= c <= 'Z' }

  function EndHeadOf(t: EndTree): Head {
    match t
    case EndAnd(_, _) => HAnd case EndOr(_, _) => HOr case EndEquals(_, _) => HEq
    case EndAllOf(_) => HAllOf case EndAnyOf(_) => HAnyOf
    case TypeEquals(_) => HType case ValueEquals(_) => HValue case SignerEquals(_) => HSigner
    case EndTrue => HTrue case EndFalse => HFalse case EndUnset => HNone
  }

  lemma ConstantHeads(x: string)
    ensures ConstantHead("TRUE" + x) == HTrue
    ensures ConstantHead("FALSE" + x) == HFalse
  {
    StartsWithSelf("TRUE", x);
    StartsWithSelf("FALSE", x);
  }

  lemma EndTypeHead(x: string)
    ensures EndHead("ENDORSEMENT_TYPE(" + x) == HType
  {
    NoOperator("ENDORSEMENT_TYPE(" + x);
    StartsWithSelf("ENDORSEMENT_TYPE(", x);
  }

  lemma EndValueHead(x: string)
    ensures EndHead("ENDORSEMENT_VALUE(" + x) == HValue
  {
    NoOperator("ENDORSEMENT_VALUE(" + x);
    StartsWithSelf("ENDORSEMENT_VALUE(", x);
    StartsWithNot("ENDORSEMENT_VALUE(" + x, "ENDORSEMENT_TYPE(", 12);
  }

  lemma EndSignerHead(x: string)
    ensures EndHead("ENDORSEMENT_SIGNER(" + x) == HSigner
  {
    NoOperator("ENDORSEMENT_SIGNER(" + x);
    StartsWithSelf("ENDORSEMENT_SIGNER(", x);
    StartsWithNot("ENDORSEMENT_SIGNER(" + x, "ENDORSEMENT_TYPE(", 12);
    StartsWithNot("ENDORSEMENT_SIGNER(" + x, "ENDORSEMENT_VALUE(", 12);
  }

  lemma EndConstantHeads(x: string)
    ensures EndHead("TRUE" + x) == HTrue
    ensures EndHead("FALSE" + x) == HFalse
  {
    NoOperator("TRUE" + x);
    NoOperator("FALSE" + x);
    ConstantHeads(x);
  }

  lemma EndTextHead(t: EndTree, rest: string)
    requires PrintableEnd(t)
    ensures var s := EndText(t, rest); s != "" && IsCapital(s[0]) && EndHead(s) == EndHeadOf(t)
  {
    match t
    case EndAnd(l, r) => OperatorHeads(OptEndText(l, ", " + OptEndText(r, ")" + rest)));
    case EndOr(l, r) => OperatorHeads(OptEndText(l, ", " + OptEndText(r, ")" + rest)));
    case EndEquals(l, r) => OperatorHeads(OptEndText(l, ", " + OptEndText(r, ")" + rest)));
    case EndAllOf(ts) => OperatorHeads(EndTermsText(ts, ")" + rest));
    case EndAnyOf(ts) => OperatorHeads(EndTermsText(ts, ")" + rest));
    case TypeEquals(kind) => EndTypeHead(OptUuidText(kind, ")" + rest));
    case ValueEquals(value) => EndValueHead(HexText(value, ")" + rest));
    case SignerEquals(signer) => EndSignerHead(OptUuidText(signer, ")" + rest));
    case _ => EndConstantHeads(rest);
  }

  // ---------------------------------------------------------------- endorsement trees

  lemma ExpectNow(c: char, rest: string)
    requires !IsSpace(c)
    ensures SkipWs([c] + rest) == [c] + rest && Expect([c] + rest, c) == Ok(c, rest)
  {
  }

  /** The second argument of a pair and every later term follow a comma and a blank. */
  lemma CommaBlank(s: string)
    ensures ", " + s == "," + (" " + s)
    ensures SkipWs(" " + s) == SkipWs(s)
  {
  }

  lemma EndAfterBlank(s: string)
    ensures ParseEnd(" " + s) == ParseEnd(s)
  {
    CommaBlank(s);
  }

  lemma EndTermsAfterBlank(s: string)
    ensures ParseEndTerms(" " + s) == ParseEndTerms(s)
  {
    EndAfterBlank(s);
  }

  lemma EndPairParses(l: EndTree, r: EndTree, left: string, right: string, rest: string)
    requires ParseEnd(left) == Ok(l, "," + right) && ParseEnd(right) == Ok(r, ")" + rest)
    ensures ParseEndPair("(" + left) == Ok((l, r), rest)
  {
    ExpectNow('(', left);
    ExpectNow(',', right);
    ExpectNow(')', rest);
  }

  lemma EndLastTerm(s: string, t: EndTree, rest: string)
    requires ParseEnd(s) == Ok(t, ")" + rest)
    ensures ParseEndTerms(s) == Ok([t], rest)
  {
    ExpectNow(')', rest);
  }

  lemma EndMoreTerms(s: string, t: EndTree, more: string, ts: seq<EndTree>, rest: string)
    requires ParseEnd(s) == Ok(t, "," + more) && ParseEndTerms(more) == Ok(ts, rest)
    ensures ParseEndTerms(s) == Ok([t] + ts, rest)
  {
    ExpectNow(',', more);
  }

  lemma {:induction false} EndTermsRoundTrip(ts: seq<EndTree>, rest: string)
    requires ts != [] && forall u | u in ts :: PrintableEnd(u)
    ensures ParseEndTerms(EndTermsText(ts, ")" + rest)) == Ok(ts, rest)
    decreases ts, 0
  {
    if |ts| == 1 {
      EndRoundTrip(ts[0], ")" + rest);
      EndLastTerm(EndTermsText(ts, ")" + rest), ts[0], rest);
      assert ts == [ts[0]];
    } else {
      var more := EndTermsText(ts[1..], ")" + rest);
      EndRoundTrip(ts[0], ", " + more);
      EndTermsRoundTrip(ts[1..], rest);
      CommaBlank(more);
      EndTermsAfterBlank(more);
      EndMoreTerms(EndTermsText(ts, ")" + rest), ts[0], " " + more, ts[1..], rest);
      assert ts == [ts[0]] + ts[1..];
    }
  }

  lemma EndArgsParse(s: string)
    requires s != "" && IsCapital(s[0])
    ensures ParseEndArgs("(" + s) == ParseEndTerms(s)
  {
    ExpectNow('(', s);
  }

  lemma EndNoArgs(rest: string)
    ensures ParseEndArgs("(" + (")" + rest)) == Ok([], rest)
  {
    ExpectNow('(', ")" + rest);
    ExpectNow(')', rest);
  }

  lemma {:induction false} EndArgsRoundTrip(ts: seq<EndTree>, rest: string)
    requires forall u | u in ts :: PrintableEnd(u)
    ensures ParseEndArgs("(" + EndTermsText(ts, ")" + rest)) == Ok(ts, rest)
    decreases ts, 1
  {
    if ts == [] {
      EndNoArgs(rest);
    } else {
      EndTermsRoundTrip(ts, rest);
      EndTextHead(ts[0], if |ts| == 1 then ")" + rest else ", " + EndTermsText(ts[1..], ")" + rest));
      EndArgsParse(EndTermsText(ts, ")" + rest));
    }
  }

  /** A text that starts with a capital is parsed by its head. */
  lemma EndStep(s: string, h: Head, word: string, body: string)
    requires s == word + body && s != "" && IsCapital(s[0]) && h != HNone && EndHead(s) == h && |word| == Skip(h)
    ensures ParseEnd(s) == ParseEndBody(h, body)
  {
    assert s[|word|..] == body;
  }

  lemma EndTypeLeaf(b: Uuid, rest: string)
    ensures ParseEnd("ENDORSEMENT_TYPE(" + UuidText(b, ")" + rest)) == Ok(TypeEquals(Some(b)), rest)
  {
    var body := UuidText(b, ")" + rest);
    EndTypeHead(body);
    EndStep("ENDORSEMENT_TYPE(" + body, HType, "ENDORSEMENT_TYPE(", body);
    UuidArgRoundTrip(b, rest);
  }

  lemma EndSignerLeaf(b: Uuid, rest: string)
    ensures ParseEnd("ENDORSEMENT_SIGNER(" + UuidText(b, ")" + rest)) == Ok(SignerEquals(Some(b)), rest)
  {
    var body := UuidText(b, ")" + rest);
    EndSignerHead(body);
    EndStep("ENDORSEMENT_SIGNER(" + body, HSigner, "ENDORSEMENT_SIGNER(", body);
    UuidArgRoundTrip(b, rest);
  }

  lemma EndValueLeaf(b: Bytes, rest: string)
    ensures ParseEnd("ENDORSEMENT_VALUE(" + HexText(b, ")" + rest)) == Ok(ValueEquals(b), rest)
  {
    var body := HexText(b, ")" + rest);
    EndValueHead(body);
    EndStep("ENDORSEMENT_VALUE(" + body, HValue, "ENDORSEMENT_VALUE(", body);
    HexArgRoundTrip(b, rest);
  }

  lemma EndConstants(rest: string)
    ensures ParseEnd("TRUE" + rest) == Ok(EndTrue, rest) && ParseEnd("FALSE" + rest) == Ok(EndFalse, rest)
  {
    EndConstantHeads(rest);
    EndStep("TRUE" + rest, HTrue, "TRUE", rest);
    EndStep("FALSE" + rest, HFalse, "FALSE", rest);
  }

  lemma {:induction false} EndBothRoundTrip(l: EndTree, r: EndTree, rest: string)
    requires PrintableEnd(l) && PrintableEnd(r)
    requires ParseEnd(EndText(l, ", " + EndText(r, ")" + rest))) == Ok(l, ", " + EndText(r, ")" + rest))
    requires ParseEnd(EndText(r, ")" + rest)) == Ok(r, ")" + rest)
    ensures ParseEndPair("(" + EndText(l, ", " + EndText(r, ")" + rest))) == Ok((l, r), rest)
  {
    var right := EndText(r, ")" + rest);
    CommaBlank(right);
    EndAfterBlank(right);
    EndPairParses(l, r, EndText(l, ", " + right), " " + right, rest);
  }

  lemma EndPairStep(t: EndTree, l: EndTree, r: EndTree, rest: string)
    requires PrintableEnd(t)
    requires t == EndAnd(Some(l), Some(r)) || t == EndOr(Some(l), Some(r)) || t == EndEquals(Some(l), Some(r))
    requires ParseEndPair("(" + EndText(l, ", " + EndText(r, ")" + rest))) == Ok((l, r), rest)
    ensures ParseEnd(EndText(t, rest)) == Ok(t, rest)
  {
    var body := "(" + EndText(l, ", " + EndText(r, ")" + rest));
    EndTextHead(t, rest);
    match t
    case EndAnd(_, _) => EndStep(EndText(t, rest), HAnd, "AND", body);
    case EndOr(_, _) => EndStep(EndText(t, rest), HOr, "OR", body);
    case EndEquals(_, _) => EndStep(EndText(t, rest), HEq, "EQ", body);
  }

  lemma EndListStep(t: EndTree, ts: seq<EndTree>, rest: string)
    requires PrintableEnd(t) && (t == EndAllOf(ts) || t == EndAnyOf(ts))
    requires ParseEndArgs("(" + EndTermsText(ts, ")" + rest)) == Ok(ts, rest)
    ensures ParseEnd(EndText(t, rest)) == Ok(t, rest)
  {
    var body := "(" + EndTermsText(ts, ")" + rest);
    EndTextHead(t, rest);
    match t
    case EndAllOf(_) => EndStep(EndText(t, rest), HAllOf, "ALLOF", body);
    case EndAnyOf(_) => EndStep(EndText(t, rest), HAnyOf, "ANYOF", body);
  }

  lemma EndLeafStep(t: EndTree, rest: string)
    requires PrintableEnd(t) && (t.TypeEquals? || t.ValueEquals? || t.SignerEquals? || t.EndTrue? || t.EndFalse?)
    ensures ParseEnd(EndText(t, rest)) == Ok(t, rest)
  {
    match t
    case TypeEquals(kind) => EndTypeLeaf(kind.value, rest);
    case ValueEquals(value) => EndValueLeaf(value, rest);
    case SignerEquals(signer) => EndSignerLeaf(signer.value, rest);
    case _ => EndConstants(rest);
  }

  lemma {:induction false} EndRoundTrip(t: EndTree, rest: string)
    requires PrintableEnd(t)
    ensures ParseEnd(EndText(t, rest)) == Ok(t, rest)
    decreases t
  {
    match t
    case EndAnd(Some(l), Some(r)) =>
      EndRoundTrip(l, ", " + EndText(r, ")" + rest));
      EndRoundTrip(r, ")" + rest);
      EndBothRoundTrip(l, r, rest);
      EndPairStep(t, l, r, rest);
    case EndOr(Some(l), Some(r)) =>
      EndRoundTrip(l, ", " + EndText(r, ")" + rest));
      EndRoundTrip(r, ")" + rest);
      EndBothRoundTrip(l, r, rest);
      EndPairStep(t, l, r, rest);
    case EndEquals(Some(l), Some(r)) =>
      EndRoundTrip(l, ", " + EndText(r, ")" + rest));
      EndRoundTrip(r, ")" + rest);
      EndBothRoundTrip(l, r, rest);
      EndPairStep(t, l, r, rest);
    case EndAllOf(ts) =>
      EndArgsRoundTrip(ts, rest);
      EndListStep(t, ts, rest);
    case EndAnyOf(ts) =>
      EndArgsRoundTrip(ts, rest);
      EndListStep(t, ts, rest);
    case _ => EndLeafStep(t, rest);
  }

  // ---------------------------------------------------------------- message trees

  function MesHeadOf(t: MesTree): Head {
    match t
    case MesAnd(_, _) => HAnd case MesOr(_, _) => HOr case MesEquals(_, _) => HEq
    case MesAllOf(_) => HAllOf case MesAnyOf(_) => HAnyOf
    case FieldEquals(_, _) => HFieldEq case FieldExists(_) => HFieldExists case FieldContains(_, _, _) => HFieldContains
    case MesTrue => HTrue case MesFalse => HFalse case MesUnset => HNone
  }

  lemma FieldEqHead(x: string)
    ensures MesHead("FIELD_EQ(" + x) == HFieldEq
  {
    NoOperator("FIELD_EQ(" + x);
    StartsWithSelf("FIELD_EQ(", x);
  }

  lemma FieldExistsHead(x: string)
    ensures MesHead("FIELD_EXISTS(" + x) == HFieldExists
  {
    NoOperator("FIELD_EXISTS(" + x);
    StartsWithSelf("FIELD_EXISTS(", x);
    StartsWithNot("FIELD_EXISTS(" + x, "FIELD_EQ(", 7);
  }

  lemma FieldContainsHead(x: string)
    ensures MesHead("FIELD_CONTAINS(" + x) == HFieldContains
  {
    NoOperator("FIELD_CONTAINS(" + x);
    StartsWithSelf("FIELD_CONTAINS(", x);
    StartsWithNot("FIELD_CONTAINS(" + x, "FIELD_EQ(", 6);
    StartsWithNot("FIELD_CONTAINS(" + x, "FIELD_EXISTS(", 6);
  }

  lemma MesConstantHeads(x: string)
    ensures MesHead("TRUE" + x) == HTrue
    ensures MesHead("FALSE" + x) == HFalse
  {
    NoOperator("TRUE" + x);
    NoOperator("FALSE" + x);
    ConstantHeads(x);
    StartsWithNot("FALSE" + x, "FIELD_EQ(", 1);
    StartsWithNot("FALSE" + x, "FIELD_EXISTS(", 1);
    StartsWithNot("FALSE" + x, "FIELD_CONTAINS(", 1);
  }

  lemma MesTextHead(t: MesTree, rest: string)
    requires PrintableMes(t)
    ensures var s := MesText(t, rest); s != "" && IsCapital(s[0]) && MesHead(s) == MesHeadOf(t)
  {
    match t
    case MesAnd(l, r) => OperatorHeads(OptMesText(l, ", " + OptMesText(r, ")" + rest)));
    case MesOr(l, r) => OperatorHeads(OptMesText(l, ", " + OptMesText(r, ")" + rest)));
    case MesEquals(l, r) => OperatorHeads(OptMesText(l, ", " + OptMesText(r, ")" + rest)));
    case MesAllOf(ts) => OperatorHeads(MesTermsText(ts, ")" + rest));
    case MesAnyOf(ts) => OperatorHeads(MesTermsText(ts, ")" + rest));
    case FieldEquals(path, value) => FieldEqHead(OptPathText(path, ", " + OptValueText(value, ")" + rest)));
    case FieldExists(path) => FieldExistsHead(OptPathText(path, ")" + rest));
    case FieldContains(path, sub, value) =>
      FieldContainsHead(OptPathText(path, ", " + OptPathText(sub, ", " + OptValueText(value, ")" + rest))));
    case _ => MesConstantHeads(rest);
  }

  lemma MesAfterBlank(s: string)
    ensures ParseMes(" " + s) == ParseMes(s)
  {
    CommaBlank(s);
  }

  lemma MesTermsAfterBlank(s: string)
    ensures ParseMesTerms(" " + s) == ParseMesTerms(s)
  {
    MesAfterBlank(s);
  }

  lemma MesPairParses(l: MesTree, r: MesTree, left: string, right: string, rest: string)
    requires ParseMes(left) == Ok(l, "," + right) && ParseMes(right) == Ok(r, ")" + rest)
    ensures ParseMesPair("(" + left) == Ok((l, r), rest)
  {
    ExpectNow('(', left);
    ExpectNow(',', right);
    ExpectNow(')', rest);
  }

  lemma MesLastTerm(s: string, t: MesTree, rest: string)
    requires ParseMes(s) == Ok(t, ")" + rest)
    ensures ParseMesTerms(s) == Ok([t], rest)
  {
    ExpectNow(')', rest);
  }

  lemma MesMoreTerms(s: string, t: MesTree, more: string, ts: seq<MesTree>, rest: string)
    requires ParseMes(s) == Ok(t, "," + more) && ParseMesTerms(more) == Ok(ts, rest)
    ensures ParseMesTerms(s) == Ok([t] + ts, rest)
  {
    ExpectNow(',', more);
  }

  lemma {:induction false} MesTermsRoundTrip(ts: seq<MesTree>, rest: string)
    requires ts != [] && forall u | u in ts :: PrintableMes(u)
    ensures ParseMesTerms(MesTermsText(ts, ")" + rest)) == Ok(ts, rest)
    decreases ts, 0
  {
    if |ts| == 1 {
      MesRoundTrip(ts[0], ")" + rest);
      MesLastTerm(MesTermsText(ts, ")" + rest), ts[0], rest);
      assert ts == [ts[0]];
    } else {
      var more := MesTermsText(ts[1..], ")" + rest);
      MesRoundTrip(ts[0], ", " + more);
      MesTermsRoundTrip(ts[1..], rest);
      CommaBlank(more);
      MesTermsAfterBlank(more);
      MesMoreTerms(MesTermsText(ts, ")" + rest), ts[0], " " + more, ts[1..], rest);
      assert ts == [ts[0]] + ts[1..];
    }
  }

  lemma MesArgsParse(s: string)
    requires s != "" && IsCapital(s[0])
    ensures ParseMesArgs("(" + s) == ParseMesTerms(s)
  {
    ExpectNow('(', s);
  }

  lemma MesNoArgs(rest: string)
    ensures ParseMesArgs("(" + (")" + rest)) == Ok([], rest)
  {
    ExpectNow('(', ")" + rest);
    ExpectNow(')', rest);
  }

  lemma {:induction false} MesArgsRoundTrip(ts: seq<MesTree>, rest: string)
    requires forall u | u in ts :: PrintableMes(u)
    ensures ParseMesArgs("(" + MesTermsText(ts, ")" + rest)) == Ok(ts, rest)
    decreases ts, 1
  {
    if ts == [] {
      MesNoArgs(rest);
    } else {
      MesTermsRoundTrip(ts, rest);
      MesTextHead(ts[0], if |ts| == 1 then ")" + rest else ", " + MesTermsText(ts[1..], ")" + rest));
      MesArgsParse(MesTermsText(ts, ")" + rest));
    }
  }

  /** A text that starts with a capital is parsed by its head. */
  lemma MesStep(s: string, h: Head, word: string, body: string)
    requires s == word + body && s != "" && IsCapital(s[0]) && h != HNone && MesHead(s) == h && |word| == Skip(h)
    ensures ParseMes(s) == ParseMesBody(h, body)
  {
    assert s[|word|..] == body;
  }

  lemma ValueAfterBlank(v: FieldValue, rest: string)
    requires PrintableValue(v)
    ensures ParseValue(" " + ValueText(v, ")" + rest)) == Ok(v, ")" + rest)
  {
    CommaBlank(ValueText(v, ")" + rest));
    ValueRoundTrip(v, rest);
  }

  lemma FieldEqRoundTrip(path: FieldPath, v: FieldValue, rest: string)
    requires PrintablePath(path) && PrintableValue(v)
    ensures ParseFieldEq(PathText(path, ", " + ValueText(v, ")" + rest))) == Ok(FieldEquals(Some(path), Some(v)), rest)
  {
    var value := ValueText(v, ")" + rest);
    CommaBlank(value);
    PathRoundTrip(path, "," + (" " + value));
    ExpectNow(',', " " + value);
    ValueAfterBlank(v, rest);
    ExpectNow(')', rest);
  }

  lemma FieldExistsRoundTrip(path: FieldPath, rest: string)
    requires PrintablePath(path)
    ensures ParseFieldExists(PathText(path, ")" + rest)) == Ok(FieldExists(Some(path)), rest)
  {
    PathRoundTrip(path, ")" + rest);
    ExpectNow(')', rest);
  }

  lemma PathAfterBlank(path: FieldPath, rest: string)
    requires PrintablePath(path) && rest != "" && EndsPath(rest[0])
    ensures ParsePath(" " + PathText(path, rest)) == Ok(path, rest)
  {
    CommaBlank(PathText(path, rest));
    PathRoundTrip(path, rest);
  }

  lemma FieldContainsRoundTrip(path: FieldPath, sub: FieldPath, v: FieldValue, rest: string)
    requires PrintablePath(path) && PrintablePath(sub) && PrintableValue(v)
    ensures ParseFieldContains(PathText(path, ", " + PathText(sub, ", " + ValueText(v, ")" + rest))))
         == Ok(FieldContains(Some(path), Some(sub), Some(v)), rest)
  {
    var value := ValueText(v, ")" + rest);
    CommaBlank(value);
    var subText := PathText(sub, "," + (" " + value));
    CommaBlank(subText);
    PathRoundTrip(path, "," + (" " + subText));
    ExpectNow(',', " " + subText);
    PathAfterBlank(sub, "," + (" " + value));
    ExpectNow(',', " " + value);
    ValueAfterBlank(v, rest);
    ExpectNow(')', rest);
  }

  lemma {:induction false} MesBothRoundTrip(l: MesTree, r: MesTree, rest: string)
    requires PrintableMes(l) && PrintableMes(r)
    requires ParseMes(MesText(l, ", " + MesText(r, ")" + rest))) == Ok(l, ", " + MesText(r, ")" + rest))
    requires ParseMes(MesText(r, ")" + rest)) == Ok(r, ")" + rest)
    ensures ParseMesPair("(" + MesText(l, ", " + MesText(r, ")" + rest))) == Ok((l, r), rest)
  {
    var right := MesText(r, ")" + rest);
    CommaBlank(right);
    MesAfterBlank(right);
    MesPairParses(l, r, MesText(l, ", " + right), " " + right, rest);
  }

  lemma MesPairStep(t: MesTree, l: MesTree, r: MesTree, rest: string)
    requires PrintableMes(t)
    requires t == MesAnd(Some(l), Some(r)) || t == MesOr(Some(l), Some(r)) || t == MesEquals(Some(l), Some(r))
    requires ParseMesPair("(" + MesText(l, ", " + MesText(r, ")" + rest))) == Ok((l, r), rest)
    ensures ParseMes(MesText(t, rest)) == Ok(t, rest)
  {
    var body := "(" + MesText(l, ", " + MesText(r, ")" + rest));
    MesTextHead(t, rest);
    match t
    case MesAnd(_, _) => MesStep(MesText(t, rest), HAnd, "AND", body);
    case MesOr(_, _) => MesStep(MesText(t, rest), HOr, "OR", body);
    case MesEquals(_, _) => MesStep(MesText(t, rest), HEq, "EQ", body);
  }

  lemma MesListStep(t: MesTree, ts: seq<MesTree>, rest: string)
    requires PrintableMes(t) && (t == MesAllOf(ts) || t == MesAnyOf(ts))
    requires ParseMesArgs("(" + MesTermsText(ts, ")" + rest)) == Ok(ts, rest)
    ensures ParseMes(MesText(t, rest)) == Ok(t, rest)
  {
    var body := "(" + MesTermsText(ts, ")" + rest);
    MesTextHead(t, rest);
    match t
    case MesAllOf(_) => MesStep(MesText(t, rest), HAllOf, "ALLOF", body);
    case MesAnyOf(_) => MesStep(MesText(t, rest), HAnyOf, "ANYOF", body);
  }

  lemma FieldEqLeaf(path: FieldPath, v: FieldValue, rest: string)
    requires PrintablePath(path) && PrintableValue(v)
    ensures ParseMes("FIELD_EQ(" + PathText(path, ", " + ValueText(v, ")" + rest)))
         == Ok(FieldEquals(Some(path), Some(v)), rest)
  {
    var body := PathText(path, ", " + ValueText(v, ")" + rest));
    FieldEqHead(body);
    MesStep("FIELD_EQ(" + body, HFieldEq, "FIELD_EQ(", body);
    FieldEqRoundTrip(path, v, rest);
  }

  lemma FieldExistsLeaf(path: FieldPath, rest: string)
    requires PrintablePath(path)
    ensures ParseMes("FIELD_EXISTS(" + PathText(path, ")" + rest)) == Ok(FieldExists(Some(path)), rest)
  {
    var body := PathText(path, ")" + rest);
    FieldExistsHead(body);
    MesStep("FIELD_EXISTS(" + body, HFieldExists, "FIELD_EXISTS(", body);
    FieldExistsRoundTrip(path, rest);
  }

  lemma FieldContainsLeaf(path: FieldPath, sub: FieldPath, v: FieldValue, rest: string)
    requires PrintablePath(path) && PrintablePath(sub) && PrintableValue(v)
    ensures ParseMes("FIELD_CONTAINS(" + PathText(path, ", " + PathText(sub, ", " + ValueText(v, ")" + rest))))
         == Ok(FieldContains(Some(path), Some(sub), Some(v)), rest)
  {
    var body := PathText(path, ", " + PathText(sub, ", " + ValueText(v, ")" + rest)));
    FieldContainsHead(body);
    MesStep("FIELD_CONTAINS(" + body, HFieldContains, "FIELD_CONTAINS(", body);
    FieldContainsRoundTrip(path, sub, v, rest);
  }

  lemma MesConstants(rest: string)
    ensures ParseMes("TRUE" + rest) == Ok(MesTrue, rest) && ParseMes("FALSE" + rest) == Ok(MesFalse, rest)
  {
    MesConstantHeads(rest);
    MesStep("TRUE" + rest, HTrue, "TRUE", rest);
    MesStep("FALSE" + rest, HFalse, "FALSE", rest);
  }

  lemma MesLeafStep(t: MesTree, rest: string)
    requires PrintableMes(t) && (t.FieldEquals? || t.FieldExists? || t.FieldContains? || t.MesTrue? || t.MesFalse?)
    ensures ParseMes(MesText(t, rest)) == Ok(t, rest)
  {
    match t
    case FieldEquals(path, value) => FieldEqLeaf(path.value, value.value, rest);
    case FieldExists(path) => FieldExistsLeaf(path.value, rest);
    case FieldContains(path, sub, value) => FieldContainsLeaf(path.value, sub.value, value.value, rest);
    case _ => MesConstants(rest);
  }

  lemma {:induction false} MesRoundTrip(t: MesTree, rest: string)
    requires PrintableMes(t)
    ensures ParseMes(MesText(t, rest)) == Ok(t, rest)
    decreases t
  {
    match t
    case MesAnd(Some(l), Some(r)) =>
      MesRoundTrip(l, ", " + MesText(r, ")" + rest));
      MesRoundTrip(r, ")" + rest);
      MesBothRoundTrip(l, r, rest);
      MesPairStep(t, l, r, rest);
    case MesOr(Some(l), Some(r)) =>
      MesRoundTrip(l, ", " + MesText(r, ")" + rest));
      MesRoundTrip(r, ")" + rest);
      MesBothRoundTrip(l, r, rest);
      MesPairStep(t, l, r, rest);
    case MesEquals(Some(l), Some(r)) =>
      MesRoundTrip(l, ", " + MesText(r, ")" + rest));
      MesRoundTrip(r, ")" + rest);
      MesBothRoundTrip(l, r, rest);
      MesPairStep(t, l, r, rest);
    case MesAllOf(ts) =>
      MesArgsRoundTrip(ts, rest);
      MesListStep(t, ts, rest);
    case MesAnyOf(ts) =>
      MesArgsRoundTrip(ts, rest);
      MesListStep(t, ts, rest);
    case _ => MesLeafStep(t, rest);
  }

  // ---------------------------------------------------------------- requirement trees

  function TreeHeadOf(t: Tree): Head {
    match t
    case And(_, _) => HAnd case Or(_, _) => HOr case Equals(_, _) => HEq
    case AllOf(_) => HAllOf case AnyOf(_) => HAnyOf
    case EndorsementLeaf(_) => HEndorsement case MessageLeaf(_) => HMessage
    case True => HTrue case False => HFalse case Unset => HNone
  }

  lemma TreeLeafHeads(x: string)
    ensures TreeHead("ENDORSEMENT(" + x) == HEndorsement
    ensures TreeHead("MESSAGE(" + x) == HMessage
  {
    NoOperator("ENDORSEMENT(" + x);
    NoOperator("MESSAGE(" + x);
    StartsWithSelf("ENDORSEMENT(", x);
    StartsWithSelf("MESSAGE(", x);
  }

  /** Neither TRUE nor FALSE, in any case, is the start of a leaf. */
  lemma TreeConstantHead(s: string)
    requires s != "" && (s[0] == 'T' || s[0] == 't' || s[0] == 'F' || s[0] == 'f') && OperatorHead(s) == HNone
    ensures TreeHead(s) == ConstantHead(s)
  {
  }

  lemma TreeConstantWords(rest: string)
    ensures TreeHead("TRUE" + rest) == HTrue && TreeHead("FALSE" + rest) == HFalse
  {
    ConstantHeads(rest);
    NoOperator("TRUE" + rest);
    NoOperator("FALSE" + rest);
    TreeConstantHead("TRUE" + rest);
    TreeConstantHead("FALSE" + rest);
  }

  lemma TreeOperatorHead(s: string)
    requires s != "" && s[0] != '$' && OperatorHead(s) != HNone
    ensures TreeHead(s) == OperatorHead(s)
  {
  }

  lemma TreeOperatorWord(word: string, h: Head, x: string)
    requires (word, h) in {("AND", HAnd), ("OR", HOr), ("EQ", HEq), ("ALLOF", HAllOf), ("ANYOF", HAnyOf)}
    ensures var s := word + ("(" + x); s != "" && IsCapital(s[0]) && TreeHead(s) == h
  {
    OperatorHeads(x);
    TreeOperatorHead(word + ("(" + x));
  }

  lemma TreeTextHead(t: Tree, rest: string)
    requires Printable(t)
    ensures var s := TreeText(t, rest); s != "" && IsCapital(s[0]) && TreeHead(s) == TreeHeadOf(t)
  {
    match t
    case And(l, r) => TreeOperatorWord("AND", HAnd, OptTreeText(l, ", " + OptTreeText(r, ")" + rest)));
    case Or(l, r) => TreeOperatorWord("OR", HOr, OptTreeText(l, ", " + OptTreeText(r, ")" + rest)));
    case Equals(l, r) => TreeOperatorWord("EQ", HEq, OptTreeText(l, ", " + OptTreeText(r, ")" + rest)));
    case AllOf(ts) => TreeOperatorWord("ALLOF", HAllOf, TermsText(ts, ")" + rest));
    case AnyOf(ts) => TreeOperatorWord("ANYOF", HAnyOf, TermsText(ts, ")" + rest));
    case EndorsementLeaf(p) => TreeLeafHeads(OptEndText(p, ")" + rest));
    case MessageLeaf(c) => TreeLeafHeads(OptMesText(c, ")" + rest));
    case _ => TreeConstantWords(rest);
  }

  lemma TreeAfterBlank(s: string, vars: Variables)
    ensures ParseTree(" " + s, vars) == ParseTree(s, vars)
  {
    CommaBlank(s);
  }

  lemma TreeTermsAfterBlank(s: string, vars: Variables)
    ensures ParseTerms(" " + s, vars) == ParseTerms(s, vars)
  {
    TreeAfterBlank(s, vars);
  }

  lemma TreePairParses(l: Tree, r: Tree, left: string, right: string, rest: string, vars: Variables)
    requires ParseTree(left, vars) == Ok(l, "," + right) && ParseTree(right, vars) == Ok(r, ")" + rest)
    ensures ParsePair("(" + left, vars) == Ok((l, r), rest)
  {
    ExpectNow('(', left);
    ExpectNow(',', right);
    ExpectNow(')', rest);
  }

  lemma TreeLastTerm(s: string, t: Tree, rest: string, vars: Variables)
    requires ParseTree(s, vars) == Ok(t, ")" + rest)
    ensures ParseTerms(s, vars) == Ok([t], rest)
  {
    ExpectNow(')', rest);
  }

  lemma TreeMoreTerms(s: string, t: Tree, more: string, ts: seq<Tree>, rest: string, vars: Variables)
    requires ParseTree(s, vars) == Ok(t, "," + more) && ParseTerms(more, vars) == Ok(ts, rest)
    ensures ParseTerms(s, vars) == Ok([t] + ts, rest)
  {
    ExpectNow(',', more);
  }

  lemma {:induction false} TreeTermsRoundTrip(ts: seq<Tree>, rest: string, vars: Variables)
    requires ts != [] && forall u | u in ts :: Printable(u)
    ensures ParseTerms(TermsText(ts, ")" + rest), vars) == Ok(ts, rest)
    decreases ts, 0
  {
    if |ts| == 1 {
      TreeRoundTrip(ts[0], ")" + rest, vars);
      TreeLastTerm(TermsText(ts, ")" + rest), ts[0], rest, vars);
      assert ts == [ts[0]];
    } else {
      var more := TermsText(ts[1..], ")" + rest);
      TreeRoundTrip(ts[0], ", " + more, vars);
      TreeTermsRoundTrip(ts[1..], rest, vars);
      CommaBlank(more);
      TreeTermsAfterBlank(more, vars);
      TreeMoreTerms(TermsText(ts, ")" + rest), ts[0], " " + more, ts[1..], rest, vars);
      assert ts == [ts[0]] + ts[1..];
    }
  }

  lemma TreeArgsParse(s: string, vars: Variables)
    requires s != "" && IsCapital(s[0])
    ensures ParseArgs("(" + s, vars) == ParseTerms(s, vars)
  {
    ExpectNow('(', s);
  }

  lemma TreeNoArgs(rest: string, vars: Variables)
    ensures ParseArgs("(" + (")" + rest), vars) == Ok([], rest)
  {
    ExpectNow('(', ")" + rest);
    ExpectNow(')', rest);
  }

  lemma {:induction false} TreeArgsRoundTrip(ts: seq<Tree>, rest: string, vars: Variables)
    requires forall u | u in ts :: Printable(u)
    ensures ParseArgs("(" + TermsText(ts, ")" + rest), vars) == Ok(ts, rest)
    decreases ts, 1
  {
    if ts == [] {
      TreeNoArgs(rest, vars);
    } else {
      TreeTermsRoundTrip(ts, rest, vars);
      TreeTextHead(ts[0], if |ts| == 1 then ")" + rest else ", " + TermsText(ts[1..], ")" + rest));
      TreeArgsParse(TermsText(ts, ")" + rest), vars);
    }
  }

  /** A text that starts with a capital is parsed by its head. */
  lemma TreeStep(s: string, h: Head, word: string, body: string, vars: Variables)
    requires s == word + body && s != "" && IsCapital(s[0]) && h != HNone && TreeHead(s) == h && |word| == Skip(h)
    ensures ParseTree(s, vars) == ParseTreeBody(h, body, vars)
  {
    assert s[|word|..] == body;
  }

  lemma EndorsementLeafRoundTrip(p: EndTree, rest: string)
    requires PrintableEnd(p)
    ensures ParseEndorsementLeaf(EndText(p, ")" + rest)) == Ok(EndorsementLeaf(Some(p)), rest)
  {
    EndTextHead(p, ")" + rest);
    EndRoundTrip(p, ")" + rest);
    ExpectNow(')', rest);
  }

  lemma MessageLeafRoundTrip(c: MesTree, rest: string)
    requires PrintableMes(c)
    ensures ParseMessageLeaf(MesText(c, ")" + rest)) == Ok(MessageLeaf(Some(c)), rest)
  {
    MesTextHead(c, ")" + rest);
    MesRoundTrip(c, ")" + rest);
    ExpectNow(')', rest);
  }

  lemma {:induction false} TreeBothRoundTrip(l: Tree, r: Tree, rest: string, vars: Variables)
    requires Printable(l) && Printable(r)
    requires ParseTree(TreeText(l, ", " + TreeText(r, ")" + rest)), vars) == Ok(l, ", " + TreeText(r, ")" + rest))
    requires ParseTree(TreeText(r, ")" + rest), vars) == Ok(r, ")" + rest)
    ensures ParsePair("(" + TreeText(l, ", " + TreeText(r, ")" + rest)), vars) == Ok((l, r), rest)
  {
    var right := TreeText(r, ")" + rest);
    CommaBlank(right);
    TreeAfterBlank(right, vars);
    TreePairParses(l, r, TreeText(l, ", " + right), " " + right, rest, vars);
  }

  lemma TreePairStep(t: Tree, l: Tree, r: Tree, rest: string, vars: Variables)
    requires Printable(t)
    requires t == And(Some(l), Some(r)) || t == Or(Some(l), Some(r)) || t == Equals(Some(l), Some(r))
    requires ParsePair("(" + TreeText(l, ", " + TreeText(r, ")" + rest)), vars) == Ok((l, r), rest)
    ensures ParseTree(TreeText(t, rest), vars) == Ok(t, rest)
  {
    var body := "(" + TreeText(l, ", " + TreeText(r, ")" + rest));
    TreeTextHead(t, rest);
    match t
    case And(_, _) => TreeStep(TreeText(t, rest), HAnd, "AND", body, vars);
    case Or(_, _) => TreeStep(TreeText(t, rest), HOr, "OR", body, vars);
    case Equals(_, _) => TreeStep(TreeText(t, rest), HEq, "EQ", body, vars);
  }

  lemma TreeListStep(t: Tree, ts: seq<Tree>, rest: string, vars: Variables)
    requires Printable(t) && (t == AllOf(ts) || t == AnyOf(ts))
    requires ParseArgs("(" + TermsText(ts, ")" + rest), vars) == Ok(ts, rest)
    ensures ParseTree(TreeText(t, rest), vars) == Ok(t, rest)
  {
    var body := "(" + TermsText(ts, ")" + rest);
    TreeTextHead(t, rest);
    match t
    case AllOf(_) => TreeStep(TreeText(t, rest), HAllOf, "ALLOF", body, vars);
    case AnyOf(_) => TreeStep(TreeText(t, rest), HAnyOf, "ANYOF", body, vars);
  }

  lemma TreeEndorsement(p: EndTree, rest: string, vars: Variables)
    requires PrintableEnd(p)
    ensures ParseTree("ENDORSEMENT(" + EndText(p, ")" + rest), vars) == Ok(EndorsementLeaf(Some(p)), rest)
  {
    var body := EndText(p, ")" + rest);
    TreeLeafHeads(body);
    TreeStep("ENDORSEMENT(" + body, HEndorsement, "ENDORSEMENT(", body, vars);
    EndorsementLeafRoundTrip(p, rest);
  }

  lemma TreeMessage(c: MesTree, rest: string, vars: Variables)
    requires PrintableMes(c)
    ensures ParseTree("MESSAGE(" + MesText(c, ")" + rest), vars) == Ok(MessageLeaf(Some(c)), rest)
  {
    var body := MesText(c, ")" + rest);
    TreeLeafHeads(body);
    TreeStep("MESSAGE(" + body, HMessage, "MESSAGE(", body, vars);
    MessageLeafRoundTrip(c, rest);
  }

  lemma TreeConstants(rest: string, vars: Variables)
    ensures ParseTree("TRUE" + rest, vars) == Ok(True, rest) && ParseTree("FALSE" + rest, vars) == Ok(False, rest)
  {
    TreeConstantWords(rest);
    TreeStep("TRUE" + rest, HTrue, "TRUE", rest, vars);
    TreeStep("FALSE" + rest, HFalse, "FALSE", rest, vars);
  }

  lemma TreeLeafStep(t: Tree, rest: string, vars: Variables)
    requires Printable(t) && (t.EndorsementLeaf? || t.MessageLeaf? || t.True? || t.False?)
    ensures ParseTree(TreeText(t, rest), vars) == Ok(t, rest)
  {
    match t
    case EndorsementLeaf(p) => TreeEndorsement(p.value, rest, vars);
    case MessageLeaf(c) => TreeMessage(c.value, rest, vars);
    case _ => TreeConstants(rest, vars);
  }

  /** The text of a printable tree parses back to it, whatever follows and whatever variables
      are in scope. */
  lemma {:induction false} TreeRoundTrip(t: Tree, rest: string, vars: Variables)
    requires Printable(t)
    ensures ParseTree(TreeText(t, rest), vars) == Ok(t, rest)
    decreases t, 1
  {
    match t
    case And(Some(l), Some(r)) => TreePairRoundTrip(t, l, r, rest, vars);
    case Or(Some(l), Some(r)) => TreePairRoundTrip(t, l, r, rest, vars);
    case Equals(Some(l), Some(r)) => TreePairRoundTrip(t, l, r, rest, vars);
    case AllOf(ts) =>
      TreeArgsRoundTrip(ts, rest, vars);
      TreeListStep(t, ts, rest, vars);
    case AnyOf(ts) =>
      TreeArgsRoundTrip(ts, rest, vars);
      TreeListStep(t, ts, rest, vars);
    case _ => TreeLeafStep(t, rest, vars);
  }

  lemma {:induction false} TreePairRoundTrip(t: Tree, l: Tree, r: Tree, rest: string, vars: Variables)
    requires Printable(t)
    requires t == And(Some(l), Some(r)) || t == Or(Some(l), Some(r)) || t == Equals(Some(l), Some(r))
    ensures ParseTree(TreeText(t, rest), vars) == Ok(t, rest)
    decreases t, 0
  {
    TreeRoundTrip(l, ", " + TreeText(r, ")" + rest), vars);
    TreeRoundTrip(r, ")" + rest, vars);
    TreeBothRoundTrip(l, r, rest, vars);
    TreePairStep(t, l, r, rest, vars);
  }

  /** fromString undoes toString on every printable tree and on the unset tree. */
  lemma StringRoundTrip(t: Tree, vars: Variables)
    requires Printable(t) || t == Unset
    ensures FromString(ToString(t), vars) == Some(t)
  {
    if Printable(t) {
      TreeRoundTrip(t, "", vars);
      TreeTextHead(t, "");
    }
  }
}
