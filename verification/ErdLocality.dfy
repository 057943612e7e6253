/** Locality of the requirement-tree parser: what a parse makes of a text does not depend on the
    text after what it consumed. Every lemma replaces the last n characters of the input by
    another tail and finds the same value, with the same replacement in the rest. Scanners
    that stop by looking at the next character need that character to be kept. */
module ErdLocality {
  import opened Common
  import opened ErdTree
  import opened ErdText

  function Retail(s: string, n: nat, tail: string): (r: string)
    requires n <= |s|
    ensures |r| == |s| - n + |tail|
  {
    s[..|s| - n] + tail
  }

  lemma RetailDrop(s: string, n: nat, tail: string, k: nat)
    requires k + n <= |s|
    ensures Retail(s, n, tail)[k..] == Retail(s[k..], n, tail)
  {
    assert s[..|s| - n][k..] == s[k..][..|s[k..]| - n];
  }

  lemma RetailAt(s: string, n: nat, tail: string, k: nat)
    requires k + n < |s|
    ensures k < |Retail(s, n, tail)| && Retail(s, n, tail)[k] == s[k]
  {
  }

  /** A parse is unchanged, up to the tail of what it leaves. */
  ghost predicate Same<T(!new)>(p: Parsed<T>, p': Parsed<T>, n: nat, tail: string)
    requires p.Ok? && n <= |p.rest|
  {
    p' == Ok(p.value, Retail(p.rest, n, tail))
  }

  // ---------------------------------------------------------------- scanners

  lemma {:induction false} SkipWsLocal(s: string, n: nat, tail: string)
    requires n < |SkipWs(s)|
    ensures SkipWs(Retail(s, n, tail)) == Retail(SkipWs(s), n, tail)
  {
    RetailAt(s, n, tail, 0);
    if IsSpace(s[0]) {
      SkipWsLocal(s[1..], n, tail);
      RetailDrop(s, n, tail, 1);
    }
  }

  lemma SkipSkip(s: string)
    ensures SkipWs(SkipWs(s)) == SkipWs(s)
  {
  }

  lemma ExpectLocal(s: string, c: char, n: nat, tail: string)
    requires Expect(s, c).Ok? && n <= |Expect(s, c).rest|
    ensures Same(Expect(s, c), Expect(Retail(s, n, tail), c), n, tail)
  {
    SkipWsLocal(s, n, tail);
    RetailAt(SkipWs(s), n, tail, 0);
    RetailDrop(SkipWs(s), n, tail, 1);
  }

  /** The same with the white space skipped first, as the parser does before a delimiter. */
  lemma DelimiterLocal(s: string, c: char, n: nat, tail: string)
    requires Expect(SkipWs(s), c).Ok? && n <= |Expect(SkipWs(s), c).rest|
    ensures n < |s| && Same(Expect(SkipWs(s), c), Expect(SkipWs(Retail(s, n, tail)), c), n, tail)
  {
    SkipSkip(s);
    SkipWsLocal(s, n, tail);
    ExpectLocal(SkipWs(s), c, n, tail);
  }

  lemma UuidLocal(s: string, n: nat, tail: string)
    requires ParseUuid(s).Ok? && n <= |ParseUuid(s).rest|
    ensures Same(ParseUuid(s), ParseUuid(Retail(s, n, tail)), n, tail)
  {
    var s' := Retail(s, n, tail);
    assert s'[..36] == s[..36];
    assert forall i | 0 <= i < 36 :: s'[i] == s[i];
    RetailDrop(s, n, tail, 36);
  }

  lemma {:induction false} HexBytesLocal(s: string, n: nat, tail: string)
    requires ParseHexBytes(s).Ok? && n < |ParseHexBytes(s).rest|
    ensures Same(ParseHexBytes(s), ParseHexBytes(Retail(s, n, tail)), n, tail)
  {
    RetailAt(s, n, tail, 0);
    if IsHex(s[0]) {
      RetailAt(s, n, tail, 1);
      HexBytesLocal(s[2..], n, tail);
      RetailDrop(s, n, tail, 2);
    }
  }

  lemma {:induction false} DigitsLocal(s: string, acc: nat, n: nat, tail: string)
    requires n < |ReadDigits(s, acc).1|
    ensures ReadDigits(Retail(s, n, tail), acc) == (ReadDigits(s, acc).0, Retail(ReadDigits(s, acc).1, n, tail))
  {
    RetailAt(s, n, tail, 0);
    if IsDigit(s[0]) {
      DigitsLocal(s[1..], (acc * 10 + DigitValue(s[0])) % TWO_64, n, tail);
      RetailDrop(s, n, tail, 1);
    }
  }

  lemma {:induction false} PathLoopLocal(s: string, done: FieldPath, segment: string, n: nat, tail: string)
    requires ReadPath(s, done, segment).Ok? && n < |ReadPath(s, done, segment).rest|
    ensures Same(ReadPath(s, done, segment), ReadPath(Retail(s, n, tail), done, segment), n, tail)
    decreases |s|
  {
    RetailAt(s, n, tail, 0);
    if !EndsPath(s[0]) {
      RetailDrop(s, n, tail, 1);
      if s[0] == '.' {
        PathLoopLocal(s[1..], done + [segment], "", n, tail);
      } else {
        PathLoopLocal(s[1..], done, segment + [s[0]], n, tail);
      }
    }
  }

  lemma PathLocal(s: string, n: nat, tail: string)
    requires ParsePath(s).Ok? && n < |ParsePath(s).rest|
    ensures Same(ParsePath(s), ParsePath(Retail(s, n, tail)), n, tail)
  {
    SkipWsLocal(s, n, tail);
    PathLoopLocal(SkipWs(s), [], "", n, tail);
  }

  lemma {:induction false} QuotedLocal(s: string, n: nat, tail: string)
    requires ReadQuoted(s).Ok? && n <= |ReadQuoted(s).rest|
    ensures Same(ReadQuoted(s), ReadQuoted(Retail(s, n, tail)), n, tail)
  {
    RetailAt(s, n, tail, 0);
    RetailDrop(s, n, tail, 1);
    if s[0] != '"' { QuotedLocal(s[1..], n, tail); }
  }

  // ---------------------------------------------------------------- words

  lemma {:induction false} StartsWithLocal(s: string, word: string, n: nat, tail: string)
    requires |word| + n <= |s|
    ensures StartsWith(Retail(s, n, tail), word) == StartsWith(s, word)
  {
    if word != "" {
      RetailAt(s, n, tail, 0);
      RetailDrop(s, n, tail, 1);
      StartsWithLocal(s[1..], word[1..], n, tail);
    }
  }

  lemma {:induction false} IgnoringCaseLocal(s: string, word: string, n: nat, tail: string)
    requires |word| + n <= |s|
    ensures StartsWithIgnoringCase(Retail(s, n, tail), word) == StartsWithIgnoringCase(s, word)
  {
    if word != "" {
      RetailAt(s, n, tail, 0);
      RetailDrop(s, n, tail, 1);
      IgnoringCaseLocal(s[1..], word[1..], n, tail);
    }
  }

  lemma OtherStart(s: string, word: string)
    requires s != "" && word != "" && s[0] != word[0]
    ensures !StartsWith(s, word)
  {
  }

  // ---------------------------------------------------------------- values

  lemma NumberLocal(s: string, n: nat, tail: string)
    requires ParseNumber(s).Ok? && n < |ParseNumber(s).rest|
    ensures Same(ParseNumber(s), ParseNumber(Retail(s, n, tail)), n, tail)
  {
    RetailAt(s, n, tail, 0);
    var negative := s[0] == '-';
    var digits := if negative then s[1..] else s;
    if negative { RetailDrop(s, n, tail, 1); }
    NumberTailLocal(digits, n, tail);
  }

  /** The digits of a number and the character after them. */
  lemma NumberTailLocal(digits: string, n: nat, tail: string)
    requires digits != "" && IsDigit(digits[0]) && n < |ReadDigits(digits[1..], DigitValue(digits[0]) % TWO_64).1|
    ensures n < |digits| && Retail(digits, n, tail)[0] == digits[0]
    ensures var r, r' := ReadDigits(digits[1..], DigitValue(digits[0]) % TWO_64),
                         ReadDigits(Retail(digits, n, tail)[1..], DigitValue(digits[0]) % TWO_64);
            && r' == (r.0, Retail(r.1, n, tail)) && r'.1 != "" && r'.1[0] == r.1[0]
            && r'.1[1..] == Retail(r.1[1..], n, tail)
  {
    RetailAt(digits, n, tail, 0);
    RetailDrop(digits, n, tail, 1);
    var start := DigitValue(digits[0]) % TWO_64;
    DigitsLocal(digits[1..], start, n, tail);
    RetailAt(ReadDigits(digits[1..], start).1, n, tail, 0);
    RetailDrop(ReadDigits(digits[1..], start).1, n, tail, 1);
  }

  lemma EnumLocal(s: string, n: nat, tail: string)
    requires ParseEnum(s).Ok? && n <= |ParseEnum(s).rest|
    ensures Same(ParseEnum(s), ParseEnum(Retail(s, n, tail)), n, tail)
  {
    var u := SkipWs(s);
    SkipWsLocal(s, n, tail);
    RetailAt(u, n, tail, 0);
    var digits := if u[0] == '-' then u[1..] else u;
    if u[0] == '-' { RetailDrop(u, n, tail, 1); }
    DigitsLocal(digits, 0, n, tail);
    ExpectLocal(ReadDigits(digits, 0).1, ')', n, tail);
  }

  lemma BoolLocal(u: string, word: string, n: nat, tail: string)
    requires |word| + n < |u|
    ensures BoolWord(Retail(u, n, tail), word) == BoolWord(u, word)
  {
    IgnoringCaseLocal(u, word, n, tail);
    RetailAt(u, n, tail, |word|);
  }

  /** Which kind of literal a text starts with. */
  datatype Kind = Quote | Hexadecimal | Yes | No | Enumerator | Number

  function KindOf(u: string): Kind
    requires u != ""
  {
    if u[0] == '"' then Quote
    else if |u| > 1 && u[0] == '0' && (u[1] == 'x' || u[1] == 'X') then Hexadecimal
    else if BoolWord(u, "true") then Yes
    else if BoolWord(u, "false") then No
    else if StartsWith(u, "enum(") then Enumerator
    else Number
  }

  function ParseKind(k: Kind, u: string): (r: Parsed<FieldValue>)
    requires u != "" && KindOf(u) == k
  {
    match k
    case Quote => var (t, rest) :- ReadQuoted(u[1..]); Ok(StringValue(t), rest)
    case Hexadecimal => var (b, rest) :- ParseHexBytes(u[2..]); Ok(BytesValue(b), rest)
    case Yes => Ok(BoolValue(true), u[4..])
    case No => Ok(BoolValue(false), u[5..])
    case Enumerator => ParseEnum(u[5..])
    case Number => ParseNumber(u)
  }

  lemma ValueByKind(s: string)
    ensures SkipWs(s) != "" ==> ParseValue(s) == ParseKind(KindOf(SkipWs(s)), SkipWs(s))
  {
  }

  lemma NumberStart(u: string)
    requires ParseNumber(u).Ok?
    ensures |u| > |ParseNumber(u).rest| && (IsDigit(u[0]) || u[0] == '-')
  {
  }

  lemma NoWordStart(u: string)
    requires u != "" && (IsDigit(u[0]) || u[0] == '-' || u[0] == 'e')
    ensures !BoolWord(u, "true") && !BoolWord(u, "false")
    ensures u[0] != 'e' ==> !StartsWith(u, "enum(")
  {
  }

  lemma KindLocal(u: string, n: nat, tail: string)
    requires u != "" && ParseKind(KindOf(u), u).Ok? && n < |ParseKind(KindOf(u), u).rest| <= |u|
    ensures Retail(u, n, tail) != "" && KindOf(Retail(u, n, tail)) == KindOf(u)
  {
    var k, u' := KindOf(u), Retail(u, n, tail);
    RetailAt(u, n, tail, 0);
    match k
    case Quote =>
    case Hexadecimal => RetailAt(u, n, tail, 1);
    case Yes => BoolLocal(u, "true", n, tail);
    case No =>
      BoolLocal(u, "false", n, tail);
      BoolLocal(u, "true", n, tail);
    case Enumerator =>
      StartsWithLocal(u, "enum(", n, tail);
      NoWordStart(u');
    case Number =>
      NumberStart(u);
      RetailAt(u, n, tail, 1);
      NoWordStart(u');
  }

  lemma ValueLocal(s: string, n: nat, tail: string)
    requires ParseValue(s).Ok? && n < |ParseValue(s).rest|
    ensures Same(ParseValue(s), ParseValue(Retail(s, n, tail)), n, tail)
  {
    var u := SkipWs(s);
    SkipWsLocal(s, n, tail);
    ValueByKind(s);
    ValueByKind(Retail(s, n, tail));
    KindLocal(u, n, tail);
    LiteralLocal(u, n, tail);
  }

  lemma LiteralLocal(u: string, n: nat, tail: string)
    requires u != "" && ParseKind(KindOf(u), u).Ok? && n < |ParseKind(KindOf(u), u).rest| <= |u|
    requires Retail(u, n, tail) != "" && KindOf(Retail(u, n, tail)) == KindOf(u)
    ensures Same(ParseKind(KindOf(u), u), ParseKind(KindOf(u), Retail(u, n, tail)), n, tail)
  {
    match KindOf(u)
    case Quote =>
      QuotedLocal(u[1..], n, tail);
      RetailDrop(u, n, tail, 1);
    case Hexadecimal =>
      HexBytesLocal(u[2..], n, tail);
      RetailDrop(u, n, tail, 2);
    case Yes => RetailDrop(u, n, tail, 4);
    case No => RetailDrop(u, n, tail, 5);
    case Enumerator =>
      EnumLocal(u[5..], n, tail);
      RetailDrop(u, n, tail, 5);
    case Number => NumberLocal(u, n, tail);
  }

  // ---------------------------------------------------------------- leaves

  lemma UuidArgLocal(s: string, n: nat, tail: string)
    requires ParseUuidArg(s).Ok? && n <= |ParseUuidArg(s).rest|
    ensures Same(ParseUuidArg(s), ParseUuidArg(Retail(s, n, tail)), n, tail)
  {
    SkipWsLocal(s, n, tail);
    UuidLocal(SkipWs(s), n, tail);
    DelimiterLocal(ParseUuid(SkipWs(s)).rest, ')', n, tail);
  }

  lemma HexArgLocal(s: string, n: nat, tail: string)
    requires ParseHexArg(s).Ok? && n <= |ParseHexArg(s).rest|
    ensures Same(ParseHexArg(s), ParseHexArg(Retail(s, n, tail)), n, tail)
  {
    SkipWsLocal(s, n, tail);
    HexBytesLocal(SkipWs(s), n, tail);
    DelimiterLocal(ParseHexBytes(SkipWs(s)).rest, ')', n, tail);
  }

  lemma IdLeafLocal(s: string, path: FieldPath, n: nat, tail: string)
    requires ParseIdLeaf(s, path).Ok? && n <= |ParseIdLeaf(s, path).rest|
    ensures Same(ParseIdLeaf(s, path), ParseIdLeaf(Retail(s, n, tail), path), n, tail)
  {
    UuidArgLocal(s, n, tail);
  }

  lemma FieldEqLocal(s: string, n: nat, tail: string)
    requires ParseFieldEq(s).Ok? && n <= |ParseFieldEq(s).rest|
    ensures Same(ParseFieldEq(s), ParseFieldEq(Retail(s, n, tail)), n, tail)
  {
    var s1 := ParsePath(s).rest;
    var s2 := Expect(SkipWs(s1), ',').rest;
    PathLocal(s, n, tail);
    DelimiterLocal(s1, ',', n, tail);
    ValueLocal(s2, n, tail);
    DelimiterLocal(ParseValue(s2).rest, ')', n, tail);
  }

  lemma FieldExistsLocal(s: string, n: nat, tail: string)
    requires ParseFieldExists(s).Ok? && n <= |ParseFieldExists(s).rest|
    ensures Same(ParseFieldExists(s), ParseFieldExists(Retail(s, n, tail)), n, tail)
  {
    PathLocal(s, n, tail);
    DelimiterLocal(ParsePath(s).rest, ')', n, tail);
  }

  lemma FieldContainsLocal(s: string, n: nat, tail: string)
    requires ParseFieldContains(s).Ok? && n <= |ParseFieldContains(s).rest|
    ensures Same(ParseFieldContains(s), ParseFieldContains(Retail(s, n, tail)), n, tail)
  {
    var s1 := ParsePath(s).rest;
    var s2 := Expect(SkipWs(s1), ',').rest;
    var s3 := ParsePath(s2).rest;
    var s4 := Expect(SkipWs(s3), ',').rest;
    PathLocal(s, n, tail);
    DelimiterLocal(s1, ',', n, tail);
    PathLocal(s2, n, tail);
    DelimiterLocal(s3, ',', n, tail);
    ValueLocal(s4, n, tail);
    DelimiterLocal(ParseValue(s4).rest, ')', n, tail);
  }

  // ---------------------------------------------------------------- heads

  /** How many characters decide on a head. */
  function Decides(h: Head): nat {
    if h == HAnd || h == HOr || h == HEq || h == HAllOf || h == HAnyOf then Skip(h) + 1 else Skip(h)
  }

  lemma OperatorLocal(u: string, n: nat, tail: string)
    requires OperatorHead(u) != HNone && Decides(OperatorHead(u)) + n <= |u|
    ensures OperatorHead(Retail(u, n, tail)) == OperatorHead(u)
  {
    var h, u' := OperatorHead(u), Retail(u, n, tail);
    RetailAt(u, n, tail, 0);
    match h
    case HAnd => StartsWithLocal(u, "AND(", n, tail);
    case HOr =>
      StartsWithLocal(u, "OR(", n, tail);
      OtherStart(u', "AND(");
    case HEq =>
      StartsWithLocal(u, "EQ(", n, tail);
      OtherStart(u', "AND(");
      OtherStart(u', "OR(");
    case _ =>
      StartsWithLocal(u, "AND(", n, tail);
      StartsWithLocal(u, "OR(", n, tail);
      StartsWithLocal(u, "EQ(", n, tail);
      StartsWithLocal(u, "ALLOF(", n, tail);
      StartsWithLocal(u, "ANYOF(", n, tail);
  }

  /** Texts that start with no operator keep doing so. */
  lemma NoOperatorLocal(u: string, n: nat, tail: string)
    requires u != "" && n < |u| && OperatorHead(u) == HNone
    requires 6 + n <= |u| || (u[0] != 'A' && u[0] != 'O' && u[0] != 'E')
    ensures OperatorHead(Retail(u, n, tail)) == HNone
  {
    RetailAt(u, n, tail, 0);
    if 6 + n <= |u| {
      StartsWithLocal(u, "AND(", n, tail);
      StartsWithLocal(u, "OR(", n, tail);
      StartsWithLocal(u, "EQ(", n, tail);
      StartsWithLocal(u, "ALLOF(", n, tail);
      StartsWithLocal(u, "ANYOF(", n, tail);
    }
  }

  lemma ConstantLocal(u: string, n: nat, tail: string)
    requires ConstantHead(u) != HNone && Skip(ConstantHead(u)) + n <= |u|
    ensures ConstantHead(Retail(u, n, tail)) == ConstantHead(u)
    ensures var c := Retail(u, n, tail)[0]; c == u[0] && (c == 'T' || c == 't' || c == 'F' || c == 'f')
  {
    RetailAt(u, n, tail, 0);
    if ConstantHead(u) == HTrue {
      IgnoringCaseLocal(u, "TRUE", n, tail);
    } else {
      IgnoringCaseLocal(u, "FALSE", n, tail);
    }
  }

  lemma EndHeadLocal(u: string, n: nat, tail: string)
    requires EndHead(u) != HNone && Decides(EndHead(u)) + n <= |u|
    ensures EndHead(Retail(u, n, tail)) == EndHead(u)
  {
    var h, u' := EndHead(u), Retail(u, n, tail);
    if OperatorHead(u) != HNone {
      OperatorLocal(u, n, tail);
    } else if h == HTrue || h == HFalse {
      ConstantLocal(u, n, tail);
      NoOperatorLocal(u, n, tail);
    } else {
      NoOperatorLocal(u, n, tail);
      StartsWithLocal(u, "ENDORSEMENT_TYPE(", n, tail);
      if h != HType { StartsWithLocal(u, "ENDORSEMENT_VALUE(", n, tail); }
      if h == HSigner { StartsWithLocal(u, "ENDORSEMENT_SIGNER(", n, tail); }
    }
  }

  /** FALSE in any case is not the start of a field predicate. */
  lemma FalseIsNoField(s: string)
    requires StartsWithIgnoringCase(s, "FALSE")
    ensures !StartsWith(s, "FIELD_EQ(") && !StartsWith(s, "FIELD_EXISTS(") && !StartsWith(s, "FIELD_CONTAINS(")
  {
    assert StartsWithIgnoringCase(s[1..], "ALSE");
    StartsWithNot(s, "FIELD_EQ(", 1);
    StartsWithNot(s, "FIELD_EXISTS(", 1);
    StartsWithNot(s, "FIELD_CONTAINS(", 1);
  }

  lemma MesConstantLocal(u: string, n: nat, tail: string)
    requires OperatorHead(u) == HNone && (MesHead(u) == HTrue || MesHead(u) == HFalse) && Skip(MesHead(u)) + n <= |u|
    ensures MesHead(Retail(u, n, tail)) == MesHead(u)
  {
    ConstantLocal(u, n, tail);
    NoOperatorLocal(u, n, tail);
    if MesHead(u) == HFalse { FalseIsNoField(Retail(u, n, tail)); }
  }

  lemma MesHeadLocal(u: string, n: nat, tail: string)
    requires MesHead(u) != HNone && Decides(MesHead(u)) + n <= |u|
    ensures MesHead(Retail(u, n, tail)) == MesHead(u)
  {
    var h, u' := MesHead(u), Retail(u, n, tail);
    if OperatorHead(u) != HNone {
      OperatorLocal(u, n, tail);
    } else if h == HTrue || h == HFalse {
      MesConstantLocal(u, n, tail);
    } else {
      RetailAt(u, n, tail, 0);
      NoOperatorLocal(u, n, tail);
      if h == HDestination { StartsWithLocal(u, "DESTINATION(", n, tail); } else { DestinationAbsent(u, u', h); }
      if h != HDestination { StartsWithLocal(u, "SOURCE(", n, tail); }
      MesFieldLocal(u, h, n, tail);
    }
  }

  lemma DestinationAbsent(u: string, u': string, h: Head)
    requires u != "" && u' != "" && u[0] == u'[0]
    requires OperatorHead(u) == HNone && MesHead(u) == h
    requires h == HSource || h == HFieldEq || h == HFieldExists || h == HFieldContains
    ensures !StartsWith(u', "DESTINATION(")
  {
    assert u[0] == 'S' || u[0] == 'F';
  }

  lemma MesFieldLocal(u: string, h: Head, n: nat, tail: string)
    requires OperatorHead(u) == HNone && MesHead(u) == h && Decides(h) + n <= |u|
    ensures h == HFieldEq ==> StartsWith(Retail(u, n, tail), "FIELD_EQ(")
    ensures h == HFieldExists ==> StartsWith(Retail(u, n, tail), "FIELD_EXISTS(")
                                  && !StartsWith(Retail(u, n, tail), "FIELD_EQ(")
    ensures h == HFieldContains ==> StartsWith(Retail(u, n, tail), "FIELD_CONTAINS(")
                                    && !StartsWith(Retail(u, n, tail), "FIELD_EQ(")
                                    && !StartsWith(Retail(u, n, tail), "FIELD_EXISTS(")
  {
    if h == HFieldEq || h == HFieldExists || h == HFieldContains { StartsWithLocal(u, "FIELD_EQ(", n, tail); }
    if h == HFieldExists || h == HFieldContains { StartsWithLocal(u, "FIELD_EXISTS(", n, tail); }
    if h == HFieldContains { StartsWithLocal(u, "FIELD_CONTAINS(", n, tail); }
  }

  // ---------------------------------------------------------------- endorsement trees

  lemma {:induction false} EndLocal(s: string, n: nat, tail: string)
    requires ParseEnd(s).Ok? && n <= |ParseEnd(s).rest|
    ensures Same(ParseEnd(s), ParseEnd(Retail(s, n, tail)), n, tail)
    decreases |s|, 0
  {
    var u := SkipWs(s);
    var h := EndHead(u);
    EndBodyDecides(h, u, n);
    SkipWsLocal(s, n, tail);
    EndHeadLocal(u, n, tail);
    RetailDrop(u, n, tail, Skip(h));
    EndBodyLocal(h, u[Skip(h)..], n, tail);
  }

  /** A successful parse has consumed the characters that decide on the head. */
  lemma EndBodyDecides(h: Head, u: string, n: nat)
    requires h == EndHead(u) && h != HNone && ParseEndBody(h, u[Skip(h)..]).Ok?
    requires n <= |ParseEndBody(h, u[Skip(h)..]).rest|
    ensures Decides(h) + n <= |u| && n < |u|
  {
  }

  lemma {:induction false} EndBodyLocal(h: Head, body: string, n: nat, tail: string)
    requires ParseEndBody(h, body).Ok? && n <= |ParseEndBody(h, body).rest|
    ensures Same(ParseEndBody(h, body), ParseEndBody(h, Retail(body, n, tail)), n, tail)
    decreases |body|, 3
  {
    match h
    case HAnd => EndPairLocal(body, n, tail);
    case HOr => EndPairLocal(body, n, tail);
    case HEq => EndPairLocal(body, n, tail);
    case HAllOf => EndArgsLocal(body, n, tail);
    case HAnyOf => EndArgsLocal(body, n, tail);
    case HType => UuidArgLocal(body, n, tail);
    case HSigner => UuidArgLocal(body, n, tail);
    case HValue => HexArgLocal(body, n, tail);
    case _ =>
  }

  lemma {:induction false} EndPairLocal(s: string, n: nat, tail: string)
    requires ParseEndPair(s).Ok? && n <= |ParseEndPair(s).rest|
    ensures Same(ParseEndPair(s), ParseEndPair(Retail(s, n, tail)), n, tail)
    decreases |s|, 1
  {
    var s1 := Expect(s, '(').rest;
    var s2 := ParseEnd(s1).rest;
    var s3 := Expect(SkipWs(s2), ',').rest;
    var s4 := ParseEnd(s3).rest;
    ExpectLocal(s, '(', n, tail);
    EndLocal(s1, n, tail);
    DelimiterLocal(s2, ',', n, tail);
    EndLocal(s3, n, tail);
    DelimiterLocal(s4, ')', n, tail);
  }

  lemma {:induction false} EndArgsLocal(s: string, n: nat, tail: string)
    requires ParseEndArgs(s).Ok? && n <= |ParseEndArgs(s).rest|
    ensures Same(ParseEndArgs(s), ParseEndArgs(Retail(s, n, tail)), n, tail)
    decreases |s|, 2
  {
    var s1 := Expect(s, '(').rest;
    var u := SkipWs(s1);
    ExpectLocal(s, '(', n, tail);
    SkipWsLocal(s1, n, tail);
    RetailAt(u, n, tail, 0);
    if u[0] == ')' {
      RetailDrop(u, n, tail, 1);
    } else {
      EndTermsLocal(u, n, tail);
    }
  }

  lemma {:induction false} EndTermsLocal(s: string, n: nat, tail: string)
    requires ParseEndTerms(s).Ok? && n <= |ParseEndTerms(s).rest|
    ensures Same(ParseEndTerms(s), ParseEndTerms(Retail(s, n, tail)), n, tail)
    decreases |s|, 1
  {
    var s1 := ParseEnd(s).rest;
    var u := SkipWs(s1);
    EndLocal(s, n, tail);
    SkipWsLocal(s1, n, tail);
    RetailAt(u, n, tail, 0);
    if u[0] == ',' {
      RetailDrop(u, n, tail, 1);
      EndTermsLocal(u[1..], n, tail);
    } else {
      ExpectLocal(u, ')', n, tail);
    }
  }

  // ---------------------------------------------------------------- message trees

  lemma {:induction false} MesLocal(s: string, n: nat, tail: string)
    requires ParseMes(s).Ok? && n <= |ParseMes(s).rest|
    ensures Same(ParseMes(s), ParseMes(Retail(s, n, tail)), n, tail)
    decreases |s|, 0
  {
    var u := SkipWs(s);
    var h := MesHead(u);
    MesBodyDecides(h, u, n);
    SkipWsLocal(s, n, tail);
    MesHeadLocal(u, n, tail);
    RetailDrop(u, n, tail, Skip(h));
    MesBodyLocal(h, u[Skip(h)..], n, tail);
  }

  /** A successful parse has consumed the characters that decide on the head. */
  lemma MesBodyDecides(h: Head, u: string, n: nat)
    requires h == MesHead(u) && h != HNone && ParseMesBody(h, u[Skip(h)..]).Ok?
    requires n <= |ParseMesBody(h, u[Skip(h)..]).rest|
    ensures Decides(h) + n <= |u| && n < |u|
  {
  }

  lemma {:induction false} MesBodyLocal(h: Head, body: string, n: nat, tail: string)
    requires ParseMesBody(h, body).Ok? && n <= |ParseMesBody(h, body).rest|
    ensures Same(ParseMesBody(h, body), ParseMesBody(h, Retail(body, n, tail)), n, tail)
    decreases |body|, 3
  {
    match h
    case HAnd => MesPairLocal(body, n, tail);
    case HOr => MesPairLocal(body, n, tail);
    case HEq => MesPairLocal(body, n, tail);
    case HAllOf => MesArgsLocal(body, n, tail);
    case HAnyOf => MesArgsLocal(body, n, tail);
    case HDestination => IdLeafLocal(body, DESTINATION_PATH, n, tail);
    case HSource => IdLeafLocal(body, SOURCE_PATH, n, tail);
    case HFieldEq => FieldEqLocal(body, n, tail);
    case HFieldExists => FieldExistsLocal(body, n, tail);
    case HFieldContains => FieldContainsLocal(body, n, tail);
    case _ =>
  }

  lemma {:induction false} MesPairLocal(s: string, n: nat, tail: string)
    requires ParseMesPair(s).Ok? && n <= |ParseMesPair(s).rest|
    ensures Same(ParseMesPair(s), ParseMesPair(Retail(s, n, tail)), n, tail)
    decreases |s|, 1
  {
    var s1 := Expect(s, '(').rest;
    var s2 := ParseMes(s1).rest;
    var s3 := Expect(SkipWs(s2), ',').rest;
    var s4 := ParseMes(s3).rest;
    ExpectLocal(s, '(', n, tail);
    MesLocal(s1, n, tail);
    DelimiterLocal(s2, ',', n, tail);
    MesLocal(s3, n, tail);
    DelimiterLocal(s4, ')', n, tail);
  }

  lemma {:induction false} MesArgsLocal(s: string, n: nat, tail: string)
    requires ParseMesArgs(s).Ok? && n <= |ParseMesArgs(s).rest|
    ensures Same(ParseMesArgs(s), ParseMesArgs(Retail(s, n, tail)), n, tail)
    decreases |s|, 2
  {
    var s1 := Expect(s, '(').rest;
    var u := SkipWs(s1);
    ExpectLocal(s, '(', n, tail);
    SkipWsLocal(s1, n, tail);
    RetailAt(u, n, tail, 0);
    if u[0] == ')' {
      RetailDrop(u, n, tail, 1);
    } else {
      MesTermsLocal(u, n, tail);
    }
  }

  lemma {:induction false} MesTermsLocal(s: string, n: nat, tail: string)
    requires ParseMesTerms(s).Ok? && n <= |ParseMesTerms(s).rest|
    ensures Same(ParseMesTerms(s), ParseMesTerms(Retail(s, n, tail)), n, tail)
    decreases |s|, 1
  {
    var s1 := ParseMes(s).rest;
    var u := SkipWs(s1);
    MesLocal(s, n, tail);
    SkipWsLocal(s1, n, tail);
    RetailAt(u, n, tail, 0);
    if u[0] == ',' {
      RetailDrop(u, n, tail, 1);
      MesTermsLocal(u[1..], n, tail);
    } else {
      ExpectLocal(u, ')', n, tail);
    }
  }

  // ---------------------------------------------------------------- leaves of requirement trees

  lemma LeafLocal(h: Head, body: string, n: nat, tail: string)
    requires ParseLeaf(h, body).Ok? && n <= |ParseLeaf(h, body).rest|
    ensures Same(ParseLeaf(h, body), ParseLeaf(h, Retail(body, n, tail)), n, tail)
  {
    match h
    case HEndorsement => EndorsementLeafLocal(body, n, tail);
    case HMessage => MessageLeafLocal(body, n, tail);
    case HType => UuidArgLocal(body, n, tail);
    case HSigner => UuidArgLocal(body, n, tail);
    case HValue => HexArgLocal(body, n, tail);
    case HDestination => IdLeafLocal(body, DESTINATION_PATH, n, tail);
    case HSource => IdLeafLocal(body, SOURCE_PATH, n, tail);
  }

  lemma EndorsementLeafLocal(s: string, n: nat, tail: string)
    requires ParseEndorsementLeaf(s).Ok? && n <= |ParseEndorsementLeaf(s).rest|
    ensures Same(ParseEndorsementLeaf(s), ParseEndorsementLeaf(Retail(s, n, tail)), n, tail)
  {
    SkipWsLocal(s, n, tail);
    EndLocal(SkipWs(s), n, tail);
    DelimiterLocal(ParseEnd(SkipWs(s)).rest, ')', n, tail);
  }

  lemma MessageLeafLocal(s: string, n: nat, tail: string)
    requires ParseMessageLeaf(s).Ok? && n <= |ParseMessageLeaf(s).rest|
    ensures Same(ParseMessageLeaf(s), ParseMessageLeaf(Retail(s, n, tail)), n, tail)
  {
    SkipWsLocal(s, n, tail);
    MesLocal(SkipWs(s), n, tail);
    DelimiterLocal(ParseMes(SkipWs(s)).rest, ')', n, tail);
  }
}
