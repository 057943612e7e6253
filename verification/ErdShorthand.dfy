/** The words of requirement-tree text (common/endorsement/endorsement_text.cpp): what each keyword
    stands for, and what the shorthands abbreviate, against literal text. */
module ErdShorthand {
  import opened Common
  import opened ErdTree
  import opened ErdText
  import opened ErdRoundTrip

  // ---------------------------------------------------------------- addresses

  /** DESTINATION(id) and SOURCE(id) compare these fields with the bytes of the id. */
  function DestinationIs(id: Uuid): MesTree {
    FieldEquals(Some(["destination", "value"]), Some(BytesValue(id)))
  }

  function SourceIs(id: Uuid): MesTree {
    FieldEquals(Some(["signature", "signer", "value"]), Some(BytesValue(id)))
  }

  lemma PathMore(first: string, more: FieldPath, rest: string)
    requires more != []
    ensures PathText([first] + more, rest) == first + ("." + PathText(more, rest))
  {
    assert ([first] + more)[1..] == more;
  }

  lemma DestinationPath(rest: string)
    ensures PrintablePath(["destination", "value"])
    ensures PathText(["destination", "value"], rest) == "destination.value" + rest
  {
    PathMore("destination", ["value"], rest);
    assert ["destination"] + ["value"] == ["destination", "value"];
    assert "destination" + ("." + ("value" + rest)) == "destination.value" + rest;
  }

  lemma SignerPath(rest: string)
    ensures PrintablePath(["signature", "signer", "value"])
    ensures PathText(["signature", "signer", "value"], rest) == "signature.signer.value" + rest
  {
    PathMore("signer", ["value"], rest);
    assert ["signer"] + ["value"] == ["signer", "value"];
    PathMore("signature", ["signer", "value"], rest);
    assert ["signature"] + ["signer", "value"] == ["signature", "signer", "value"];
    assert "signature" + ("." + ("signer" + ("." + ("value" + rest)))) == "signature.signer.value" + rest;
  }

  /** Written out, they are FIELD_EQ. */
  lemma DestinationText(id: Uuid, rest: string)
    ensures PrintableMes(DestinationIs(id))
    ensures MesText(DestinationIs(id), rest) == "FIELD_EQ(destination.value, 0x" + HexText(id, ")" + rest)
  {
    var hex := HexText(id, ")" + rest);
    DestinationPath(", " + ("0x" + hex));
    assert "FIELD_EQ(" + ("destination.value" + (", " + ("0x" + hex))) == "FIELD_EQ(destination.value, 0x" + hex;
  }

  lemma SourceText(id: Uuid, rest: string)
    ensures PrintableMes(SourceIs(id))
    ensures MesText(SourceIs(id), rest) == "FIELD_EQ(signature.signer.value, 0x" + HexText(id, ")" + rest)
  {
    var hex := HexText(id, ")" + rest);
    SignerPath(", " + ("0x" + hex));
    assert "FIELD_EQ(" + ("signature.signer.value" + (", " + ("0x" + hex)))
        == "FIELD_EQ(signature.signer.value, 0x" + hex;
  }

  lemma DestinationHead(x: string)
    ensures MesHead("DESTINATION(" + x) == HDestination && TreeHead("DESTINATION(" + x) == HDestination
  {
    NoOperator("DESTINATION(" + x);
    StartsWithSelf("DESTINATION(", x);
  }

  lemma SourceHead(x: string)
    ensures MesHead("SOURCE(" + x) == HSource && TreeHead("SOURCE(" + x) == HSource
  {
    NoOperator("SOURCE(" + x);
    StartsWithSelf("SOURCE(", x);
  }

  /** Inside MESSAGE(...), a shorthand is read like the comparison it stands for. */
  lemma MessageDestination(id: Uuid, rest: string)
    ensures ParseMes("DESTINATION(" + UuidText(id, ")" + rest))
         == ParseMes("FIELD_EQ(destination.value, 0x" + HexText(id, ")" + rest)) == Ok(DestinationIs(id), rest)
  {
    var body := UuidText(id, ")" + rest);
    DestinationHead(body);
    UuidArgRoundTrip(id, rest);
    MesStep("DESTINATION(" + body, HDestination, "DESTINATION(", body);
    DestinationText(id, rest);
    MesRoundTrip(DestinationIs(id), rest);
  }

  lemma MessageSource(id: Uuid, rest: string)
    ensures ParseMes("SOURCE(" + UuidText(id, ")" + rest))
         == ParseMes("FIELD_EQ(signature.signer.value, 0x" + HexText(id, ")" + rest)) == Ok(SourceIs(id), rest)
  {
    var body := UuidText(id, ")" + rest);
    SourceHead(body);
    UuidArgRoundTrip(id, rest);
    MesStep("SOURCE(" + body, HSource, "SOURCE(", body);
    SourceText(id, rest);
    MesRoundTrip(SourceIs(id), rest);
  }

  /** At a requirement position, it is read like that comparison inside MESSAGE(...). */
  lemma DestinationShorthand(id: Uuid, rest: string, vars: Variables)
    ensures ParseTree("DESTINATION(" + UuidText(id, ")" + rest), vars)
         == ParseTree("MESSAGE(" + ("FIELD_EQ(destination.value, 0x" + HexText(id, ")" + (")" + rest))), vars)
         == Ok(MessageLeaf(Some(DestinationIs(id))), rest)
  {
    var body := UuidText(id, ")" + rest);
    DestinationHead(body);
    UuidArgRoundTrip(id, rest);
    TreeStep("DESTINATION(" + body, HDestination, "DESTINATION(", body, vars);
    DestinationText(id, ")" + rest);
    TreeMessage(DestinationIs(id), rest, vars);
  }

  lemma SourceShorthand(id: Uuid, rest: string, vars: Variables)
    ensures ParseTree("SOURCE(" + UuidText(id, ")" + rest), vars)
         == ParseTree("MESSAGE(" + ("FIELD_EQ(signature.signer.value, 0x" + HexText(id, ")" + (")" + rest))), vars)
         == Ok(MessageLeaf(Some(SourceIs(id))), rest)
  {
    var body := UuidText(id, ")" + rest);
    SourceHead(body);
    UuidArgRoundTrip(id, rest);
    TreeStep("SOURCE(" + body, HSource, "SOURCE(", body, vars);
    SourceText(id, ")" + rest);
    TreeMessage(SourceIs(id), rest, vars);
  }

  // ---------------------------------------------------------------- bare endorsement predicates

  lemma BareHeads(x: string)
    ensures TreeHead("ENDORSEMENT_TYPE(" + x) == HType
    ensures TreeHead("ENDORSEMENT_VALUE(" + x) == HValue
    ensures TreeHead("ENDORSEMENT_SIGNER(" + x) == HSigner
  {
    BareHead("ENDORSEMENT_TYPE(", x);
    BareHead("ENDORSEMENT_VALUE(", x);
    BareHead("ENDORSEMENT_SIGNER(", x);
    EndTypeHead(x);
    EndValueHead(x);
    EndSignerHead(x);
  }

  lemma BareHead(word: string, x: string)
    requires word in {"ENDORSEMENT_TYPE(", "ENDORSEMENT_VALUE(", "ENDORSEMENT_SIGNER("}
    ensures TreeHead(word + x) == EndHead(word + x)
  {
    NoOperator(word + x);
    StartsWithNot(word + x, "ENDORSEMENT(", 11);
    StartsWithSelf(word, x);
  }

  /** At a requirement position, ENDORSEMENT_TYPE, ENDORSEMENT_VALUE and ENDORSEMENT_SIGNER are read
      like the same predicate inside ENDORSEMENT(...). */
  lemma BareTests(id: Uuid, value: Bytes, rest: string, vars: Variables)
    ensures ParseTree("ENDORSEMENT_TYPE(" + UuidText(id, ")" + rest), vars)
         == ParseTree("ENDORSEMENT(" + ("ENDORSEMENT_TYPE(" + UuidText(id, ")" + (")" + rest))), vars)
         == Ok(EndorsementLeaf(Some(TypeEquals(Some(id)))), rest)
    ensures ParseTree("ENDORSEMENT_VALUE(" + HexText(value, ")" + rest), vars)
         == ParseTree("ENDORSEMENT(" + ("ENDORSEMENT_VALUE(" + HexText(value, ")" + (")" + rest))), vars)
         == Ok(EndorsementLeaf(Some(ValueEquals(value))), rest)
    ensures ParseTree("ENDORSEMENT_SIGNER(" + UuidText(id, ")" + rest), vars)
         == ParseTree("ENDORSEMENT(" + ("ENDORSEMENT_SIGNER(" + UuidText(id, ")" + (")" + rest))), vars)
         == Ok(EndorsementLeaf(Some(SignerEquals(Some(id)))), rest)
  {
    BareType(id, rest, vars);
    BareSigner(id, rest, vars);
    BareValue(value, rest, vars);
    TreeEndorsement(TypeEquals(Some(id)), rest, vars);
    TreeEndorsement(ValueEquals(value), rest, vars);
    TreeEndorsement(SignerEquals(Some(id)), rest, vars);
  }

  lemma BareType(id: Uuid, rest: string, vars: Variables)
    ensures ParseTree("ENDORSEMENT_TYPE(" + UuidText(id, ")" + rest), vars)
         == Ok(EndorsementLeaf(Some(TypeEquals(Some(id)))), rest)
  {
    var body := UuidText(id, ")" + rest);
    BareHeads(body);
    UuidArgRoundTrip(id, rest);
    TreeStep("ENDORSEMENT_TYPE(" + body, HType, "ENDORSEMENT_TYPE(", body, vars);
  }

  lemma BareSigner(id: Uuid, rest: string, vars: Variables)
    ensures ParseTree("ENDORSEMENT_SIGNER(" + UuidText(id, ")" + rest), vars)
         == Ok(EndorsementLeaf(Some(SignerEquals(Some(id)))), rest)
  {
    var body := UuidText(id, ")" + rest);
    BareHeads(body);
    UuidArgRoundTrip(id, rest);
    TreeStep("ENDORSEMENT_SIGNER(" + body, HSigner, "ENDORSEMENT_SIGNER(", body, vars);
  }

  lemma BareValue(value: Bytes, rest: string, vars: Variables)
    ensures ParseTree("ENDORSEMENT_VALUE(" + HexText(value, ")" + rest), vars)
         == Ok(EndorsementLeaf(Some(ValueEquals(value))), rest)
  {
    var body := HexText(value, ")" + rest);
    BareHeads(body);
    HexArgRoundTrip(value, rest);
    TreeStep("ENDORSEMENT_VALUE(" + body, HValue, "ENDORSEMENT_VALUE(", body, vars);
  }

  // ---------------------------------------------------------------- keywords

  lemma PairOpened(x: string)
    ensures "AND" + ("(" + x) == "AND(" + x && "OR" + ("(" + x) == "OR(" + x && "EQ" + ("(" + x) == "EQ(" + x
  {
  }

  lemma ListOpened(x: string)
    ensures "ALLOF" + ("(" + x) == "ALLOF(" + x && "ANYOF" + ("(" + x) == "ANYOF(" + x
  {
  }

  /** The connectives of endorsement predicates, by their words. */
  lemma EndAndWord(l: EndTree, r: EndTree, rest: string)
    requires PrintableEnd(l) && PrintableEnd(r)
    ensures ParseEnd("AND(" + EndText(l, ", " + EndText(r, ")" + rest))) == Ok(EndAnd(Some(l), Some(r)), rest)
  {
    PairOpened(EndText(l, ", " + EndText(r, ")" + rest)));
    EndRoundTrip(EndAnd(Some(l), Some(r)), rest);
  }

  lemma EndOrWord(l: EndTree, r: EndTree, rest: string)
    requires PrintableEnd(l) && PrintableEnd(r)
    ensures ParseEnd("OR(" + EndText(l, ", " + EndText(r, ")" + rest))) == Ok(EndOr(Some(l), Some(r)), rest)
  {
    PairOpened(EndText(l, ", " + EndText(r, ")" + rest)));
    EndRoundTrip(EndOr(Some(l), Some(r)), rest);
  }

  lemma EndEqualsWord(l: EndTree, r: EndTree, rest: string)
    requires PrintableEnd(l) && PrintableEnd(r)
    ensures ParseEnd("EQ(" + EndText(l, ", " + EndText(r, ")" + rest))) == Ok(EndEquals(Some(l), Some(r)), rest)
  {
    PairOpened(EndText(l, ", " + EndText(r, ")" + rest)));
    EndRoundTrip(EndEquals(Some(l), Some(r)), rest);
  }

  lemma EndListWords(ts: seq<EndTree>, rest: string)
    requires forall t | t in ts :: PrintableEnd(t)
    ensures ParseEnd("ALLOF(" + EndTermsText(ts, ")" + rest)) == Ok(EndAllOf(ts), rest)
    ensures ParseEnd("ANYOF(" + EndTermsText(ts, ")" + rest)) == Ok(EndAnyOf(ts), rest)
    ensures ParseEnd("TRUE" + rest) == Ok(EndTrue, rest) && ParseEnd("FALSE" + rest) == Ok(EndFalse, rest)
  {
    ListOpened(EndTermsText(ts, ")" + rest));
    EndRoundTrip(EndAllOf(ts), rest);
    EndRoundTrip(EndAnyOf(ts), rest);
    EndRoundTrip(EndTrue, rest);
    EndRoundTrip(EndFalse, rest);
  }

  /** The connectives of message predicates, by their words. */
  lemma MesAndWord(l: MesTree, r: MesTree, rest: string)
    requires PrintableMes(l) && PrintableMes(r)
    ensures ParseMes("AND(" + MesText(l, ", " + MesText(r, ")" + rest))) == Ok(MesAnd(Some(l), Some(r)), rest)
  {
    PairOpened(MesText(l, ", " + MesText(r, ")" + rest)));
    MesRoundTrip(MesAnd(Some(l), Some(r)), rest);
  }

  lemma MesOrWord(l: MesTree, r: MesTree, rest: string)
    requires PrintableMes(l) && PrintableMes(r)
    ensures ParseMes("OR(" + MesText(l, ", " + MesText(r, ")" + rest))) == Ok(MesOr(Some(l), Some(r)), rest)
  {
    PairOpened(MesText(l, ", " + MesText(r, ")" + rest)));
    MesRoundTrip(MesOr(Some(l), Some(r)), rest);
  }

  lemma MesEqualsWord(l: MesTree, r: MesTree, rest: string)
    requires PrintableMes(l) && PrintableMes(r)
    ensures ParseMes("EQ(" + MesText(l, ", " + MesText(r, ")" + rest))) == Ok(MesEquals(Some(l), Some(r)), rest)
  {
    PairOpened(MesText(l, ", " + MesText(r, ")" + rest)));
    MesRoundTrip(MesEquals(Some(l), Some(r)), rest);
  }

  lemma MesListWords(ts: seq<MesTree>, rest: string)
    requires forall t | t in ts :: PrintableMes(t)
    ensures ParseMes("ALLOF(" + MesTermsText(ts, ")" + rest)) == Ok(MesAllOf(ts), rest)
    ensures ParseMes("ANYOF(" + MesTermsText(ts, ")" + rest)) == Ok(MesAnyOf(ts), rest)
    ensures ParseMes("TRUE" + rest) == Ok(MesTrue, rest) && ParseMes("FALSE" + rest) == Ok(MesFalse, rest)
  {
    ListOpened(MesTermsText(ts, ")" + rest));
    MesRoundTrip(MesAllOf(ts), rest);
    MesRoundTrip(MesAnyOf(ts), rest);
    MesRoundTrip(MesTrue, rest);
    MesRoundTrip(MesFalse, rest);
  }

  /** The connectives of requirements, by their words. */
  lemma TreeAndWord(l: Tree, r: Tree, rest: string, vars: Variables)
    requires Printable(l) && Printable(r)
    ensures ParseTree("AND(" + TreeText(l, ", " + TreeText(r, ")" + rest)), vars) == Ok(And(Some(l), Some(r)), rest)
  {
    PairOpened(TreeText(l, ", " + TreeText(r, ")" + rest)));
    TreeRoundTrip(And(Some(l), Some(r)), rest, vars);
  }

  lemma TreeOrWord(l: Tree, r: Tree, rest: string, vars: Variables)
    requires Printable(l) && Printable(r)
    ensures ParseTree("OR(" + TreeText(l, ", " + TreeText(r, ")" + rest)), vars) == Ok(Or(Some(l), Some(r)), rest)
  {
    PairOpened(TreeText(l, ", " + TreeText(r, ")" + rest)));
    TreeRoundTrip(Or(Some(l), Some(r)), rest, vars);
  }

  lemma TreeEqualsWord(l: Tree, r: Tree, rest: string, vars: Variables)
    requires Printable(l) && Printable(r)
    ensures ParseTree("EQ(" + TreeText(l, ", " + TreeText(r, ")" + rest)), vars) == Ok(Equals(Some(l), Some(r)), rest)
  {
    PairOpened(TreeText(l, ", " + TreeText(r, ")" + rest)));
    TreeRoundTrip(Equals(Some(l), Some(r)), rest, vars);
  }

  lemma TreeListWords(ts: seq<Tree>, rest: string, vars: Variables)
    requires forall t | t in ts :: Printable(t)
    ensures ParseTree("ALLOF(" + TermsText(ts, ")" + rest), vars) == Ok(AllOf(ts), rest)
    ensures ParseTree("ANYOF(" + TermsText(ts, ")" + rest), vars) == Ok(AnyOf(ts), rest)
    ensures ParseTree("TRUE" + rest, vars) == Ok(True, rest) && ParseTree("FALSE" + rest, vars) == Ok(False, rest)
  {
    ListOpened(TermsText(ts, ")" + rest));
    TreeRoundTrip(AllOf(ts), rest, vars);
    TreeRoundTrip(AnyOf(ts), rest, vars);
    TreeRoundTrip(True, rest, vars);
    TreeRoundTrip(False, rest, vars);
  }

  /** The leaves, by their words. */
  lemma EndLeafWords(id: Uuid, value: Bytes, rest: string)
    ensures ParseEnd("ENDORSEMENT_TYPE(" + UuidText(id, ")" + rest)) == Ok(TypeEquals(Some(id)), rest)
    ensures ParseEnd("ENDORSEMENT_VALUE(" + HexText(value, ")" + rest)) == Ok(ValueEquals(value), rest)
    ensures ParseEnd("ENDORSEMENT_SIGNER(" + UuidText(id, ")" + rest)) == Ok(SignerEquals(Some(id)), rest)
  {
    EndRoundTrip(TypeEquals(Some(id)), rest);
    EndRoundTrip(ValueEquals(value), rest);
    EndRoundTrip(SignerEquals(Some(id)), rest);
  }

  lemma MesLeafWords(path: FieldPath, sub: FieldPath, value: FieldValue, rest: string)
    requires PrintablePath(path) && PrintablePath(sub) && PrintableValue(value)
    ensures ParseMes("FIELD_EQ(" + PathText(path, ", " + ValueText(value, ")" + rest)))
         == Ok(FieldEquals(Some(path), Some(value)), rest)
    ensures ParseMes("FIELD_EXISTS(" + PathText(path, ")" + rest)) == Ok(FieldExists(Some(path)), rest)
    ensures ParseMes("FIELD_CONTAINS(" + PathText(path, ", " + PathText(sub, ", " + ValueText(value, ")" + rest))))
         == Ok(FieldContains(Some(path), Some(sub), Some(value)), rest)
  {
    MesRoundTrip(FieldEquals(Some(path), Some(value)), rest);
    MesRoundTrip(FieldExists(Some(path)), rest);
    MesRoundTrip(FieldContains(Some(path), Some(sub), Some(value)), rest);
  }

  lemma TreeLeafWords(p: EndTree, c: MesTree, rest: string, vars: Variables)
    requires PrintableEnd(p) && PrintableMes(c)
    ensures ParseTree("ENDORSEMENT(" + EndText(p, ")" + rest), vars) == Ok(EndorsementLeaf(Some(p)), rest)
    ensures ParseTree("MESSAGE(" + MesText(c, ")" + rest), vars) == Ok(MessageLeaf(Some(c)), rest)
  {
    TreeEndorsement(p, rest, vars);
    TreeMessage(c, rest, vars);
  }

  // ---------------------------------------------------------------- literals

  lemma HexPair(a: Byte, b: Byte, bs: Bytes, rest: string)
    ensures HexText([a, b] + bs, rest)
         == [HexDigit(a / 16), HexDigit(a % 16), HexDigit(b / 16), HexDigit(b % 16)] + HexText(bs, rest)
  {
    assert ([a, b] + bs)[1..] == [b] + bs && ([b] + bs)[1..] == bs;
  }

  /** How literals look: bytes, a string, ... */
  lemma BytesAndStringTexts(rest: string)
    ensures ValueText(BytesValue([10, 255]), rest) == "0x0aff" + rest
    ensures ValueText(StringValue("a b"), rest) == "\"a b\"" + rest
  {
    HexPair(10, 255, [], rest);
    assert [10, 255] + [] == [10, 255];
  }

  /** ... a negative, an unsigned and an enum number, a flag, ... */
  lemma NumberTexts(rest: string)
    ensures ValueText(IntValue(-42), rest) == "-42" + rest && ValueText(UintValue(42), rest) == "42u" + rest
    ensures ValueText(EnumValue(-7), rest) == "enum(-7)" + rest
    ensures ValueText(BoolValue(true), rest) == "true" + rest && ValueText(BoolValue(false), rest) == "false" + rest
  {
    TwoDigits(4, 2, rest);
    TwoDigits(4, 2, "u" + rest);
    assert DecimalText(7, ")" + rest) == "7" + (")" + rest);
  }

  lemma TwoDigits(a: nat, b: nat, rest: string)
    requires 0 < a < 10 && b < 10
    ensures DecimalText(10 * a + b, rest) == [(a + 48) as char, (b + 48) as char] + rest
  {
    assert (10 * a + b) / 10 == a && (10 * a + b) % 10 == b;
    assert DecimalText(a, [(b + 48) as char] + rest) == [(a + 48) as char] + ([(b + 48) as char] + rest);
  }

  lemma FirstGroup(rest: string)
    ensures HexText([1, 35, 69, 103], rest) == "01234567" + rest
  {
    HexPair(69, 103, [], rest);
    HexPair(1, 35, [69, 103], rest);
    assert [69, 103] + [] == [69, 103] && [1, 35] + [69, 103] == [1, 35, 69, 103];
  }

  lemma MiddleGroup(rest: string)
    ensures HexText([137, 171], rest) == "89ab" + rest && HexText([205, 239], rest) == "cdef" + rest
    ensures HexText([16, 50], rest) == "1032" + rest
  {
    HexPair(137, 171, [], rest);
    HexPair(205, 239, [], rest);
    HexPair(16, 50, [], rest);
    assert [137, 171] + [] == [137, 171] && [205, 239] + [] == [205, 239] && [16, 50] + [] == [16, 50];
  }

  lemma UuidTextOf(id: Uuid, a: Bytes, b: Bytes, c: Bytes, d: Bytes, e: Bytes, rest: string)
    requires id[..4] == a && id[4..6] == b && id[6..8] == c && id[8..10] == d && id[10..] == e
    ensures UuidText(id, rest)
         == HexText(a, "-" + HexText(b, "-" + HexText(c, "-" + HexText(d, "-" + HexText(e, rest)))))
  {
  }

  /** ... and an id. */
  lemma IdText(rest: string)
    ensures var id: Uuid := [1, 35, 69, 103, 137, 171, 205, 239, 16, 50, 84, 118, 152, 186, 220, 254];
            UuidText(id, rest)
            == "01234567" + ("-" + ("89ab" + ("-" + ("cdef" + ("-" + ("1032" +
                 ("-" + ("5476" + ("98ba" + ("dcfe" + rest))))))))))
  {
    IdGroups();
    UuidTextOf([1, 35, 69, 103, 137, 171, 205, 239, 16, 50, 84, 118, 152, 186, 220, 254],
               [1, 35, 69, 103], [137, 171], [205, 239], [16, 50], [84, 118, 152, 186, 220, 254], rest);
    IdTail(rest);
    var t5 := "5476" + ("98ba" + ("dcfe" + rest));
    MiddleGroup("-" + t5);
    var t4 := "1032" + ("-" + t5);
    MiddleGroup("-" + t4);
    var t3 := "cdef" + ("-" + t4);
    MiddleGroup("-" + t3);
    FirstGroup("-" + ("89ab" + ("-" + t3)));
  }

  lemma IdTail(rest: string)
    ensures HexText([84, 118, 152, 186, 220, 254], rest) == "5476" + ("98ba" + ("dcfe" + rest))
  {
    HexPair(220, 254, [], rest);
    HexPair(152, 186, [220, 254], rest);
    HexPair(84, 118, [152, 186, 220, 254], rest);
    assert [220, 254] + [] == [220, 254] && [152, 186] + [220, 254] == [152, 186, 220, 254];
    assert [84, 118] + [152, 186, 220, 254] == [84, 118, 152, 186, 220, 254];
  }

  lemma IdGroups()
    ensures var id: Uuid := [1, 35, 69, 103, 137, 171, 205, 239, 16, 50, 84, 118, 152, 186, 220, 254];
            && id[..4] == [1, 35, 69, 103] && id[4..6] == [137, 171] && id[6..8] == [205, 239]
            && id[8..10] == [16, 50] && id[10..] == [84, 118, 152, 186, 220, 254]
  {
  }
}
