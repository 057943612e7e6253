/** The printers of requirement trees (common/endorsement/endorsement_text.cpp): methods that
    append to a string. Each is proved against the text functions of ErdText for whatever
    text rest is going to follow. */
module ErdPrinter {
  import opened Common
  import opened ErdTree
  import opened ErdText

  lemma Prefixed(out: string, op: string, s: string, rest: string)
    ensures (out + op + s) + rest == out + (op + (s + rest))
  {
    Regroup(out + op, s, rest);
    Regroup(out, op, s + rest);
  }

  // ---------------------------------------------------------------- ids, bytes and numbers

  method AppendHex(b: Bytes, out: string, ghost rest: string) returns (o: string)
    ensures o + rest == out + HexText(b, rest)
  {
    o := out;
    assert b[0..] == b;
    for i := 0 to |b|
      invariant o + HexText(b[i..], rest) == out + HexText(b, rest)
    {
      assert b[i..][1..] == b[i + 1..];
      var pair := [HexDigit(b[i] / 16), HexDigit(b[i] % 16)];
      Regroup(o, pair, HexText(b[i + 1..], rest));
      o := o + pair;
    }
  }

  /** Groups of 4, 2, 2, 2 and 6 bytes, separated by dashes. */
  method AppendUuid(b: Uuid, out: string, ghost rest: string) returns (o: string)
    ensures o + rest == out + UuidText(b, rest)
  {
    ghost var r4 := HexText(b[10..], rest);
    ghost var r3 := HexText(b[8..10], "-" + r4);
    ghost var r2 := HexText(b[6..8], "-" + r3);
    ghost var r1 := HexText(b[4..6], "-" + r2);
    o := AppendHex(b[..4], out, "-" + r1);
    Regroup(o, "-", r1);
    o := AppendHex(b[4..6], o + "-", "-" + r2);
    Regroup(o, "-", r2);
    o := AppendHex(b[6..8], o + "-", "-" + r3);
    Regroup(o, "-", r3);
    o := AppendHex(b[8..10], o + "-", "-" + r4);
    Regroup(o, "-", r4);
    o := AppendHex(b[10..], o + "-", rest);
  }

  method AppendOptionalUuid(b: Option<Uuid>, out: string, ghost rest: string) returns (o: string)
    ensures o + rest == out + OptUuidText(b, rest)
  {
    o := out;
    if b.Some? {
      o := AppendUuid(b.value, out, rest);
    }
  }

  lemma {:induction false} DecimalFollowed(n: nat, s: string, rest: string)
    ensures DecimalText(n, s + rest) == DecimalText(n, s) + rest
  {
    var digit := [(n % 10 + 48) as char];
    Regroup(digit, s, rest);
    if n >= 10 { DecimalFollowed(n / 10, digit + s, rest); }
  }

  lemma IntFollowed(n: int, rest: string)
    ensures IntText(n, rest) == IntText(n, "") + rest
  {
    assert "" + rest == rest;
    DecimalFollowed(if n < 0 then -n else n, "", rest);
  }

  method AppendFieldPath(path: FieldPath, out: string, ghost rest: string) returns (o: string)
    ensures o + rest == out + PathText(path, rest)
  {
    o := out;
    for i := 0 to |path|
      invariant o + PathRemaining(path, i, rest) == out + PathText(path, rest)
    {
      PathRemainingStep(path, i, rest);
      if i > 0 {
        Regroup(o, ".", path[i] + PathRemaining(path, i + 1, rest));
        o := o + ".";
      }
      Regroup(o, path[i], PathRemaining(path, i + 1, rest));
      o := o + path[i];
    }
  }

  ghost function PathRemaining(path: FieldPath, i: nat, rest: string): string
    requires i <= |path|
  {
    if i == |path| then rest else if i == 0 then PathText(path, rest) else "." + PathText(path[i..], rest)
  }

  lemma PathRemainingStep(path: FieldPath, i: nat, rest: string)
    requires i < |path|
    ensures PathRemaining(path, i, rest)
         == (if i == 0 then path[i] + PathRemaining(path, i + 1, rest)
             else "." + (path[i] + PathRemaining(path, i + 1, rest)))
  {
    assert path[i..][1..] == path[i + 1..] && path[i..][0] == path[i];
    assert path[0..] == path;
  }

  method AppendFieldValue(v: FieldValue, out: string, ghost rest: string) returns (o: string)
    ensures o + rest == out + ValueText(v, rest)
  {
    match v
    case BytesValue(b) =>
      Regroup(out, "0x", HexText(b, rest));
      o := AppendHex(b, out + "0x", rest);
    case StringValue(t) =>
      o := out + "\"" + t + "\"";
      Regroup(out + "\"" + t, "\"", rest);
      Prefixed(out, "\"", t, "\"" + rest);
    case IntValue(n) =>
      IntFollowed(n, rest);
      Regroup(out, IntText(n, ""), rest);
      o := out + IntText(n, "");
    case UintValue(n) =>
      assert "" + ("u" + rest) == "u" + rest;
      DecimalFollowed(n, "", "u" + rest);
      Prefixed(out, DecimalText(n, ""), "u", rest);
      o := out + DecimalText(n, "") + "u";
    case BoolValue(flag) =>
      Regroup(out, if flag then "true" else "false", rest);
      o := out + (if flag then "true" else "false");
    case EnumValue(n) =>
      IntFollowed(n, ")" + rest);
      Prefixed(out, "enum(", IntText(n, ""), ")" + rest);
      Regroup(out + "enum(" + IntText(n, ""), ")", rest);
      o := out + "enum(" + IntText(n, "") + ")";
    case ValueUnset => o := out;
  }

  method AppendOptionalPath(path: Option<FieldPath>, out: string, ghost rest: string) returns (o: string)
    ensures o + rest == out + OptPathText(path, rest)
  {
    o := out;
    if path.Some? {
      o := AppendFieldPath(path.value, out, rest);
    }
  }

  method AppendOptionalValue(value: Option<FieldValue>, out: string, ghost rest: string) returns (o: string)
    ensures o + rest == out + OptValueText(value, rest)
  {
    o := out;
    if value.Some? {
      o := AppendFieldValue(value.value, out, rest);
    }
  }

  // ---------------------------------------------------------------- endorsement trees

  method AppendEndOptional(t: Option<EndTree>, out: string, ghost rest: string) returns (o: string)
    ensures o + rest == out + OptEndText(t, rest)
    decreases t, 2
  {
    o := out;
    if t.Some? {
      o := AppendEndTree(t.value, out, rest);
    }
  }

  method AppendEndBinary(op: string, lhs: Option<EndTree>, rhs: Option<EndTree>, out: string, ghost rest: string,
                         ghost t: EndTree)
    returns (o: string)
    requires t == EndAnd(lhs, rhs) || t == EndOr(lhs, rhs) || t == EndEquals(lhs, rhs)
    ensures o + rest == out + (op + ("(" + OptEndText(lhs, ", " + OptEndText(rhs, ")" + rest))))
    decreases t, 0
  {
    o := out + op + "(";
    ghost var right := OptEndText(rhs, ")" + rest);
    Prefixed(out, op, "(", OptEndText(lhs, ", " + right));
    o := AppendEndOptional(lhs, o, ", " + right);
    Regroup(o, ", ", right);
    o := o + ", ";
    o := AppendEndOptional(rhs, o, ")" + rest);
    Regroup(o, ")", rest);
    o := o + ")";
  }

  method AppendEndNary(op: string, terms: seq<EndTree>, out: string, ghost rest: string) returns (o: string)
    ensures o + rest == out + (op + ("(" + EndTermsText(terms, ")" + rest)))
    decreases terms, 2
  {
    o := out + op + "(";
    Prefixed(out, op, "(", EndTermsText(terms, ")" + rest));
    ghost var all := o + EndTermsText(terms, ")" + rest);
    for i := 0 to |terms|
      invariant o + EndRemaining(terms, i, ")" + rest) == all
    {
      EndRemainingStep(terms, i, ")" + rest);
      ghost var later := EndRemaining(terms, i + 1, ")" + rest);
      if i != 0 {
        Regroup(o, ", ", EndText(terms[i], later));
        o := o + ", ";
      }
      o := AppendEndTree(terms[i], o, later);
    }
    Regroup(o, ")", rest);
    o := o + ")";
  }

  /** The text still to come when the first i terms have been printed. */
  ghost function EndRemaining(terms: seq<EndTree>, i: nat, rest: string): string
    requires i <= |terms|
  {
    if i == |terms| then rest else if i == 0 then EndTermsText(terms, rest) else ", " + EndTermsText(terms[i..], rest)
  }

  lemma EndRemainingStep(terms: seq<EndTree>, i: nat, rest: string)
    requires i < |terms|
    ensures EndRemaining(terms, i, rest)
         == (if i == 0 then EndText(terms[i], EndRemaining(terms, i + 1, rest))
             else ", " + EndText(terms[i], EndRemaining(terms, i + 1, rest)))
  {
    assert terms[i..][1..] == terms[i + 1..] && terms[i..][0] == terms[i];
    assert terms[0..] == terms;
  }

  method AppendEndTree(t: EndTree, out: string, ghost rest: string) returns (o: string)
    ensures o + rest == out + EndText(t, rest)
    decreases t, 1
  {
    match t
    case EndAnd(l, r) => o := AppendEndBinary("AND", l, r, out, rest, t);
    case EndOr(l, r) => o := AppendEndBinary("OR", l, r, out, rest, t);
    case EndEquals(l, r) => o := AppendEndBinary("EQ", l, r, out, rest, t);
    case EndAllOf(ts) => o := AppendEndNary("ALLOF", ts, out, rest);
    case EndAnyOf(ts) => o := AppendEndNary("ANYOF", ts, out, rest);
    case TypeEquals(x) =>
      Regroup(out, "ENDORSEMENT_TYPE(", OptUuidText(x, ")" + rest));
      o := AppendOptionalUuid(x, out + "ENDORSEMENT_TYPE(", ")" + rest);
      Regroup(o, ")", rest);
      o := o + ")";
    case ValueEquals(x) =>
      Regroup(out, "ENDORSEMENT_VALUE(", HexText(x, ")" + rest));
      o := AppendHex(x, out + "ENDORSEMENT_VALUE(", ")" + rest);
      Regroup(o, ")", rest);
      o := o + ")";
    case SignerEquals(x) =>
      Regroup(out, "ENDORSEMENT_SIGNER(", OptUuidText(x, ")" + rest));
      o := AppendOptionalUuid(x, out + "ENDORSEMENT_SIGNER(", ")" + rest);
      Regroup(o, ")", rest);
      o := o + ")";
    case EndTrue =>
      Regroup(out, "TRUE", rest);
      o := out + "TRUE";
    case EndFalse =>
      Regroup(out, "FALSE", rest);
      o := out + "FALSE";
    case EndUnset => o := out;
  }

  // ---------------------------------------------------------------- message trees

  method AppendMesOptional(t: Option<MesTree>, out: string, ghost rest: string) returns (o: string)
    ensures o + rest == out + OptMesText(t, rest)
    decreases t, 2
  {
    o := out;
    if t.Some? {
      o := AppendMessageTree(t.value, out, rest);
    }
  }

  method AppendMesBinary(op: string, lhs: Option<MesTree>, rhs: Option<MesTree>, out: string, ghost rest: string,
                         ghost t: MesTree)
    returns (o: string)
    requires t == MesAnd(lhs, rhs) || t == MesOr(lhs, rhs) || t == MesEquals(lhs, rhs)
    ensures o + rest == out + (op + ("(" + OptMesText(lhs, ", " + OptMesText(rhs, ")" + rest))))
    decreases t, 0
  {
    o := out + op + "(";
    ghost var right := OptMesText(rhs, ")" + rest);
    Prefixed(out, op, "(", OptMesText(lhs, ", " + right));
    o := AppendMesOptional(lhs, o, ", " + right);
    Regroup(o, ", ", right);
    o := o + ", ";
    o := AppendMesOptional(rhs, o, ")" + rest);
    Regroup(o, ")", rest);
    o := o + ")";
  }

  method AppendMesNary(op: string, terms: seq<MesTree>, out: string, ghost rest: string) returns (o: string)
    ensures o + rest == out + (op + ("(" + MesTermsText(terms, ")" + rest)))
    decreases terms, 2
  {
    o := out + op + "(";
    Prefixed(out, op, "(", MesTermsText(terms, ")" + rest));
    ghost var all := o + MesTermsText(terms, ")" + rest);
    for i := 0 to |terms|
      invariant o + MesRemaining(terms, i, ")" + rest) == all
    {
      MesRemainingStep(terms, i, ")" + rest);
      ghost var later := MesRemaining(terms, i + 1, ")" + rest);
      if i != 0 {
        Regroup(o, ", ", MesText(terms[i], later));
        o := o + ", ";
      }
      o := AppendMessageTree(terms[i], o, later);
    }
    Regroup(o, ")", rest);
    o := o + ")";
  }

  /** The text still to come when the first i terms have been printed. */
  ghost function MesRemaining(terms: seq<MesTree>, i: nat, rest: string): string
    requires i <= |terms|
  {
    if i == |terms| then rest else if i == 0 then MesTermsText(terms, rest) else ", " + MesTermsText(terms[i..], rest)
  }

  lemma MesRemainingStep(terms: seq<MesTree>, i: nat, rest: string)
    requires i < |terms|
    ensures MesRemaining(terms, i, rest)
         == (if i == 0 then MesText(terms[i], MesRemaining(terms, i + 1, rest))
             else ", " + MesText(terms[i], MesRemaining(terms, i + 1, rest)))
  {
    assert terms[i..][1..] == terms[i + 1..] && terms[i..][0] == terms[i];
    assert terms[0..] == terms;
  }

  method AppendMessageTree(t: MesTree, out: string, ghost rest: string) returns (o: string)
    ensures o + rest == out + MesText(t, rest)
    decreases t, 1
  {
    match t
    case MesAnd(l, r) => o := AppendMesBinary("AND", l, r, out, rest, t);
    case MesOr(l, r) => o := AppendMesBinary("OR", l, r, out, rest, t);
    case MesEquals(l, r) => o := AppendMesBinary("EQ", l, r, out, rest, t);
    case MesAllOf(ts) => o := AppendMesNary("ALLOF", ts, out, rest);
    case MesAnyOf(ts) => o := AppendMesNary("ANYOF", ts, out, rest);
    case FieldEquals(path, value) =>
      ghost var tail := OptValueText(value, ")" + rest);
      Regroup(out, "FIELD_EQ(", OptPathText(path, ", " + tail));
      o := AppendOptionalPath(path, out + "FIELD_EQ(", ", " + tail);
      Regroup(o, ", ", tail);
      o := AppendOptionalValue(value, o + ", ", ")" + rest);
      Regroup(o, ")", rest);
      o := o + ")";
    case FieldExists(x) =>
      Regroup(out, "FIELD_EXISTS(", OptPathText(x, ")" + rest));
      o := AppendOptionalPath(x, out + "FIELD_EXISTS(", ")" + rest);
      Regroup(o, ")", rest);
      o := o + ")";
    case FieldContains(path, sub, value) =>
      ghost var tail := OptValueText(value, ")" + rest);
      ghost var tail' := OptPathText(sub, ", " + tail);
      Regroup(out, "FIELD_CONTAINS(", OptPathText(path, ", " + tail'));
      o := AppendOptionalPath(path, out + "FIELD_CONTAINS(", ", " + tail');
      Regroup(o, ", ", tail');
      o := AppendOptionalPath(sub, o + ", ", ", " + tail);
      Regroup(o, ", ", tail);
      o := AppendOptionalValue(value, o + ", ", ")" + rest);
      Regroup(o, ")", rest);
      o := o + ")";
    case MesTrue =>
      Regroup(out, "TRUE", rest);
      o := out + "TRUE";
    case MesFalse =>
      Regroup(out, "FALSE", rest);
      o := out + "FALSE";
    case MesUnset => o := out;
  }

  // ---------------------------------------------------------------- requirement trees

  method AppendOptional(t: Option<Tree>, out: string, ghost rest: string) returns (o: string)
    ensures o + rest == out + OptTreeText(t, rest)
    decreases t, 2
  {
    o := out;
    if t.Some? {
      o := AppendTree(t.value, out, rest);
    }
  }

  method AppendBinary(op: string, lhs: Option<Tree>, rhs: Option<Tree>, out: string, ghost rest: string, ghost t: Tree)
    returns (o: string)
    requires t == And(lhs, rhs) || t == Or(lhs, rhs) || t == Equals(lhs, rhs)
    ensures o + rest == out + (op + ("(" + OptTreeText(lhs, ", " + OptTreeText(rhs, ")" + rest))))
    decreases t, 0
  {
    o := out + op + "(";
    ghost var right := OptTreeText(rhs, ")" + rest);
    Prefixed(out, op, "(", OptTreeText(lhs, ", " + right));
    o := AppendOptional(lhs, o, ", " + right);
    Regroup(o, ", ", right);
    o := o + ", ";
    o := AppendOptional(rhs, o, ")" + rest);
    Regroup(o, ")", rest);
    o := o + ")";
  }

  method AppendNary(op: string, terms: seq<Tree>, out: string, ghost rest: string) returns (o: string)
    ensures o + rest == out + (op + ("(" + TermsText(terms, ")" + rest)))
    decreases terms, 2
  {
    o := out + op + "(";
    Prefixed(out, op, "(", TermsText(terms, ")" + rest));
    ghost var all := o + TermsText(terms, ")" + rest);
    for i := 0 to |terms|
      invariant o + Remaining(terms, i, ")" + rest) == all
    {
      RemainingStep(terms, i, ")" + rest);
      ghost var later := Remaining(terms, i + 1, ")" + rest);
      if i != 0 {
        Regroup(o, ", ", TreeText(terms[i], later));
        o := o + ", ";
      }
      o := AppendTree(terms[i], o, later);
    }
    Regroup(o, ")", rest);
    o := o + ")";
  }

  /** The text still to come when the first i terms have been printed. */
  ghost function Remaining(terms: seq<Tree>, i: nat, rest: string): string
    requires i <= |terms|
  {
    if i == |terms| then rest else if i == 0 then TermsText(terms, rest) else ", " + TermsText(terms[i..], rest)
  }

  lemma RemainingStep(terms: seq<Tree>, i: nat, rest: string)
    requires i < |terms|
    ensures Remaining(terms, i, rest)
         == (if i == 0 then TreeText(terms[i], Remaining(terms, i + 1, rest))
             else ", " + TreeText(terms[i], Remaining(terms, i + 1, rest)))
  {
    assert terms[i..][1..] == terms[i + 1..] && terms[i..][0] == terms[i];
    assert terms[0..] == terms;
  }

  method AppendTree(t: Tree, out: string, ghost rest: string) returns (o: string)
    ensures o + rest == out + TreeText(t, rest)
    decreases t, 1
  {
    match t
    case And(l, r) => o := AppendBinary("AND", l, r, out, rest, t);
    case Or(l, r) => o := AppendBinary("OR", l, r, out, rest, t);
    case Equals(l, r) => o := AppendBinary("EQ", l, r, out, rest, t);
    case AllOf(ts) => o := AppendNary("ALLOF", ts, out, rest);
    case AnyOf(ts) => o := AppendNary("ANYOF", ts, out, rest);
    case EndorsementLeaf(x) =>
      Regroup(out, "ENDORSEMENT(", OptEndText(x, ")" + rest));
      o := AppendEndOptional(x, out + "ENDORSEMENT(", ")" + rest);
      Regroup(o, ")", rest);
      o := o + ")";
    case MessageLeaf(x) =>
      Regroup(out, "MESSAGE(", OptMesText(x, ")" + rest));
      o := AppendMesOptional(x, out + "MESSAGE(", ")" + rest);
      Regroup(o, ")", rest);
      o := o + ")";
    case True =>
      Regroup(out, "TRUE", rest);
      o := out + "TRUE";
    case False =>
      Regroup(out, "FALSE", rest);
      o := out + "FALSE";
    case Unset => o := out;
  }

  method Print(t: Tree) returns (s: string)
    ensures s == ToString(t)
  {
    s := "";
    if t != Unset {
      s := AppendTree(t, "", "");
    }
    assert s + "" == s && "" + TreeText(t, "") == TreeText(t, "");
  }
}
