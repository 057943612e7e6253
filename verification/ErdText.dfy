/** The text form of requirement trees (common/endorsement/endorsement_text.cpp): what is
    printed, and what the recursive-descent parser accepts, as functions of the text that is
    left. Parse errors carry no message here. */
module ErdText {
  import opened Common
  import opened ErdTree

  // ---------------------------------------------------------------- characters

  predicate IsSpace(c: char) {
    c == ' ' || c == '\t' || c == '\n' || c == '\U{0B}' || c == '\U{0C}' || c == '\r'
  }

  predicate IsDigit(c: char) { '0' <= c <= '9' }

  predicate IsHex(c: char) {
    IsDigit(c) || 'a' <= c <= 'f' || 'A' <= c <= 'F'
  }

  predicate IsAlnum(c: char) {
    IsDigit(c) || 'a' <= c <= 'z' || 'A' <= c <= 'Z'
  }

  function Upper(c: char): char {
    if 'a' <= c <= 'z' then (c as int - 32) as char else c
  }

  function HexDigit(n: int): char
    requires 0 <= n < 16
  {
    if n < 10 then (n + 48) as char else (n + 87) as char
  }

  function HexValue(c: char): int
    requires IsHex(c)
  {
    if IsDigit(c) then c as int - 48
    else if 'a' <= c <= 'f' then c as int - 87
    else c as int - 55
  }

  function DigitValue(c: char): int
    requires IsDigit(c)
  {
    c as int - 48
  }

  // ---------------------------------------------------------------- printing
  // Every function gives the text of its first argument followed by the text in rest.

  function HexText(b: Bytes, rest: string): string {
    if b == [] then rest
    else [HexDigit(b[0] / 16), HexDigit(b[0] % 16)] + HexText(b[1..], rest)
  }

  function UuidText(b: Uuid, rest: string): string {
    HexText(b[..4], "-" + HexText(b[4..6], "-" + HexText(b[6..8], "-" + HexText(b[8..10],
                          "-" + HexText(b[10..], rest)))))
  }

  function OptUuidText(b: Option<Uuid>, rest: string): string {
    if b.Some? then UuidText(b.value, rest) else rest
  }

  function DecimalText(n: nat, rest: string): string {
    var last := [(n % 10 + 48) as char] + rest;
    if n < 10 then last else DecimalText(n / 10, last)
  }

  function IntText(n: int, rest: string): string {
    if n < 0 then "-" + DecimalText(-n, rest) else DecimalText(n, rest)
  }

  function PathText(path: FieldPath, rest: string): string {
    if path == [] then rest
    else if |path| == 1 then path[0] + rest
    else path[0] + ("." + PathText(path[1..], rest))
  }

  function ValueText(v: FieldValue, rest: string): string {
    match v
    case BytesValue(b) => "0x" + HexText(b, rest)
    case StringValue(t) => "\"" + (t + ("\"" + rest))
    case IntValue(n) => IntText(n, rest)
    case UintValue(n) => DecimalText(n, "u" + rest)
    case BoolValue(b) => (if b then "true" else "false") + rest
    case EnumValue(n) => "enum(" + IntText(n, ")" + rest)
    case ValueUnset => rest
  }

  function EndText(t: EndTree, rest: string): string
    decreases t
  {
    match t
    case EndAnd(l, r) => "AND" + ("(" + OptEndText(l, ", " + OptEndText(r, ")" + rest)))
    case EndOr(l, r) => "OR" + ("(" + OptEndText(l, ", " + OptEndText(r, ")" + rest)))
    case EndEquals(l, r) => "EQ" + ("(" + OptEndText(l, ", " + OptEndText(r, ")" + rest)))
    case EndAllOf(ts) => "ALLOF" + ("(" + EndTermsText(ts, ")" + rest))
    case EndAnyOf(ts) => "ANYOF" + ("(" + EndTermsText(ts, ")" + rest))
    case TypeEquals(kind) => "ENDORSEMENT_TYPE(" + OptUuidText(kind, ")" + rest)
    case ValueEquals(value) => "ENDORSEMENT_VALUE(" + HexText(value, ")" + rest)
    case SignerEquals(signer) => "ENDORSEMENT_SIGNER(" + OptUuidText(signer, ")" + rest)
    case EndTrue => "TRUE" + rest
    case EndFalse => "FALSE" + rest
    case EndUnset => rest
  }

  function OptEndText(t: Option<EndTree>, rest: string): string
    decreases t
  {
    if t.Some? then EndText(t.value, rest) else rest
  }

  function EndTermsText(ts: seq<EndTree>, rest: string): string
    decreases ts
  {
    if ts == [] then rest
    else if |ts| == 1 then EndText(ts[0], rest)
    else EndText(ts[0], ", " + EndTermsText(ts[1..], rest))
  }

  function MesText(t: MesTree, rest: string): string
    decreases t
  {
    match t
    case MesAnd(l, r) => "AND" + ("(" + OptMesText(l, ", " + OptMesText(r, ")" + rest)))
    case MesOr(l, r) => "OR" + ("(" + OptMesText(l, ", " + OptMesText(r, ")" + rest)))
    case MesEquals(l, r) => "EQ" + ("(" + OptMesText(l, ", " + OptMesText(r, ")" + rest)))
    case MesAllOf(ts) => "ALLOF" + ("(" + MesTermsText(ts, ")" + rest))
    case MesAnyOf(ts) => "ANYOF" + ("(" + MesTermsText(ts, ")" + rest))
    case FieldEquals(path, value) =>
      "FIELD_EQ(" + OptPathText(path, ", " + OptValueText(value, ")" + rest))
    case FieldExists(path) => "FIELD_EXISTS(" + OptPathText(path, ")" + rest)
    case FieldContains(path, sub, value) =>
      "FIELD_CONTAINS(" + OptPathText(path, ", " + OptPathText(sub, ", " + OptValueText(value, ")" + rest)))
    case MesTrue => "TRUE" + rest
    case MesFalse => "FALSE" + rest
    case MesUnset => rest
  }

  function OptPathText(path: Option<FieldPath>, rest: string): string {
    if path.Some? then PathText(path.value, rest) else rest
  }

  function OptValueText(value: Option<FieldValue>, rest: string): string {
    if value.Some? then ValueText(value.value, rest) else rest
  }

  function OptMesText(t: Option<MesTree>, rest: string): string
    decreases t
  {
    if t.Some? then MesText(t.value, rest) else rest
  }

  function MesTermsText(ts: seq<MesTree>, rest: string): string
    decreases ts
  {
    if ts == [] then rest
    else if |ts| == 1 then MesText(ts[0], rest)
    else MesText(ts[0], ", " + MesTermsText(ts[1..], rest))
  }

  function TreeText(t: Tree, rest: string): string
    decreases t
  {
    match t
    case And(l, r) => "AND" + ("(" + OptTreeText(l, ", " + OptTreeText(r, ")" + rest)))
    case Or(l, r) => "OR" + ("(" + OptTreeText(l, ", " + OptTreeText(r, ")" + rest)))
    case Equals(l, r) => "EQ" + ("(" + OptTreeText(l, ", " + OptTreeText(r, ")" + rest)))
    case AllOf(ts) => "ALLOF" + ("(" + TermsText(ts, ")" + rest))
    case AnyOf(ts) => "ANYOF" + ("(" + TermsText(ts, ")" + rest))
    case EndorsementLeaf(p) => "ENDORSEMENT(" + OptEndText(p, ")" + rest)
    case MessageLeaf(c) => "MESSAGE(" + OptMesText(c, ")" + rest)
    case True => "TRUE" + rest
    case False => "FALSE" + rest
    case Unset => rest
  }

  function OptTreeText(t: Option<Tree>, rest: string): string
    decreases t
  {
    if t.Some? then TreeText(t.value, rest) else rest
  }

  function TermsText(ts: seq<Tree>, rest: string): string
    decreases ts
  {
    if ts == [] then rest
    else if |ts| == 1 then TreeText(ts[0], rest)
    else TreeText(ts[0], ", " + TermsText(ts[1..], rest))
  }

  function ToString(t: Tree): string { TreeText(t, "") }

  // ---------------------------------------------------------------- parsing: lexical level

  /** A parse either fails or yields a value and the text that is left. */
  datatype Parsed<+T> = Ok(value: T, rest: string) | Err {
    predicate IsFailure() { Err? }
    function PropagateFailure<U>(): Parsed<U> requires Err? { Err }
    function Extract(): (T, string) requires Ok? { (value, rest) }
  }

  /** A parse of a sequence that has read terms so far agrees with the whole parse. */
  ghost predicate Continues<T(!new)>(whole: Parsed<seq<T>>, terms: seq<T>, more: Parsed<seq<T>>) {
    match more
    case Ok(value, rest) => whole == Ok(terms + value, rest)
    case Err => whole == Err
  }

  lemma ContinuesFirst<T(!new)>(whole: Parsed<seq<T>>)
    ensures Continues(whole, [], whole)
  {
    if whole.Ok? { assert [] + whole.value == whole.value; }
  }

  lemma ContinuesMore<T(!new)>(whole: Parsed<seq<T>>, terms: seq<T>, t: T, more: Parsed<seq<T>>)
    requires Continues(whole, terms, if more.Ok? then Ok([t] + more.value, more.rest) else Err)
    ensures Continues(whole, terms + [t], more)
  {
    if more.Ok? { assert terms + ([t] + more.value) == terms + [t] + more.value; }
  }

  function SkipWs(s: string): (r: string)
    ensures |r| <= |s|
    ensures r != "" ==> !IsSpace(r[0])
  {
    if s != "" && IsSpace(s[0]) then SkipWs(s[1..]) else s
  }

  /** Skips white space and requires the character c. */
  function Expect(s: string, c: char): (r: Parsed<char>)
    ensures r.Ok? ==> |r.rest| < |s|
  {
    var u := SkipWs(s);
    if u != "" && u[0] == c then Ok(c, u[1..]) else Err
  }

  predicate StartsWith(s: string, word: string)
    ensures StartsWith(s, word) ==> |word| <= |s|
  {
    word == "" || (s != "" && s[0] == word[0] && StartsWith(s[1..], word[1..]))
  }

  predicate StartsWithIgnoringCase(s: string, word: string)
    ensures StartsWithIgnoringCase(s, word) ==> |word| <= |s|
  {
    word == "" || (s != "" && Upper(s[0]) == Upper(word[0]) && StartsWithIgnoringCase(s[1..], word[1..]))
  }

  lemma {:induction false} StartsWithNot(s: string, word: string, k: nat)
    requires k < |word| && (k >= |s| || s[k] != word[k])
    ensures !StartsWith(s, word)
  {
    if k > 0 && s != "" { StartsWithNot(s[1..], word[1..], k - 1); }
  }

  predicate IsUuid(s: string) {
    |s| >= 36 && forall i | 0 <= i < 36 ::
      if i == 8 || i == 13 || i == 18 || i == 23 then s[i] == '-' else IsHex(s[i])
  }

  function StripDashes(s: string): (r: string)
    ensures forall c | c in r :: c in s && c != '-'
  {
    if s == "" then "" else if s[0] == '-' then StripDashes(s[1..]) else [s[0]] + StripDashes(s[1..])
  }

  function HexPairs(s: string): (b: Bytes)
    requires |s| % 2 == 0 && forall c | c in s :: IsHex(c)
    ensures |b| == |s| / 2
  {
    if s == "" then [] else [HexValue(s[0]) * 16 + HexValue(s[1])] + HexPairs(s[2..])
  }

  /** The 16 bytes of the UUID at the start of the text. */
  function ParseUuid(s: string): (r: Parsed<Uuid>)
    ensures r.Ok? ==> |r.rest| < |s|
  {
    if !IsUuid(s) then Err
    else
      var digits := StripDashes(s[..36]);
      assert |digits| == 32 && forall c | c in digits :: IsHex(c) by { UuidDigits(s[..36]); }
      Ok(HexPairs(digits), s[36..])
  }

  lemma {:induction false} StripDashesAppend(a: string, b: string)
    ensures StripDashes(a + b) == StripDashes(a) + StripDashes(b)
  {
    if a == "" {
      assert a + b == b;
    } else {
      StripDashesAppend(a[1..], b);
      assert (a + b)[1..] == a[1..] + b;
    }
  }

  lemma {:induction false} StripDashesHex(s: string)
    requires forall c | c in s :: IsHex(c)
    ensures StripDashes(s) == s
  {
    if s != "" {
      assert s[0] in s;
      StripDashesHex(s[1..]);
    }
  }

  lemma StripGroup(group: string, rest: string)
    requires forall c | c in group :: IsHex(c)
    ensures StripDashes(group + ("-" + rest)) == group + StripDashes(rest)
  {
    StripDashesAppend(group, "-" + rest);
    StripDashesHex(group);
  }

  lemma UuidDigits(u: string)
    requires |u| == 36 && IsUuid(u)
    ensures StripDashes(u) == u[..8] + (u[9..13] + (u[14..18] + (u[19..23] + u[24..])))
    ensures |StripDashes(u)| == 32 && forall c | c in StripDashes(u) :: IsHex(c)
  {
    assert u[19..] == u[19..23] + ("-" + u[24..]);
    assert u[14..] == u[14..18] + ("-" + u[19..]);
    assert u[9..] == u[9..13] + ("-" + u[14..]);
    assert u == u[..8] + ("-" + u[9..]);
    StripDashesHex(u[24..]);
    StripGroup(u[19..23], u[24..]);
    StripGroup(u[14..18], u[19..]);
    StripGroup(u[9..13], u[14..]);
    StripGroup(u[..8], u[9..]);
  }

  /** Pairs of hex digits up to the first character that is not one; an odd count fails. */
  function ParseHexBytes(s: string): (r: Parsed<Bytes>)
    ensures r.Ok? ==> |r.rest| <= |s|
  {
    if s == "" || !IsHex(s[0]) then Ok([], s)
    else if |s| < 2 || !IsHex(s[1]) then Err
    else
      var (b, rest) :- ParseHexBytes(s[2..]);
      Ok([HexValue(s[0]) * 16 + HexValue(s[1])] + b, rest)
  }

  /** Reads decimal digits into a 64-bit accumulator that wraps around. */
  function ReadDigits(s: string, acc: nat): (r: (nat, string))
    ensures |r.1| <= |s|
    ensures acc < TWO_64 ==> r.0 < TWO_64
  {
    if s == "" || !IsDigit(s[0]) then (acc, s)
    else ReadDigits(s[1..], (acc * 10 + DigitValue(s[0])) % TWO_64)
  }

  function ToInt64(n: nat): int
    requires n < TWO_64
  {
    if n >= TWO_64 / 2 then n - TWO_64 else n
  }

  function Negate64(n: int): int {
    if n == -(TWO_64 / 2) then n else -n
  }

  function ToInt32(n: int): int {
    var low := n % TWO_32;
    if low >= TWO_32 / 2 then low - TWO_32 else low
  }

  predicate EndsPath(c: char) {
    c == ',' || c == ')' || c == ' ' || c == '\t' || c == '\n' || c == '\r'
  }

  function ReadPath(s: string, done: FieldPath, segment: string): (r: Parsed<FieldPath>)
    ensures r.Ok? ==> |r.rest| <= |s|
    ensures r.Ok? && done == [] && segment == "" ==> |r.rest| < |s|
    decreases |s|
  {
    if s == "" || EndsPath(s[0]) then
      var path := if segment == "" then done else done + [segment];
      if path == [] then Err else Ok(path, s)
    else if s[0] == '.' then
      if segment == "" then Err else ReadPath(s[1..], done + [segment], "")
    else ReadPath(s[1..], done, segment + [s[0]])
  }

  function ParsePath(s: string): (r: Parsed<FieldPath>)
    ensures r.Ok? ==> |r.rest| < |s|
  {
    ReadPath(SkipWs(s), [], "")
  }

  function ReadQuoted(s: string): (r: Parsed<string>)
    ensures r.Ok? ==> |r.rest| < |s|
  {
    if s == "" then Err
    else if s[0] == '"' then Ok("", s[1..])
    else
      var (t, rest) :- ReadQuoted(s[1..]);
      Ok([s[0]] + t, rest)
  }

  /** An unsigned literal with a trailing u, or a signed one. */
  function ParseNumber(s: string): (r: Parsed<FieldValue>)
    ensures r.Ok? ==> |r.rest| < |s|
  {
    var negative := s != "" && s[0] == '-';
    var digits := if negative then s[1..] else s;
    if digits == "" || !IsDigit(digits[0]) then Err
    else
      var (n, rest) := ReadDigits(digits[1..], DigitValue(digits[0]) % TWO_64);
      if !negative && rest != "" && (rest[0] == 'u' || rest[0] == 'U') then Ok(UintValue(n), rest[1..])
      else Ok(IntValue(if negative then Negate64(ToInt64(n)) else ToInt64(n)), rest)
  }

  function ParseEnum(s: string): (r: Parsed<FieldValue>)
    ensures r.Ok? ==> |r.rest| <= |s|
  {
    var u := SkipWs(s);
    var negative := u != "" && u[0] == '-';
    var (n, rest) := ReadDigits(if negative then u[1..] else u, 0);
    var (_, rest') :- Expect(rest, ')');
    var value: int := n;
    Ok(EnumValue(ToInt32(if negative then -value else value)), rest')
  }

  predicate BoolWord(s: string, word: string) {
    StartsWithIgnoringCase(s, word) && (|s| <= |word| || !IsAlnum(s[|word|]))
  }

  function ParseValue(s: string): (r: Parsed<FieldValue>)
    ensures r.Ok? ==> |r.rest| < |s|
  {
    var u := SkipWs(s);
    if u == "" then Err
    else if u[0] == '"' then
      var (t, rest) :- ReadQuoted(u[1..]);
      Ok(StringValue(t), rest)
    else if |u| > 1 && u[0] == '0' && (u[1] == 'x' || u[1] == 'X') then
      var (b, rest) :- ParseHexBytes(u[2..]);
      Ok(BytesValue(b), rest)
    else if BoolWord(u, "true") then Ok(BoolValue(true), u[4..])
    else if BoolWord(u, "false") then Ok(BoolValue(false), u[5..])
    else if StartsWith(u, "enum(") then ParseEnum(u[5..])
    else ParseNumber(u)
  }

  // ---------------------------------------------------------------- parsing: heads

  /** What a (sub)tree begins with; the alternatives are tried in the order of the source. */
  datatype Head =
    | HRef | HAnd | HOr | HEq | HAllOf | HAnyOf
    | HEndorsement | HType | HValue | HSigner
    | HMessage | HDestination | HSource | HFieldEq | HFieldExists | HFieldContains
    | HTrue | HFalse | HNone

  function OperatorHead(s: string): (h: Head)
    ensures Skip(h) <= |s| && (h != HNone ==> Skip(h) > 0)
  {
    if StartsWith(s, "AND(") then HAnd
    else if StartsWith(s, "OR(") then HOr
    else if StartsWith(s, "EQ(") then HEq
    else if StartsWith(s, "ALLOF(") then HAllOf
    else if StartsWith(s, "ANYOF(") then HAnyOf
    else HNone
  }

  function ConstantHead(s: string): (h: Head)
    ensures Skip(h) <= |s| && (h != HNone ==> Skip(h) > 0)
  {
    if StartsWithIgnoringCase(s, "TRUE") then HTrue
    else if StartsWithIgnoringCase(s, "FALSE") then HFalse
    else HNone
  }

  function EndHead(s: string): (h: Head)
    ensures Skip(h) <= |s| && (h != HNone ==> Skip(h) > 0)
  {
    if OperatorHead(s) != HNone then OperatorHead(s)
    else if StartsWith(s, "ENDORSEMENT_TYPE(") then HType
    else if StartsWith(s, "ENDORSEMENT_VALUE(") then HValue
    else if StartsWith(s, "ENDORSEMENT_SIGNER(") then HSigner
    else ConstantHead(s)
  }

  function MesHead(s: string): (h: Head)
    ensures Skip(h) <= |s| && (h != HNone ==> Skip(h) > 0)
  {
    if OperatorHead(s) != HNone then OperatorHead(s)
    else if StartsWith(s, "DESTINATION(") then HDestination
    else if StartsWith(s, "SOURCE(") then HSource
    else if StartsWith(s, "FIELD_EQ(") then HFieldEq
    else if StartsWith(s, "FIELD_EXISTS(") then HFieldExists
    else if StartsWith(s, "FIELD_CONTAINS(") then HFieldContains
    else ConstantHead(s)
  }

  function TreeHead(s: string): (h: Head)
    ensures Skip(h) <= |s| && (h != HNone ==> Skip(h) > 0)
  {
    if StartsWith(s, "${") then HRef
    else if OperatorHead(s) != HNone then OperatorHead(s)
    else if StartsWith(s, "ENDORSEMENT(") then HEndorsement
    else if StartsWith(s, "ENDORSEMENT_TYPE(") then HType
    else if StartsWith(s, "ENDORSEMENT_VALUE(") then HValue
    else if StartsWith(s, "ENDORSEMENT_SIGNER(") then HSigner
    else if StartsWith(s, "MESSAGE(") then HMessage
    else if StartsWith(s, "DESTINATION(") then HDestination
    else if StartsWith(s, "SOURCE(") then HSource
    else ConstantHead(s)
  }

  /** Length of the word before the opening parenthesis, or with it, as the parser skips it. */
  function Skip(h: Head): nat {
    match h
    case HRef => 2 case HAnd => 3 case HOr => 2 case HEq => 2 case HAllOf => 5 case HAnyOf => 5
    case HEndorsement => 12 case HType => 17 case HValue => 18 case HSigner => 19
    case HMessage => 8 case HDestination => 12 case HSource => 7
    case HFieldEq => 9 case HFieldExists => 13 case HFieldContains => 15
    case HTrue => 4 case HFalse => 5 case HNone => 0
  }

  // ---------------------------------------------------------------- parsing: leaves

  function ParseUuidArg(s: string): (r: Parsed<Uuid>)
    ensures r.Ok? ==> |r.rest| < |s|
  {
    var (b, rest) :- ParseUuid(SkipWs(s));
    var (_, rest') :- Expect(SkipWs(rest), ')');
    Ok(b, rest')
  }

  function ParseHexArg(s: string): (r: Parsed<Bytes>)
    ensures r.Ok? ==> |r.rest| < |s|
  {
    var (b, rest) :- ParseHexBytes(SkipWs(s));
    var (_, rest') :- Expect(SkipWs(rest), ')');
    Ok(b, rest')
  }

  const DESTINATION_PATH: FieldPath := ["destination", "value"]
  const SOURCE_PATH: FieldPath := ["signature", "signer", "value"]

  function ParseIdLeaf(s: string, path: FieldPath): (r: Parsed<MesTree>)
    ensures r.Ok? ==> |r.rest| < |s|
  {
    var (b, rest) :- ParseUuidArg(s);
    Ok(FieldEquals(Some(path), Some(BytesValue(b))), rest)
  }

  function ParseFieldEq(s: string): (r: Parsed<MesTree>)
    ensures r.Ok? ==> |r.rest| < |s|
  {
    var (path, s1) :- ParsePath(s);
    var (_, s2) :- Expect(SkipWs(s1), ',');
    var (value, s3) :- ParseValue(s2);
    var (_, s4) :- Expect(SkipWs(s3), ')');
    Ok(FieldEquals(Some(path), Some(value)), s4)
  }

  function ParseFieldExists(s: string): (r: Parsed<MesTree>)
    ensures r.Ok? ==> |r.rest| < |s|
  {
    var (path, s1) :- ParsePath(s);
    var (_, s2) :- Expect(SkipWs(s1), ')');
    Ok(FieldExists(Some(path)), s2)
  }

  function ParseFieldContains(s: string): (r: Parsed<MesTree>)
    ensures r.Ok? ==> |r.rest| < |s|
  {
    var (path, s1) :- ParsePath(s);
    var (_, s2) :- Expect(SkipWs(s1), ',');
    var (sub, s3) :- ParsePath(s2);
    var (_, s4) :- Expect(SkipWs(s3), ',');
    var (value, s5) :- ParseValue(s4);
    var (_, s6) :- Expect(SkipWs(s5), ')');
    Ok(FieldContains(Some(path), Some(sub), Some(value)), s6)
  }

  // ---------------------------------------------------------------- parsing: endorsement trees

  function ParseEnd(s: string): (r: Parsed<EndTree>)
    ensures r.Ok? ==> |r.rest| < |s|
    decreases |s|, 0
  {
    var u := SkipWs(s);
    var h := EndHead(u);
    if h == HNone then Err else ParseEndBody(h, u[Skip(h)..])
  }

  function ParseEndBody(h: Head, body: string): (r: Parsed<EndTree>)
    ensures r.Ok? ==> |r.rest| <= |body|
    decreases |body|, 3
  {
    match h
    case HAnd => var (p, rest) :- ParseEndPair(body); Ok(EndAnd(Some(p.0), Some(p.1)), rest)
    case HOr => var (p, rest) :- ParseEndPair(body); Ok(EndOr(Some(p.0), Some(p.1)), rest)
    case HEq => var (p, rest) :- ParseEndPair(body); Ok(EndEquals(Some(p.0), Some(p.1)), rest)
    case HAllOf => var (ts, rest) :- ParseEndArgs(body); Ok(EndAllOf(ts), rest)
    case HAnyOf => var (ts, rest) :- ParseEndArgs(body); Ok(EndAnyOf(ts), rest)
    case HType => var (b, rest) :- ParseUuidArg(body); Ok(TypeEquals(Some(b)), rest)
    case HValue => var (b, rest) :- ParseHexArg(body); Ok(ValueEquals(b), rest)
    case HSigner => var (b, rest) :- ParseUuidArg(body); Ok(SignerEquals(Some(b)), rest)
    case HTrue => Ok(EndTrue, body)
    case _ => Ok(EndFalse, body)
  }

  function ParseEndPair(s: string): (r: Parsed<(EndTree, EndTree)>)
    ensures r.Ok? ==> |r.rest| < |s|
    decreases |s|, 1
  {
    var (_, s1) :- Expect(s, '(');
    var (l, s2) :- ParseEnd(s1);
    var (_, s3) :- Expect(SkipWs(s2), ',');
    var (r, s4) :- ParseEnd(s3);
    var (_, s5) :- Expect(SkipWs(s4), ')');
    Ok((l, r), s5)
  }

  function ParseEndArgs(s: string): (r: Parsed<seq<EndTree>>)
    ensures r.Ok? ==> |r.rest| < |s|
    decreases |s|, 2
  {
    var (_, s1) :- Expect(s, '(');
    var u := SkipWs(s1);
    if u != "" && u[0] == ')' then Ok([], u[1..]) else ParseEndTerms(u)
  }

  function ParseEndTerms(s: string): (r: Parsed<seq<EndTree>>)
    ensures r.Ok? ==> |r.rest| < |s|
    decreases |s|, 1
  {
    var (t, s1) :- ParseEnd(s);
    var u := SkipWs(s1);
    if u != "" && u[0] == ',' then
      var (ts, rest) :- ParseEndTerms(u[1..]);
      Ok([t] + ts, rest)
    else
      var (_, rest) :- Expect(u, ')');
      Ok([t], rest)
  }

  // ---------------------------------------------------------------- parsing: message trees

  function ParseMes(s: string): (r: Parsed<MesTree>)
    ensures r.Ok? ==> |r.rest| < |s|
    decreases |s|, 0
  {
    var u := SkipWs(s);
    var h := MesHead(u);
    if h == HNone then Err else ParseMesBody(h, u[Skip(h)..])
  }

  function ParseMesBody(h: Head, body: string): (r: Parsed<MesTree>)
    ensures r.Ok? ==> |r.rest| <= |body|
    decreases |body|, 3
  {
    match h
    case HAnd => var (p, rest) :- ParseMesPair(body); Ok(MesAnd(Some(p.0), Some(p.1)), rest)
    case HOr => var (p, rest) :- ParseMesPair(body); Ok(MesOr(Some(p.0), Some(p.1)), rest)
    case HEq => var (p, rest) :- ParseMesPair(body); Ok(MesEquals(Some(p.0), Some(p.1)), rest)
    case HAllOf => var (ts, rest) :- ParseMesArgs(body); Ok(MesAllOf(ts), rest)
    case HAnyOf => var (ts, rest) :- ParseMesArgs(body); Ok(MesAnyOf(ts), rest)
    case HTrue => Ok(MesTrue, body)
    case HFalse => Ok(MesFalse, body)
    case _ => ParseMesLeaf(h, body)
  }

  function ParseMesLeaf(h: Head, body: string): (r: Parsed<MesTree>)
    ensures r.Ok? ==> |r.rest| < |body|
  {
    match h
    case HDestination => ParseIdLeaf(body, DESTINATION_PATH)
    case HSource => ParseIdLeaf(body, SOURCE_PATH)
    case HFieldEq => ParseFieldEq(body)
    case HFieldExists => ParseFieldExists(body)
    case HFieldContains => ParseFieldContains(body)
    case _ => Err
  }

  function ParseMesPair(s: string): (r: Parsed<(MesTree, MesTree)>)
    ensures r.Ok? ==> |r.rest| < |s|
    decreases |s|, 1
  {
    var (_, s1) :- Expect(s, '(');
    var (l, s2) :- ParseMes(s1);
    var (_, s3) :- Expect(SkipWs(s2), ',');
    var (r, s4) :- ParseMes(s3);
    var (_, s5) :- Expect(SkipWs(s4), ')');
    Ok((l, r), s5)
  }

  function ParseMesArgs(s: string): (r: Parsed<seq<MesTree>>)
    ensures r.Ok? ==> |r.rest| < |s|
    decreases |s|, 2
  {
    var (_, s1) :- Expect(s, '(');
    var u := SkipWs(s1);
    if u != "" && u[0] == ')' then Ok([], u[1..]) else ParseMesTerms(u)
  }

  function ParseMesTerms(s: string): (r: Parsed<seq<MesTree>>)
    ensures r.Ok? ==> |r.rest| < |s|
    decreases |s|, 1
  {
    var (t, s1) :- ParseMes(s);
    var u := SkipWs(s1);
    if u != "" && u[0] == ',' then
      var (ts, rest) :- ParseMesTerms(u[1..]);
      Ok([t] + ts, rest)
    else
      var (_, rest) :- Expect(u, ')');
      Ok([t], rest)
  }

  // ---------------------------------------------------------------- parsing: requirement trees

  /** The variables in scope; None where references are not allowed at all. */
  type Variables = Option<map<string, Tree>>

  predicate IsIdChar(c: char, first: bool) {
    c == '_' || 'A' <= c <= 'Z' || 'a' <= c <= 'z' || (!first && IsDigit(c))
  }

  predicate IsIdentifier(name: string) {
    name != "" && IsIdChar(name[0], true) && forall i | 1 <= i < |name| :: IsIdChar(name[i], false)
  }

  function ReadName(s: string): (r: Parsed<string>)
    ensures r.Ok? ==> |r.rest| < |s|
  {
    if s == "" then Err
    else if s[0] == '}' then Ok("", s[1..])
    else
      var (name, rest) :- ReadName(s[1..]);
      Ok([s[0]] + name, rest)
  }

  function ParseReference(s: string, vars: Variables): (r: Parsed<Tree>)
    ensures r.Ok? ==> |r.rest| < |s|
  {
    var (name, rest) :- ReadName(s);
    if IsIdentifier(name) && vars.Some? && name in vars.value then Ok(vars.value[name], rest) else Err
  }

  function ParseEndorsementLeaf(s: string): (r: Parsed<Tree>)
    ensures r.Ok? ==> |r.rest| < |s|
  {
    var (t, s1) :- ParseEnd(SkipWs(s));
    var (_, s2) :- Expect(SkipWs(s1), ')');
    Ok(EndorsementLeaf(Some(t)), s2)
  }

  function ParseMessageLeaf(s: string): (r: Parsed<Tree>)
    ensures r.Ok? ==> |r.rest| < |s|
  {
    var (t, s1) :- ParseMes(SkipWs(s));
    var (_, s2) :- Expect(SkipWs(s1), ')');
    Ok(MessageLeaf(Some(t)), s2)
  }

  function ParseTree(s: string, vars: Variables): (r: Parsed<Tree>)
    ensures r.Ok? ==> |r.rest| < |s|
    decreases |s|, 0
  {
    var u := SkipWs(s);
    var h := TreeHead(u);
    if h == HNone then Err else ParseTreeBody(h, u[Skip(h)..], vars)
  }

  function ParseTreeBody(h: Head, body: string, vars: Variables): (r: Parsed<Tree>)
    ensures r.Ok? ==> |r.rest| <= |body|
    decreases |body|, 3
  {
    match h
    case HRef => ParseReference(body, vars)
    case HAnd => var (p, rest) :- ParsePair(body, vars); Ok(And(Some(p.0), Some(p.1)), rest)
    case HOr => var (p, rest) :- ParsePair(body, vars); Ok(Or(Some(p.0), Some(p.1)), rest)
    case HEq => var (p, rest) :- ParsePair(body, vars); Ok(Equals(Some(p.0), Some(p.1)), rest)
    case HAllOf => var (ts, rest) :- ParseArgs(body, vars); Ok(AllOf(ts), rest)
    case HAnyOf => var (ts, rest) :- ParseArgs(body, vars); Ok(AnyOf(ts), rest)
    case HTrue => Ok(True, body)
    case HFalse => Ok(False, body)
    case _ => ParseLeaf(h, body)
  }

  function ParseLeaf(h: Head, body: string): (r: Parsed<Tree>)
    ensures r.Ok? ==> |r.rest| < |body|
  {
    match h
    case HEndorsement => ParseEndorsementLeaf(body)
    case HType => var (b, rest) :- ParseUuidArg(body); Ok(EndorsementLeaf(Some(TypeEquals(Some(b)))), rest)
    case HValue => var (b, rest) :- ParseHexArg(body); Ok(EndorsementLeaf(Some(ValueEquals(b))), rest)
    case HSigner => var (b, rest) :- ParseUuidArg(body); Ok(EndorsementLeaf(Some(SignerEquals(Some(b)))), rest)
    case HMessage => ParseMessageLeaf(body)
    case HDestination => var (t, rest) :- ParseIdLeaf(body, DESTINATION_PATH); Ok(MessageLeaf(Some(t)), rest)
    case HSource => var (t, rest) :- ParseIdLeaf(body, SOURCE_PATH); Ok(MessageLeaf(Some(t)), rest)
    case _ => Err
  }

  function ParsePair(s: string, vars: Variables): (r: Parsed<(Tree, Tree)>)
    ensures r.Ok? ==> |r.rest| < |s|
    decreases |s|, 1
  {
    var (_, s1) :- Expect(s, '(');
    var (l, s2) :- ParseTree(s1, vars);
    var (_, s3) :- Expect(SkipWs(s2), ',');
    var (r, s4) :- ParseTree(s3, vars);
    var (_, s5) :- Expect(SkipWs(s4), ')');
    Ok((l, r), s5)
  }

  function ParseArgs(s: string, vars: Variables): (r: Parsed<seq<Tree>>)
    ensures r.Ok? ==> |r.rest| < |s|
    decreases |s|, 2
  {
    var (_, s1) :- Expect(s, '(');
    var u := SkipWs(s1);
    if u != "" && u[0] == ')' then Ok([], u[1..]) else ParseTerms(u, vars)
  }

  function ParseTerms(s: string, vars: Variables): (r: Parsed<seq<Tree>>)
    ensures r.Ok? ==> |r.rest| < |s|
    decreases |s|, 1
  {
    var (t, s1) :- ParseTree(s, vars);
    var u := SkipWs(s1);
    if u != "" && u[0] == ',' then
      var (ts, rest) :- ParseTerms(u[1..], vars);
      Ok([t] + ts, rest)
    else
      var (_, rest) :- Expect(u, ')');
      Ok([t], rest)
  }

  /** fromString: blank text is the unset tree; nothing may follow the expression. */
  function FromString(text: string, vars: Variables): Option<Tree> {
    if SkipWs(text) == "" then Some(Unset)
    else
      match ParseTree(text, vars)
      case Ok(t, rest) => if SkipWs(rest) == "" then Some(t) else None
      case Err => None
  }
}
