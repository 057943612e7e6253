/** The requirement-tree parser as an object with a cursor (common/endorsement/endorsement_text.cpp),
    proved against the functions of ErdText. Where the source throws, a method returns None. */
module ErdParser {
  import opened Common
  import opened ErdTree
  import opened ErdText

  /** The character at i of a UUID text. */
  predicate UuidChar(s: string, i: nat) {
    i < |s| && if i == 8 || i == 13 || i == 18 || i == 23 then s[i] == '-' else IsHex(s[i])
  }

  lemma UuidChars(s: string)
    ensures IsUuid(s) <==> forall i | 0 <= i < 36 :: UuidChar(s, i)
  {
    if forall i | 0 <= i < 36 :: UuidChar(s, i) {
      assert UuidChar(s, 35);
      forall i | 0 <= i < 36 ensures if i == 8 || i == 13 || i == 18 || i == 23 then s[i] == '-' else IsHex(s[i]) {
        assert UuidChar(s, i);
      }
    }
  }

  class Parser {
    const text: string
    const vars: Variables
    var pos: nat

    predicate Valid()
      reads this
    {
      pos <= |text|
    }

    function Rest(): string
      requires Valid()
      reads this
    {
      text[pos..]
    }

    /** The method's result and the cursor are what the parse function says. */
    ghost predicate Gives<T(!new)>(r: Option<T>, spec: Parsed<T>)
      requires Valid()
      reads this
    {
      match spec
      case Ok(value, rest) => r == Some(value) && Rest() == rest
      case Err => r == None
    }

    constructor (text: string, vars: Variables)
      ensures Valid() && this.text == text && this.vars == vars && Rest() == text
    {
      this.text, this.vars, pos := text, vars, 0;
    }

    predicate At(c: char)
      requires Valid()
      reads this
    {
      pos < |text| && text[pos] == c
    }

    method Step()
      requires Valid() && pos < |text|
      modifies this
      ensures Valid() && pos == old(pos) + 1 && Rest() == old(Rest())[1..]
    {
      pos := pos + 1;
    }

    method SkipWhitespace()
      requires Valid()
      modifies this
      ensures Valid() && pos >= old(pos) && Rest() == SkipWs(old(Rest()))
    {
      while pos < |text| && IsSpace(text[pos])
        invariant old(pos) <= pos <= |text|
        invariant SkipWs(Rest()) == SkipWs(old(Rest()))
        decreases |text| - pos
      {
        assert Rest()[1..] == text[pos + 1..];
        pos := pos + 1;
      }
    }

    method ExpectChar(c: char) returns (ok: bool)
      requires Valid()
      modifies this
      ensures Valid() && ok == Expect(old(Rest()), c).Ok?
      ensures ok ==> Rest() == Expect(old(Rest()), c).rest
    {
      SkipWhitespace();
      ok := At(c);
      if ok { Step(); }
    }

    // ---------------------------------------------------------------- literals

    /** Five groups of hex digits separated by dashes. */
    method IsUuidHere() returns (ok: bool)
      requires Valid()
      ensures ok == IsUuid(Rest())
    {
      var p := pos;
      while p < pos + 36
        invariant pos <= p <= pos + 36 && p <= |text|
        invariant forall i | 0 <= i < p - pos :: UuidChar(Rest(), i)
      {
        UuidChars(Rest());
        if p >= |text| {
          return false;
        }
        var i := p - pos;
        assert Rest()[i] == text[p] && (IsUuid(Rest()) ==> UuidChar(Rest(), i));
        if i == 8 || i == 13 || i == 18 || i == 23 {
          if text[p] != '-' {
            return false;
          }
        } else if !IsHex(text[p]) {
          return false;
        }
        p := p + 1;
      }
      UuidChars(Rest());
      ok := true;
    }

    method UuidBytes() returns (r: Option<Uuid>)
      requires Valid()
      modifies this
      ensures Valid() && Gives(r, ParseUuid(old(Rest())))
    {
      var ok := IsUuidHere();
      if !ok {
        return None;
      }
      var uuid := text[pos..pos + 36];
      assert uuid == Rest()[..36] && text[pos + 36..] == Rest()[36..];
      UuidDigits(uuid);
      var hex := WithoutDashes(uuid);
      var bytes := HexDigitsToBytes(hex);
      pos := pos + 36;
      return Some(bytes);
    }

    method HexBytes() returns (r: Option<Bytes>)
      requires Valid()
      modifies this
      ensures Valid() && Gives(r, ParseHexBytes(old(Rest())))
    {
      var bytes: Bytes := [];
      ghost var whole := ParseHexBytes(Rest());
      ContinuesFirst(whole);
      while pos < |text| && IsHex(text[pos])
        invariant Valid()
        invariant Continues(whole, bytes, ParseHexBytes(Rest()))
        decreases |text| - pos
      {
        if pos + 1 >= |text| || !IsHex(text[pos + 1]) {
          return None;
        }
        var byte: Byte := HexValue(text[pos]) * 16 + HexValue(text[pos + 1]);
        assert Rest()[2..] == text[pos + 2..];
        ContinuesMore(whole, bytes, byte, ParseHexBytes(Rest()[2..]));
        bytes := bytes + [byte];
        pos := pos + 2;
      }
      assert bytes + [] == bytes;
      return Some(bytes);
    }

    /** Reads a dotted path, collecting one segment at a time. */
    method FieldPathHere() returns (r: Option<FieldPath>)
      requires Valid()
      modifies this
      ensures Valid() && Gives(r, ParsePath(old(Rest())))
    {
      SkipWhitespace();
      var path: FieldPath, segment := [], "";
      while pos < |text| && !EndsPath(text[pos])
        invariant Valid()
        invariant ReadPath(Rest(), path, segment) == ParsePath(old(Rest()))
        decreases |text| - pos
      {
        assert Rest()[1..] == text[pos + 1..];
        if text[pos] == '.' {
          if segment == "" {
            return None;
          }
          path, segment := path + [segment], "";
        } else {
          segment := segment + [text[pos]];
        }
        pos := pos + 1;
      }
      if segment != "" {
        path := path + [segment];
      }
      return if path == [] then None else Some(path);
    }

    method QuotedHere() returns (r: Option<string>)
      requires Valid()
      modifies this
      ensures Valid() && Gives(r, ReadQuoted(old(Rest())))
    {
      var s := "";
      ghost var whole := ReadQuoted(Rest());
      ContinuesFirst(whole);
      while pos < |text| && text[pos] != '"'
        invariant Valid()
        invariant Continues(whole, s, ReadQuoted(Rest()))
        decreases |text| - pos
      {
        assert Rest()[1..] == text[pos + 1..];
        ContinuesMore(whole, s, text[pos], ReadQuoted(Rest()[1..]));
        s := s + [text[pos]];
        pos := pos + 1;
      }
      if pos >= |text| {
        return None;
      }
      assert s + "" == s;
      Step();
      return Some(s);
    }

    /** Reads digits into a 64-bit accumulator. */
    method DigitsHere(start: nat) returns (n: nat)
      requires Valid()
      modifies this
      ensures Valid() && (n, Rest()) == ReadDigits(old(Rest()), start)
    {
      n := start;
      while pos < |text| && IsDigit(text[pos])
        invariant Valid()
        invariant ReadDigits(Rest(), n) == ReadDigits(old(Rest()), start)
        decreases |text| - pos
      {
        assert Rest()[1..] == text[pos + 1..];
        n := (n * 10 + DigitValue(text[pos])) % TWO_64;
        pos := pos + 1;
      }
    }

    method EnumHere() returns (r: Option<FieldValue>)
      requires Valid()
      modifies this
      ensures Valid() && Gives(r, ParseEnum(old(Rest())))
    {
      SkipWhitespace();
      var negative := At('-');
      if negative { Step(); }
      var n := DigitsHere(0);
      var ok := ExpectChar(')');
      if !ok {
        return None;
      }
      var value: int := n;
      return Some(EnumValue(ToInt32(if negative then -value else value)));
    }

    method NumberHere() returns (r: Option<FieldValue>)
      requires Valid()
      modifies this
      ensures Valid() && Gives(r, ParseNumber(old(Rest())))
    {
      var negative := At('-');
      if negative { Step(); }
      if pos >= |text| || !IsDigit(text[pos]) {
        return None;
      }
      var first := DigitValue(text[pos]) % TWO_64;
      Step();
      var n := DigitsHere(first);
      if !negative && (At('u') || At('U')) {
        Step();
        return Some(UintValue(n));
      }
      return Some(IntValue(if negative then Negate64(ToInt64(n)) else ToInt64(n)));
    }

    method FieldValueHere() returns (r: Option<FieldValue>)
      requires Valid()
      modifies this
      ensures Valid() && Gives(r, ParseValue(old(Rest())))
    {
      SkipWhitespace();
      ghost var u := Rest();
      if pos >= |text| {
        return None;
      }
      if text[pos] == '"' {
        Step();
        var s := QuotedHere();
        return if s.Some? then Some(StringValue(s.value)) else None;
      }
      if pos + 1 < |text| && text[pos] == '0' && (text[pos + 1] == 'x' || text[pos + 1] == 'X') {
        pos := pos + 2;
        assert Rest() == u[2..];
        var b := HexBytes();
        return if b.Some? then Some(BytesValue(b.value)) else None;
      }
      if BoolWord(Rest(), "true") {
        pos := pos + 4;
        assert Rest() == u[4..];
        return Some(BoolValue(true));
      }
      if BoolWord(Rest(), "false") {
        pos := pos + 5;
        assert Rest() == u[5..];
        return Some(BoolValue(false));
      }
      if StartsWith(Rest(), "enum(") {
        pos := pos + 5;
        assert Rest() == u[5..];
        r := EnumHere();
        return;
      }
      r := NumberHere();
    }

    /** A UUID, or hex bytes, up to the closing parenthesis. */
    method UuidArg() returns (r: Option<Uuid>)
      requires Valid()
      modifies this
      ensures Valid() && Gives(r, ParseUuidArg(old(Rest())))
    {
      SkipWhitespace();
      r := UuidBytes();
      if r.None? {
        return;
      }
      SkipWhitespace();
      var ok := ExpectChar(')');
      if !ok { return None; }
    }

    method HexArg() returns (r: Option<Bytes>)
      requires Valid()
      modifies this
      ensures Valid() && Gives(r, ParseHexArg(old(Rest())))
    {
      SkipWhitespace();
      r := HexBytes();
      if r.None? {
        return;
      }
      SkipWhitespace();
      var ok := ExpectChar(')');
      if !ok { return None; }
    }

    // ---------------------------------------------------------------- endorsement trees

    /** A parenthesised pair of trees. */
    method EndBinaryArgs() returns (r: Option<(EndTree, EndTree)>)
      requires Valid()
      modifies this
      ensures Valid() && Gives(r, ParseEndPair(old(Rest())))
      decreases |text| - pos, 1
    {
      var ok := ExpectChar('(');
      if !ok { return None; }
      var lhs := EndTreeHere();
      if lhs.None? { return None; }
      SkipWhitespace();
      ok := ExpectChar(',');
      if !ok { return None; }
      var rhs := EndTreeHere();
      if rhs.None? { return None; }
      SkipWhitespace();
      ok := ExpectChar(')');
      if !ok { return None; }
      return Some((lhs.value, rhs.value));
    }

    /** A parenthesised, possibly empty list of trees. */
    method EndNaryArgs() returns (r: Option<seq<EndTree>>)
      requires Valid()
      modifies this
      ensures Valid() && Gives(r, ParseEndArgs(old(Rest())))
      decreases |text| - pos, 2
    {
      var ok := ExpectChar('(');
      if !ok { return None; }
      SkipWhitespace();
      if At(')') {
        Step();
        return Some([]);
      }
      r := EndTerms();
    }

    method EndTerms() returns (r: Option<seq<EndTree>>)
      requires Valid()
      modifies this
      ensures Valid() && Gives(r, ParseEndTerms(old(Rest())))
      decreases |text| - pos, 1
    {
      var terms: seq<EndTree> := [];
      ghost var whole := ParseEndTerms(Rest());
      ContinuesFirst(whole);
      while true
        invariant Valid() && |text| - pos <= old(|text| - pos)
        invariant Continues(whole, terms, ParseEndTerms(Rest()))
        decreases |text| - pos
      {
        var t := EndTreeHere();
        if t.None? { return None; }
        SkipWhitespace();
        if At(',') {
          Step();
          ContinuesMore(whole, terms, t.value, ParseEndTerms(Rest()));
          terms := terms + [t.value];
        } else {
          var ok := ExpectChar(')');
          if !ok { return None; }
          return Some(terms + [t.value]);
        }
      }
    }

    method EndTreeHere() returns (r: Option<EndTree>)
      requires Valid()
      modifies this
      ensures Valid() && Gives(r, ParseEnd(old(Rest())))
      decreases |text| - pos, 0
    {
      SkipWhitespace();
      var h := EndHead(Rest());
      if h == HNone {
        return None;
      }
      pos := pos + Skip(h);
      assert Rest() == SkipWs(old(Rest()))[Skip(h)..];
      r := EndTreeHereBody(h);
    }

    method EndTreeHereBody(h: Head) returns (r: Option<EndTree>)
      requires Valid() && h != HNone
      modifies this
      ensures Valid() && Gives(r, ParseEndBody(h, old(Rest())))
      decreases |text| - pos, 3
    {
      match h
      case HAnd =>
        var args := EndBinaryArgs();
        if args.None? { return None; }
        return Some(EndAnd(Some(args.value.0), Some(args.value.1)));
      case HOr =>
        var args := EndBinaryArgs();
        if args.None? { return None; }
        return Some(EndOr(Some(args.value.0), Some(args.value.1)));
      case HEq =>
        var args := EndBinaryArgs();
        if args.None? { return None; }
        return Some(EndEquals(Some(args.value.0), Some(args.value.1)));
      case HAllOf =>
        var terms := EndNaryArgs();
        if terms.None? { return None; }
        return Some(EndAllOf(terms.value));
      case HAnyOf =>
        var terms := EndNaryArgs();
        if terms.None? { return None; }
        return Some(EndAnyOf(terms.value));
      case HType =>
        var b := UuidArg();
        if b.None? { return None; }
        return Some(TypeEquals(Some(b.value)));
      case HValue =>
        var b := HexArg();
        if b.None? { return None; }
        return Some(ValueEquals(b.value));
      case HSigner =>
        var b := UuidArg();
        if b.None? { return None; }
        return Some(SignerEquals(Some(b.value)));
      case HTrue => return Some(EndTrue);
      case _ => return Some(EndFalse);
    }

    // ---------------------------------------------------------------- message trees

    /** A parenthesised pair of trees. */
    method MesBinaryArgs() returns (r: Option<(MesTree, MesTree)>)
      requires Valid()
      modifies this
      ensures Valid() && Gives(r, ParseMesPair(old(Rest())))
      decreases |text| - pos, 1
    {
      var ok := ExpectChar('(');
      if !ok { return None; }
      var lhs := MessageTreeHere();
      if lhs.None? { return None; }
      SkipWhitespace();
      ok := ExpectChar(',');
      if !ok { return None; }
      var rhs := MessageTreeHere();
      if rhs.None? { return None; }
      SkipWhitespace();
      ok := ExpectChar(')');
      if !ok { return None; }
      return Some((lhs.value, rhs.value));
    }

    /** A parenthesised, possibly empty list of trees. */
    method MesNaryArgs() returns (r: Option<seq<MesTree>>)
      requires Valid()
      modifies this
      ensures Valid() && Gives(r, ParseMesArgs(old(Rest())))
      decreases |text| - pos, 2
    {
      var ok := ExpectChar('(');
      if !ok { return None; }
      SkipWhitespace();
      if At(')') {
        Step();
        return Some([]);
      }
      r := MesTerms();
    }

    method MesTerms() returns (r: Option<seq<MesTree>>)
      requires Valid()
      modifies this
      ensures Valid() && Gives(r, ParseMesTerms(old(Rest())))
      decreases |text| - pos, 1
    {
      var terms: seq<MesTree> := [];
      ghost var whole := ParseMesTerms(Rest());
      ContinuesFirst(whole);
      while true
        invariant Valid() && |text| - pos <= old(|text| - pos)
        invariant Continues(whole, terms, ParseMesTerms(Rest()))
        decreases |text| - pos
      {
        var t := MessageTreeHere();
        if t.None? { return None; }
        SkipWhitespace();
        if At(',') {
          Step();
          ContinuesMore(whole, terms, t.value, ParseMesTerms(Rest()));
          terms := terms + [t.value];
        } else {
          var ok := ExpectChar(')');
          if !ok { return None; }
          return Some(terms + [t.value]);
        }
      }
    }

    method IdLeaf(path: FieldPath) returns (r: Option<MesTree>)
      requires Valid()
      modifies this
      ensures Valid() && Gives(r, ParseIdLeaf(old(Rest()), path))
    {
      var b := UuidArg();
      if b.None? { return None; }
      return Some(FieldEquals(Some(path), Some(BytesValue(b.value))));
    }

    method FieldEqLeaf() returns (r: Option<MesTree>)
      requires Valid()
      modifies this
      ensures Valid() && Gives(r, ParseFieldEq(old(Rest())))
    {
      var path := FieldPathHere();
      if path.None? { return None; }
      SkipWhitespace();
      var ok := ExpectChar(',');
      if !ok { return None; }
      var value := FieldValueHere();
      if value.None? { return None; }
      SkipWhitespace();
      ok := ExpectChar(')');
      if !ok { return None; }
      return Some(FieldEquals(Some(path.value), Some(value.value)));
    }

    method FieldExistsLeaf() returns (r: Option<MesTree>)
      requires Valid()
      modifies this
      ensures Valid() && Gives(r, ParseFieldExists(old(Rest())))
    {
      var path := FieldPathHere();
      if path.None? { return None; }
      SkipWhitespace();
      var ok := ExpectChar(')');
      if !ok { return None; }
      return Some(FieldExists(Some(path.value)));
    }

    method FieldContainsLeaf() returns (r: Option<MesTree>)
      requires Valid()
      modifies this
      ensures Valid() && Gives(r, ParseFieldContains(old(Rest())))
    {
      var path := FieldPathHere();
      if path.None? { return None; }
      SkipWhitespace();
      var ok := ExpectChar(',');
      if !ok { return None; }
      var sub := FieldPathHere();
      if sub.None? { return None; }
      SkipWhitespace();
      ok := ExpectChar(',');
      if !ok { return None; }
      var value := FieldValueHere();
      if value.None? { return None; }
      SkipWhitespace();
      ok := ExpectChar(')');
      if !ok { return None; }
      return Some(FieldContains(Some(path.value), Some(sub.value), Some(value.value)));
    }

    method MessageTreeHere() returns (r: Option<MesTree>)
      requires Valid()
      modifies this
      ensures Valid() && Gives(r, ParseMes(old(Rest())))
      decreases |text| - pos, 0
    {
      SkipWhitespace();
      var h := MesHead(Rest());
      if h == HNone {
        return None;
      }
      pos := pos + Skip(h);
      assert Rest() == SkipWs(old(Rest()))[Skip(h)..];
      r := MessageTreeHereBody(h);
    }

    method MessageTreeHereBody(h: Head) returns (r: Option<MesTree>)
      requires Valid() && h != HNone
      modifies this
      ensures Valid() && Gives(r, ParseMesBody(h, old(Rest())))
      decreases |text| - pos, 3
    {
      match h
      case HAnd =>
        var args := MesBinaryArgs();
        if args.None? { return None; }
        return Some(MesAnd(Some(args.value.0), Some(args.value.1)));
      case HOr =>
        var args := MesBinaryArgs();
        if args.None? { return None; }
        return Some(MesOr(Some(args.value.0), Some(args.value.1)));
      case HEq =>
        var args := MesBinaryArgs();
        if args.None? { return None; }
        return Some(MesEquals(Some(args.value.0), Some(args.value.1)));
      case HAllOf =>
        var terms := MesNaryArgs();
        if terms.None? { return None; }
        return Some(MesAllOf(terms.value));
      case HAnyOf =>
        var terms := MesNaryArgs();
        if terms.None? { return None; }
        return Some(MesAnyOf(terms.value));
      case HDestination => r := IdLeaf(DESTINATION_PATH);
      case HSource => r := IdLeaf(SOURCE_PATH);
      case HFieldEq => r := FieldEqLeaf();
      case HFieldExists => r := FieldExistsLeaf();
      case HFieldContains => r := FieldContainsLeaf();
      case HTrue => return Some(MesTrue);
      case HFalse => return Some(MesFalse);
      case _ => return None;
    }

    // ---------------------------------------------------------------- requirement trees

    /** The name up to the closing brace. */
    method NameHere() returns (r: Option<string>)
      requires Valid()
      modifies this
      ensures Valid() && Gives(r, ReadName(old(Rest())))
    {
      var name := "";
      ghost var whole := ReadName(Rest());
      ContinuesFirst(whole);
      while pos < |text| && text[pos] != '}'
        invariant Valid()
        invariant Continues(whole, name, ReadName(Rest()))
        decreases |text| - pos
      {
        assert Rest()[1..] == text[pos + 1..];
        ContinuesMore(whole, name, text[pos], ReadName(Rest()[1..]));
        name := name + [text[pos]];
        pos := pos + 1;
      }
      if pos >= |text| {
        return None;
      }
      assert name + "" == name;
      Step();
      return Some(name);
    }

    /** A variable reference is replaced by the variable's tree. */
    method ReferenceHere() returns (r: Option<Tree>)
      requires Valid()
      modifies this
      ensures Valid() && Gives(r, ParseReference(old(Rest()), vars))
    {
      var name := NameHere();
      if name.None? || !IsIdentifier(name.value) || vars.None? || name.value !in vars.value {
        return None;
      }
      return Some(vars.value[name.value]);
    }

    method EndorsementHere() returns (r: Option<Tree>)
      requires Valid()
      modifies this
      ensures Valid() && Gives(r, ParseEndorsementLeaf(old(Rest())))
    {
      SkipWhitespace();
      var t := EndTreeHere();
      if t.None? { return None; }
      SkipWhitespace();
      var ok := ExpectChar(')');
      if !ok { return None; }
      return Some(EndorsementLeaf(Some(t.value)));
    }

    method MessageHere() returns (r: Option<Tree>)
      requires Valid()
      modifies this
      ensures Valid() && Gives(r, ParseMessageLeaf(old(Rest())))
    {
      SkipWhitespace();
      var t := MessageTreeHere();
      if t.None? { return None; }
      SkipWhitespace();
      var ok := ExpectChar(')');
      if !ok { return None; }
      return Some(MessageLeaf(Some(t.value)));
    }

    method LeafHere(h: Head) returns (r: Option<Tree>)
      requires Valid()
      modifies this
      ensures Valid() && Gives(r, ParseLeaf(h, old(Rest())))
    {
      match h
      case HEndorsement => r := EndorsementHere();
      case HType =>
        var b := UuidArg();
        return if b.Some? then Some(EndorsementLeaf(Some(TypeEquals(Some(b.value))))) else None;
      case HValue =>
        var b := HexArg();
        return if b.Some? then Some(EndorsementLeaf(Some(ValueEquals(b.value)))) else None;
      case HSigner =>
        var b := UuidArg();
        return if b.Some? then Some(EndorsementLeaf(Some(SignerEquals(Some(b.value))))) else None;
      case HMessage => r := MessageHere();
      case HDestination =>
        var t := IdLeaf(DESTINATION_PATH);
        return if t.Some? then Some(MessageLeaf(Some(t.value))) else None;
      case HSource =>
        var t := IdLeaf(SOURCE_PATH);
        return if t.Some? then Some(MessageLeaf(Some(t.value))) else None;
      case _ => return None;
    }

    /** A parenthesised pair of trees. */
    method BinaryArgs() returns (r: Option<(Tree, Tree)>)
      requires Valid()
      modifies this
      ensures Valid() && Gives(r, ParsePair(old(Rest()), vars))
      decreases |text| - pos, 1
    {
      var ok := ExpectChar('(');
      if !ok { return None; }
      var lhs := TreeHere();
      if lhs.None? { return None; }
      SkipWhitespace();
      ok := ExpectChar(',');
      if !ok { return None; }
      var rhs := TreeHere();
      if rhs.None? { return None; }
      SkipWhitespace();
      ok := ExpectChar(')');
      if !ok { return None; }
      return Some((lhs.value, rhs.value));
    }

    /** A parenthesised, possibly empty list of trees. */
    method NaryArgs() returns (r: Option<seq<Tree>>)
      requires Valid()
      modifies this
      ensures Valid() && Gives(r, ParseArgs(old(Rest()), vars))
      decreases |text| - pos, 2
    {
      var ok := ExpectChar('(');
      if !ok { return None; }
      SkipWhitespace();
      if At(')') {
        Step();
        return Some([]);
      }
      r := Terms();
    }

    method Terms() returns (r: Option<seq<Tree>>)
      requires Valid()
      modifies this
      ensures Valid() && Gives(r, ParseTerms(old(Rest()), vars))
      decreases |text| - pos, 1
    {
      var terms: seq<Tree> := [];
      ghost var whole := ParseTerms(Rest(), vars);
      ContinuesFirst(whole);
      while true
        invariant Valid() && |text| - pos <= old(|text| - pos)
        invariant Continues(whole, terms, ParseTerms(Rest(), vars))
        decreases |text| - pos
      {
        var t := TreeHere();
        if t.None? { return None; }
        SkipWhitespace();
        if At(',') {
          Step();
          ContinuesMore(whole, terms, t.value, ParseTerms(Rest(), vars));
          terms := terms + [t.value];
        } else {
          var ok := ExpectChar(')');
          if !ok { return None; }
          return Some(terms + [t.value]);
        }
      }
    }

    method TreeHere() returns (r: Option<Tree>)
      requires Valid()
      modifies this
      ensures Valid() && Gives(r, ParseTree(old(Rest()), vars))
      decreases |text| - pos, 0
    {
      SkipWhitespace();
      var h := TreeHead(Rest());
      if h == HNone {
        return None;
      }
      pos := pos + Skip(h);
      assert Rest() == SkipWs(old(Rest()))[Skip(h)..];
      r := TreeHereBody(h);
    }

    method TreeHereBody(h: Head) returns (r: Option<Tree>)
      requires Valid() && h != HNone
      modifies this
      ensures Valid() && Gives(r, ParseTreeBody(h, old(Rest()), vars))
      decreases |text| - pos, 3
    {
      match h
      case HRef => r := ReferenceHere();
      case HAnd =>
        var args := BinaryArgs();
        if args.None? { return None; }
        return Some(And(Some(args.value.0), Some(args.value.1)));
      case HOr =>
        var args := BinaryArgs();
        if args.None? { return None; }
        return Some(Or(Some(args.value.0), Some(args.value.1)));
      case HEq =>
        var args := BinaryArgs();
        if args.None? { return None; }
        return Some(Equals(Some(args.value.0), Some(args.value.1)));
      case HAllOf =>
        var terms := NaryArgs();
        if terms.None? { return None; }
        return Some(AllOf(terms.value));
      case HAnyOf =>
        var terms := NaryArgs();
        if terms.None? { return None; }
        return Some(AnyOf(terms.value));
      case HTrue => return Some(True);
      case HFalse => return Some(False);
      case HEndorsement | HType | HValue | HSigner | HMessage | HDestination | HSource => r := LeafHere(h);
      case _ => return None;
    }
  }

  // ---------------------------------------------------------------- text helpers

  method WithoutDashes(s: string) returns (hex: string)
    ensures hex == StripDashes(s)
  {
    hex := "";
    for i := 0 to |s|
      invariant hex + StripDashes(s[i..]) == StripDashes(s)
    {
      assert s[i..][1..] == s[i + 1..];
      if s[i] != '-' {
        hex := hex + [s[i]];
      }
    }
  }

  predicate AllHex(s: string) {
    forall c | c in s :: IsHex(c)
  }

  function ByteAt(hex: string, i: nat): Byte
    requires i + 1 < |hex| && AllHex(hex)
  {
    HexValue(hex[i]) * 16 + HexValue(hex[i + 1])
  }

  /** The bytes of all pairs from position i on. */
  function BytesFrom(hex: string, i: nat): Bytes
    requires |hex| % 2 == 0 && i <= |hex| && i % 2 == 0 && AllHex(hex)
  {
    HexPairs(hex[i..])
  }

  lemma BytesFromStep(hex: string, i: nat)
    requires |hex| % 2 == 0 && i < |hex| && i % 2 == 0 && AllHex(hex)
    ensures BytesFrom(hex, i) == [ByteAt(hex, i)] + BytesFrom(hex, i + 2)
  {
    assert hex[i..][2..] == hex[i + 2..];
  }

  lemma BytesFromEnds(hex: string)
    requires |hex| % 2 == 0 && AllHex(hex)
    ensures BytesFrom(hex, 0) == HexPairs(hex) && BytesFrom(hex, |hex|) == []
  {
    assert hex[0..] == hex;
  }

  method HexDigitsToBytes(hex: string) returns (bytes: Bytes)
    requires |hex| % 2 == 0 && AllHex(hex)
    ensures bytes == HexPairs(hex)
  {
    BytesFromEnds(hex);
    bytes := [];
    var i := 0;
    while i < |hex|
      invariant 0 <= i <= |hex| && i % 2 == 0
      invariant bytes + BytesFrom(hex, i) == HexPairs(hex)
    {
      BytesFromStep(hex, i);
      bytes := bytes + [ByteAt(hex, i)];
      i := i + 2;
    }
  }

  /** A parse of the whole text: nothing but white space may follow. */
  function ToEnd(spec: Parsed<Tree>): Option<Tree> {
    if spec.Ok? && SkipWs(spec.rest) == "" then Some(spec.value) else None
  }

  lemma WholeText(text: string, vars: Variables)
    ensures FromString(text, vars) == if SkipWs(text) == "" then Some(Unset) else ToEnd(ParseTree(SkipWs(text), vars))
  {
    assert SkipWs(SkipWs(text)) == SkipWs(text);
  }

  method ParseToEnd(parser: Parser) returns (r: Option<Tree>)
    requires parser.Valid()
    modifies parser
    ensures r == ToEnd(ParseTree(old(parser.Rest()), parser.vars))
  {
    r := parser.TreeHere();
    if r.None? {
      return None;
    }
    parser.SkipWhitespace();
    if parser.pos < |parser.text| {
      return None;
    }
  }

  /** fromString, with a resolver for the variables in scope or without one. */
  method Parse(text: string, vars: Variables) returns (r: Option<Tree>)
    ensures r == FromString(text, vars)
  {
    WholeText(text, vars);
    var parser := new Parser(text, vars);
    parser.SkipWhitespace();
    if parser.pos >= |text| {
      return Some(Unset);
    }
    r := ParseToEnd(parser);
  }
}
