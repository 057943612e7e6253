/** What the literals of a requirement text stand for, beyond the ones the printer writes
    (common/endorsement/endorsement_text.cpp): numbers too large for their type, letters in
    either case, and field paths with dots in the wrong places. */
module ErdLexemes {
  import opened Common
  import opened ErdTree
  import opened ErdText

  // ---------------------------------------------------------------- numbers

  predicate Digits(s: string) { forall c | c in s :: IsDigit(c) }

  /** The number a string of digits writes, however long it is. */
  function Decimal(ds: string): nat
    requires Digits(ds)
  {
    if ds == "" then 0
    else
      assert ds[|ds| - 1] in ds;
      Decimal(ds[..|ds| - 1]) * 10 + (ds[|ds| - 1] as int - '0' as int)
  }

  predicate NoDigit(rest: string) { rest == "" || !IsDigit(rest[0]) }

  lemma WrapStep(a: nat, n: nat, d: nat)
    requires n == a % TWO_64
    ensures (n * 10 + d) % TWO_64 == (a * 10 + d) % TWO_64
  {
    var q := a / TWO_64;
    assert a * 10 + d == n * 10 + d + TWO_64 * (10 * q);
    WrapTimes(n * 10 + d, 10 * q);
  }

  lemma {:induction false} WrapTimes(x: nat, k: nat)
    ensures (x + TWO_64 * k) % TWO_64 == x % TWO_64
  {
    if k > 0 {
      WrapTimes(x, k - 1);
      assert x + TWO_64 * k == x + TWO_64 * (k - 1) + TWO_64;
    }
  }

  lemma {:induction false} ReadsOn(ds: string, more: string, rest: string)
    requires Digits(ds) && Digits(more) && Digits(ds + more) && NoDigit(rest)
    ensures ReadDigits(more + rest, Decimal(ds) % TWO_64) == (Decimal(ds + more) % TWO_64, rest)
    decreases |more|
  {
    if more == "" {
      assert more + rest == rest && ds + more == ds;
    } else {
      var one := ds + [more[0]];
      assert more[0] in more;
      assert (more + rest)[1..] == more[1..] + rest && one + more[1..] == ds + more;
      assert one[..|one| - 1] == ds;
      WrapStep(Decimal(ds), Decimal(ds) % TWO_64, more[0] as int - 48);
      ReadsOn(one, more[1..], rest);
    }
  }

  /** All the digits are read, and their number is kept modulo 2^64. */
  lemma ReadsDecimal(ds: string, rest: string)
    requires Digits(ds) && NoDigit(rest)
    ensures ReadDigits(ds + rest, 0) == (Decimal(ds) % TWO_64, rest)
  {
    assert "" + ds == ds;
    ReadsOn("", ds, rest);
  }

  /** The value of a signed type of this many values that is congruent to n. */
  ghost predicate IsWrapped(v: int, n: int, size: int)
    requires size > 0
  {
    -(size / 2) <= v < size - size / 2 && exists k: int :: v == n + size * k
  }

  lemma WrapsTo64(n: nat)
    ensures IsWrapped(ToInt64(n % TWO_64), n, TWO_64)
    ensures IsWrapped(Negate64(ToInt64(n % TWO_64)), -(n as int), TWO_64)
  {
    var q: int := n / TWO_64;
    var v := ToInt64(n % TWO_64);
    var k := if v < 0 then -q - 1 else -q;
    assert v == n + TWO_64 * k;
    var back := if v == -(TWO_64 / 2) then -k - 1 else -k;
    assert Negate64(v) == -(n as int) + TWO_64 * back;
  }

  lemma OneDigit(c: char)
    requires IsDigit(c)
    ensures Decimal([c]) == DigitValue(c)
  {
    assert [c][..0] == "";
  }

  lemma FirstOff(ds: string, rest: string)
    requires ds != "" && Digits(ds)
    ensures ds == [ds[0]] + ds[1..] && (ds + rest)[1..] == ds[1..] + rest
    ensures Digits([ds[0]]) && Digits(ds[1..]) && IsDigit(ds[0])
    ensures Decimal([ds[0]]) == DigitValue(ds[0])
  {
    assert ds[0] in ds;
    OneDigit(ds[0]);
  }

  lemma ReadsNumber(ds: string, rest: string)
    requires ds != "" && Digits(ds) && NoDigit(rest) && IsDigit(ds[0])
    ensures ReadDigits((ds + rest)[1..], DigitValue(ds[0]) % TWO_64) == (Decimal(ds) % TWO_64, rest)
  {
    FirstOff(ds, rest);
    ReadsOn([ds[0]], ds[1..], rest);
  }

  /** A number may have any number of digits: with a trailing u of either case it stands for its
      value modulo 2^64, ... */
  lemma UnsignedMeans(ds: string, rest: string)
    requires ds != "" && Digits(ds)
    ensures ParseNumber(ds + ("u" + rest)) == Ok(UintValue(Decimal(ds) % TWO_64), rest)
    ensures ParseNumber(ds + ("U" + rest)) == Ok(UintValue(Decimal(ds) % TWO_64), rest)
  {
    assert ds[0] in ds;
    ReadsNumber(ds, "u" + rest);
    ReadsNumber(ds, "U" + rest);
  }

  /** ... without one for the 64-bit signed number congruent to it, ... */
  lemma SignedMeans(ds: string, rest: string)
    requires ds != "" && Digits(ds) && NoDigit(rest) && (rest == "" || rest[0] !in "uU")
    ensures var r := ParseNumber(ds + rest);
            r.Ok? && r.value.IntValue? && r.rest == rest && IsWrapped(r.value.int64, Decimal(ds), TWO_64)
  {
    assert ds[0] in ds;
    ReadsNumber(ds, rest);
    WrapsTo64(Decimal(ds));
  }

  /** ... and after a minus sign for the one congruent to its negation: a u then ends the number. */
  lemma NegativeMeans(ds: string, rest: string)
    requires ds != "" && Digits(ds) && NoDigit(rest)
    ensures var r := ParseNumber("-" + (ds + rest));
            r.Ok? && r.value.IntValue? && r.rest == rest && IsWrapped(r.value.int64, -(Decimal(ds) as int), TWO_64)
  {
    assert ds[0] in ds;
    assert ("-" + (ds + rest))[1..] == ds + rest;
    ReadsNumber(ds, rest);
    WrapsTo64(Decimal(ds));
  }

  lemma WrapsTo32(n: int)
    ensures IsWrapped(ToInt32(n), n, TWO_32)
  {
    var k := if n % TWO_32 >= TWO_32 / 2 then -(n / TWO_32) - 1 else -(n / TWO_32);
    assert ToInt32(n) == n + TWO_32 * k;
  }

  lemma WrapsFurther(v: int, m: nat, sign: int)
    requires sign == 1 || sign == -1
    requires IsWrapped(v, sign * (m % TWO_64), TWO_32)
    ensures IsWrapped(v, sign * m, TWO_32)
  {
    var k :| v == sign * (m % TWO_64) + TWO_32 * k;
    var q: int := m / TWO_64;
    var k' := k - sign * (TWO_32 * q);
    assert TWO_64 == TWO_32 * TWO_32;
    assert m == m % TWO_64 + TWO_32 * (TWO_32 * q);
    assert v == sign * m + TWO_32 * k';
  }

  lemma WrapsTwice(m: nat)
    ensures IsWrapped(ToInt32(m % TWO_64), m, TWO_32)
    ensures IsWrapped(ToInt32(-((m % TWO_64) as int)), -(m as int), TWO_32)
  {
    var n := m % TWO_64;
    WrapsTo32(n);
    WrapsTo32(-(n as int));
    WrapsFurther(ToInt32(n), m, 1);
    WrapsFurther(ToInt32(-(n as int)), m, -1);
  }

  lemma EnumReads(ds: string, rest: string)
    requires Digits(ds)
    ensures var text := ds + (")" + rest);
            && ParseEnum(text) == Ok(EnumValue(ToInt32(Decimal(ds) % TWO_64)), rest)
            && ParseEnum("-" + text) == Ok(EnumValue(ToInt32(-((Decimal(ds) % TWO_64) as int))), rest)
  {
    var text := ds + (")" + rest);
    ReadsDecimal(ds, ")" + rest);
    assert text != "" && !IsSpace(text[0]) && text[0] != '-' by { if ds != "" { assert ds[0] in ds; } }
    assert SkipWs(text) == text && SkipWs("-" + text) == "-" + text;
    assert ("-" + text)[1..] == text;
    assert Expect(")" + rest, ')') == Ok(')', rest);
  }

  /** An enum number is the 32-bit signed number congruent to what is written; no digits mean 0. */
  lemma EnumMeans(ds: string, rest: string)
    requires Digits(ds)
    ensures var r := ParseEnum(ds + (")" + rest));
            r.Ok? && r.value.EnumValue? && r.rest == rest && IsWrapped(r.value.int32, Decimal(ds), TWO_32)
    ensures var r := ParseEnum("-" + (ds + (")" + rest)));
            r.Ok? && r.value.EnumValue? && r.rest == rest && IsWrapped(r.value.int32, -(Decimal(ds) as int), TWO_32)
  {
    EnumReads(ds, rest);
    WrapsTwice(Decimal(ds));
  }

  // ---------------------------------------------------------------- letters in either case

  /** The same text up to the case of its letters. */
  predicate SameLetters(s: string, t: string) {
    |s| == |t| && forall i | 0 <= i < |s| :: Upper(s[i]) == Upper(t[i])
  }

  lemma {:induction false} IgnoringCase(s: string, word: string)
    ensures StartsWithIgnoringCase(s, word) <==> |word| <= |s| && SameLetters(s[..|word|], word)
  {
    if word != "" && s != "" {
      IgnoringCase(s[1..], word[1..]);
      if |word| <= |s| {
        assert s[..|word|][0] == s[0];
        assert s[1..][..|word| - 1] == s[..|word|][1..];
        if SameLetters(s[..|word|], word) {
          assert forall i | 0 <= i < |word| - 1 :: s[..|word|][1..][i] == s[..|word|][i + 1];
        } else if Upper(s[0]) == Upper(word[0]) {
          var i :| 0 <= i < |word| && Upper(s[..|word|][i]) != Upper(word[i]);
          assert s[..|word|][1..][i - 1] == s[..|word|][i] && word[1..][i - 1] == word[i];
        }
      }
    }
  }

  /** Begins like a constant, so with no other word of the grammars. */
  predicate LooksConstant(s: string) {
    && |s| > 1 && !IsSpace(s[0]) && s[1] != 'I' && s[0] != 'A' && s[0] != 'O' && s[0] != 'E'
    && s[0] != 'D' && s[0] != 'S' && s[0] != 'M' && s[0] != '$'
  }

  lemma NoOperator(s: string)
    requires LooksConstant(s)
    ensures OperatorHead(s) == HNone
  {
    StartsWithNot(s, "AND(", 0);
    StartsWithNot(s, "OR(", 0);
    StartsWithNot(s, "EQ(", 0);
    StartsWithNot(s, "ALLOF(", 0);
    StartsWithNot(s, "ANYOF(", 0);
  }

  lemma NoEndorsementWord(s: string)
    requires LooksConstant(s)
    ensures !StartsWith(s, "ENDORSEMENT(") && !StartsWith(s, "ENDORSEMENT_TYPE(")
    ensures !StartsWith(s, "ENDORSEMENT_VALUE(") && !StartsWith(s, "ENDORSEMENT_SIGNER(")
  {
    StartsWithNot(s, "ENDORSEMENT(", 0);
    StartsWithNot(s, "ENDORSEMENT_TYPE(", 0);
    StartsWithNot(s, "ENDORSEMENT_VALUE(", 0);
    StartsWithNot(s, "ENDORSEMENT_SIGNER(", 0);
  }

  lemma NoMessageWord(s: string)
    requires LooksConstant(s)
    ensures !StartsWith(s, "DESTINATION(") && !StartsWith(s, "SOURCE(")
    ensures !StartsWith(s, "FIELD_EQ(") && !StartsWith(s, "FIELD_EXISTS(") && !StartsWith(s, "FIELD_CONTAINS(")
  {
    StartsWithNot(s, "DESTINATION(", 0);
    StartsWithNot(s, "SOURCE(", 0);
    StartsWithNot(s, "FIELD_EQ(", 1);
    StartsWithNot(s, "FIELD_EXISTS(", 1);
    StartsWithNot(s, "FIELD_CONTAINS(", 1);
  }

  lemma EndConstantHead(s: string)
    requires LooksConstant(s)
    ensures EndHead(s) == ConstantHead(s)
  {
    NoOperator(s);
    NoEndorsementWord(s);
  }

  lemma EndConstant(s: string)
    requires LooksConstant(s)
    ensures ConstantHead(s) == HTrue ==> ParseEnd(s) == Ok(EndTrue, s[4..])
    ensures ConstantHead(s) == HFalse ==> ParseEnd(s) == Ok(EndFalse, s[5..])
  {
    EndConstantHead(s);
    assert SkipWs(s) == s;
  }

  lemma MesConstant(s: string)
    requires LooksConstant(s)
    ensures ConstantHead(s) == HTrue ==> ParseMes(s) == Ok(MesTrue, s[4..])
    ensures ConstantHead(s) == HFalse ==> ParseMes(s) == Ok(MesFalse, s[5..])
  {
    assert MesHead(s) == ConstantHead(s) by {
      NoOperator(s);
      NoMessageWord(s);
    }
    assert SkipWs(s) == s;
  }

  lemma TreeConstant(s: string, vars: Variables)
    requires LooksConstant(s)
    ensures ConstantHead(s) == HTrue ==> ParseTree(s, vars) == Ok(True, s[4..])
    ensures ConstantHead(s) == HFalse ==> ParseTree(s, vars) == Ok(False, s[5..])
  {
    assert TreeHead(s) == ConstantHead(s) by {
      StartsWithNot(s, "${", 0);
      NoOperator(s);
      NoEndorsementWord(s);
      StartsWithNot(s, "MESSAGE(", 0);
      NoMessageWord(s);
    }
    assert SkipWs(s) == s;
  }

  lemma ConstantLetters(word: string, rest: string)
    requires SameLetters(word, "TRUE") || SameLetters(word, "FALSE")
    ensures LooksConstant(word + rest) && (word + rest)[0] in "tTfF"
    ensures SameLetters(word, "TRUE") ==> ConstantHead(word + rest) == HTrue && (word + rest)[4..] == rest
    ensures SameLetters(word, "FALSE") ==> ConstantHead(word + rest) == HFalse && (word + rest)[5..] == rest
  {
    var s := word + rest;
    assert s[0] == word[0] && s[1] == word[1] && s[..|word|] == word;
    assert Upper(s[0]) in "TF" && Upper(s[1]) in "RA";
    IgnoringCase(s, "TRUE");
    IgnoringCase(s, "FALSE");
    if SameLetters(word, "FALSE") { assert Upper(s[..4][0]) == 'F'; }
  }

  /** The constants may be written in any mixture of cases, and nothing has to end them. */
  lemma ConstantsMean(word: string, rest: string, vars: Variables)
    ensures SameLetters(word, "TRUE") ==>
              && ParseEnd(word + rest) == Ok(EndTrue, rest) && ParseMes(word + rest) == Ok(MesTrue, rest)
              && ParseTree(word + rest, vars) == Ok(True, rest)
    ensures SameLetters(word, "FALSE") ==>
              && ParseEnd(word + rest) == Ok(EndFalse, rest) && ParseMes(word + rest) == Ok(MesFalse, rest)
              && ParseTree(word + rest, vars) == Ok(False, rest)
  {
    if SameLetters(word, "TRUE") || SameLetters(word, "FALSE") {
      ConstantLetters(word, rest);
      EndConstant(word + rest);
      MesConstant(word + rest);
      TreeConstant(word + rest, vars);
    }
  }

  lemma WordIsNoOther(s: string)
    requires s != "" && s[0] in "tTfF"
    ensures ParseValue(s) == if BoolWord(s, "true") then Ok(BoolValue(true), s[4..])
                             else if BoolWord(s, "false") then Ok(BoolValue(false), s[5..]) else Err
  {
    assert SkipWs(s) == s;
    assert !StartsWith(s, "enum(") by { StartsWithNot(s, "enum(", 0); }
    assert ParseNumber(s) == Err;
  }

  lemma SameTrue(word: string)
    ensures SameLetters(word, "true") == SameLetters(word, "TRUE")
    ensures SameLetters(word, "false") == SameLetters(word, "FALSE")
  {
    assert forall i | 0 <= i < 4 :: Upper("true"[i]) == "TRUE"[i] == Upper("TRUE"[i]);
    assert forall i | 0 <= i < 5 :: Upper("false"[i]) == "FALSE"[i] == Upper("FALSE"[i]);
  }

  /** So may a flag, but a letter or digit right after it is refused. */
  lemma FlagMeans(word: string, rest: string)
    ensures SameLetters(word, "true") ==>
              ParseValue(word + rest) == if rest != "" && IsAlnum(rest[0]) then Err else Ok(BoolValue(true), rest)
    ensures SameLetters(word, "false") ==>
              ParseValue(word + rest) == if rest != "" && IsAlnum(rest[0]) then Err else Ok(BoolValue(false), rest)
  {
    if SameLetters(word, "true") || SameLetters(word, "false") {
      var s := word + rest;
      SameTrue(word);
      ConstantLetters(word, rest);
      WordIsNoOther(s);
      IgnoringCase(s, "true");
      IgnoringCase(s, "false");
      assert s[..|word|] == word;
      if SameLetters(word, "false") {
        assert Upper(s[..4][0]) == 'F';
      } else {
        assert |s| >= 5 ==> s[..5][0] == word[0];
      }
    }
  }

  lemma HexCase(a: char, b: char)
    requires Upper(a) == Upper(b)
    ensures IsHex(a) == IsHex(b) && (IsHex(a) ==> HexValue(a) == HexValue(b))
  {
  }

  /** Hex digits of either case write the same bytes. */
  lemma {:induction false} HexIgnoresCase(s: string, t: string)
    requires SameLetters(s, t)
    ensures var p, q := ParseHexBytes(s), ParseHexBytes(t);
            p.Ok? == q.Ok? && (p.Ok? ==> p.value == q.value && SameLetters(p.rest, q.rest))
  {
    if s != "" { HexCase(s[0], t[0]); }
    if |s| > 1 {
      HexCase(s[1], t[1]);
      if IsHex(s[0]) && IsHex(s[1]) { HexIgnoresCase(s[2..], t[2..]); }
    }
  }

  // ---------------------------------------------------------------- field paths

  predicate Segment(s: string) { s != "" && forall c | c in s :: !EndsPath(c) && c != '.' }

  lemma {:induction false} ReadsSegment(part: string, done: FieldPath, start: string, rest: string)
    requires forall c | c in part :: !EndsPath(c) && c != '.'
    ensures ReadPath(part + rest, done, start) == ReadPath(rest, done, start + part)
    decreases |part|
  {
    if part == "" {
      assert part + rest == rest && start + part == start;
    } else {
      assert part[0] in part;
      assert (part + rest)[1..] == part[1..] + rest && start + [part[0]] + part[1..] == start + part;
      ReadsSegment(part[1..], done, start + [part[0]], rest);
    }
  }

  /** Segments, each followed by a dot. */
  function Dotted(path: FieldPath, rest: string): string {
    if path == [] then rest else path[0] + ("." + Dotted(path[1..], rest))
  }

  lemma {:induction false} ReadsDotted(path: FieldPath, done: FieldPath, rest: string)
    requires forall p | p in path :: Segment(p)
    ensures ReadPath(Dotted(path, rest), done, "") == ReadPath(rest, done + path, "")
    decreases |path|
  {
    if path == [] {
      assert done + path == done;
    } else {
      var more := Dotted(path[1..], rest);
      assert path[0] in path;
      assert "" + path[0] == path[0] && ("." + more)[1..] == more;
      assert done + [path[0]] + path[1..] == done + path;
      ReadsSegment(path[0], done, "", "." + more);
      ReadsDotted(path[1..], done + [path[0]], rest);
    }
  }

  /** A dot may close a path, and the path is read as without it; but nothing may stand empty
      before a dot, and a path has at least one segment. */
  lemma DotsMean(path: FieldPath, last: string, rest: string, more: string)
    requires (forall p | p in path :: Segment(p)) && Segment(last)
    requires rest == "" || EndsPath(rest[0])
    ensures ReadPath(Dotted(path, last + rest), [], "") == Ok(path + [last], rest)
    ensures ReadPath(Dotted(path, rest), [], "") == if path == [] then Err else Ok(path, rest)
    ensures ReadPath(Dotted(path, "." + more), [], "") == Err
  {
    ReadsDotted(path, [], last + rest);
    ReadsDotted(path, [], rest);
    ReadsDotted(path, [], "." + more);
    assert [] + path == path && "" + last == last;
    ReadsSegment(last, path, "", rest);
  }
}
