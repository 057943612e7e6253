/** Rule files (common/config/message_rules.cpp): comment lines, let declarations and one
    final rule, each line a requirement-tree text that may refer to earlier variables. */
module MessageRules {
  import opened Common
  import opened ErdTree
  import opened ErdText
  import opened ErdRoundTrip
  import opened ErdLocality
  import opened ErdSplice
  import opened ErdImage
  import opened ErdReferences
  import opened ErdParser

  // ---------------------------------------------------------------- lines

  predicate Blank(s: string) {
    forall c | c in s :: IsSpace(c)
  }

  function TrimEnd(s: string): (r: string)
    ensures r == "" || !IsSpace(r[|r| - 1])
    ensures |r| <= |s| && s[..|r|] == r && Blank(s[|r|..])
  {
    if s != "" && IsSpace(s[|s| - 1]) then TrimEnd(s[..|s| - 1]) else s
  }

  function Trim(s: string): string {
    TrimEnd(SkipWs(s))
  }

  /** The cursor of a line scanner after white space. */
  method SkipFrom(s: string, i: nat) returns (j: nat)
    requires i <= |s|
    ensures i <= j <= |s| && s[j..] == SkipWs(s[i..])
  {
    j := i;
    while j < |s| && IsSpace(s[j])
      invariant i <= j <= |s| && SkipWs(s[j..]) == SkipWs(s[i..])
    {
      assert s[j..][1..] == s[j + 1..];
      j := j + 1;
    }
  }

  lemma TrimEndStep(s: string, start: nat, end: nat)
    requires start <= end <= |s|
    ensures end > start && IsSpace(s[end - 1]) ==> TrimEnd(s[start..end]) == TrimEnd(s[start..end - 1])
    ensures end == start || !IsSpace(s[end - 1]) ==> TrimEnd(s[start..end]) == s[start..end]
  {
    var t := s[start..end];
    if end > start { assert t[|t| - 1] == s[end - 1] && t[..|t| - 1] == s[start..end - 1]; }
  }

  method SkipBackFrom(s: string, start: nat) returns (end: nat)
    requires start <= |s|
    ensures start <= end <= |s| && s[start..end] == TrimEnd(s[start..])
  {
    end := |s|;
    assert s[start..end] == s[start..];
    while end > start && IsSpace(s[end - 1])
      invariant start <= end <= |s| && TrimEnd(s[start..end]) == TrimEnd(s[start..])
    {
      TrimEndStep(s, start, end);
      end := end - 1;
    }
    TrimEndStep(s, start, end);
  }

  /** Removes white space at both ends. */
  method Trimmed(s: string) returns (r: string)
    ensures r == Trim(s)
  {
    assert s[0..] == s;
    var start := SkipFrom(s, 0);
    var end := SkipBackFrom(s, start);
    r := s[start..end];
  }

  predicate CommentOrBlank(line: string) {
    line == "" || line[0] == '#' || (|line| >= 2 && line[0] == '/' && line[1] == '/')
  }

  /** What a line is: no declaration, a malformed one, or a name and its expression. */
  datatype LetLine = NotLet | BadLet | Let(name: string, expr: string)

  /** The name ends at white space or at the equals sign. */
  function NameEnd(s: string): (n: nat)
    ensures n <= |s|
  {
    if s == "" || IsSpace(s[0]) || s[0] == '=' then 0 else 1 + NameEnd(s[1..])
  }

  function ParseLet(line: string): LetLine {
    if |line| < 4 || !StartsWith(line, "let") || !IsSpace(line[3]) then NotLet
    else
      var s := SkipWs(line[3..]);
      var name := s[..NameEnd(s)];
      var after := SkipWs(s[NameEnd(s)..]);
      if after == "" || after[0] != '=' || !IsIdentifier(name) then BadLet
      else
        var expr := SkipWs(after[1..]);
        if expr == "" then BadLet else Let(name, expr)
  }

  method NameFrom(s: string, start: nat) returns (end: nat)
    requires start <= |s|
    ensures end == start + NameEnd(s[start..]) <= |s|
  {
    end := start;
    while end < |s| && !IsSpace(s[end]) && s[end] != '='
      invariant start <= end <= |s|
      invariant NameEnd(s[start..]) == (end - start) + NameEnd(s[end..])
    {
      assert s[end..][1..] == s[end + 1..];
      end := end + 1;
    }
  }

  method TryParseLet(line: string) returns (r: LetLine)
    ensures r == ParseLet(line)
  {
    if |line| < 4 || !StartsWith(line, "let") || !IsSpace(line[3]) {
      return NotLet;
    }
    var start := SkipFrom(line, 3);
    var i := NameFrom(line, start);
    var name := line[start..i];
    assert line[start..][..i - start] == name && line[start..][i - start..] == line[i..];
    i := SkipFrom(line, i);
    if i >= |line| || line[i] != '=' {
      return BadLet;
    }
    assert line[i..][1..] == line[i + 1..];
    i := SkipFrom(line, i + 1);
    if !IsIdentifier(name) || line[i..] == "" {
      return BadLet;
    }
    return Let(name, line[i..]);
  }

  /** A well-formed declaration is read back, whatever white space separates its parts. */
  lemma LetRoundTrip(name: string, expr: string, gap: string, gap': string, gap'': string)
    requires IsIdentifier(name) && expr != "" && !IsSpace(expr[0])
    requires gap != "" && Blank(gap) && Blank(gap') && Blank(gap'')
    ensures ParseLet("let" + (gap + (name + (gap' + ("=" + (gap'' + expr)))))) == Let(name, expr)
  {
    var afterEquals := gap'' + expr;
    var afterName := gap' + ("=" + afterEquals);
    var s := name + afterName;
    var line := "let" + (gap + s);
    StartsWithSelf("let", gap + s);
    assert gap[0] in gap && line[3] == gap[0] && line[3..] == gap + s;
    IdentifierChars(name);
    BlankBefore(gap, s);
    NameEndOf(name, afterName, gap', afterEquals);
    assert s[..|name|] == name && s[|name|..] == afterName;
    BlankBefore(gap', "=" + afterEquals);
    assert ("=" + afterEquals)[1..] == afterEquals;
    BlankBefore(gap'', expr);
  }

  lemma IdentifierChars(name: string)
    requires IsIdentifier(name)
    ensures name != "" && forall c | c in name :: !IsSpace(c) && c != '='
  {
  }

  lemma {:induction false} BlankBefore(gap: string, s: string)
    requires Blank(gap) && s != "" && !IsSpace(s[0])
    ensures SkipWs(gap + s) == s
  {
    if gap == "" {
      assert gap + s == s;
    } else {
      assert gap[0] in gap && forall c | c in gap[1..] :: c in gap;
      BlankBefore(gap[1..], s);
      assert (gap + s)[1..] == gap[1..] + s;
    }
  }

  lemma NameEndOf(name: string, after: string, gap: string, rest: string)
    requires (forall c | c in name :: !IsSpace(c) && c != '=') && after == gap + ("=" + rest) && Blank(gap)
    ensures NameEnd(name + after) == |name|
  {
    if gap != "" { assert gap[0] in gap && after[0] == gap[0]; }
    NameEndStops(name, after);
  }

  lemma {:induction false} NameEndStops(name: string, after: string)
    requires (forall c | c in name :: !IsSpace(c) && c != '=') && (after == "" || IsSpace(after[0]) || after[0] == '=')
    ensures NameEnd(name + after) == |name|
  {
    if name == "" {
      assert name + after == after;
    } else {
      assert name[0] in name && forall c | c in name[1..] :: c in name;
      NameEndStops(name[1..], after);
      assert (name + after)[1..] == name[1..] + after;
    }
  }

  // ---------------------------------------------------------------- macros

  /** This node's id text, and the id text of a key file, where it can be read. */
  datatype Macros = Macros(nodeId: string, fileNodeId: string -> Option<string>)

  const MY_NODEID := "MY_NODEID()"
  const FROM_FILE := "NODEID_FROM_FILE("

  function ReplaceAll(s: string, word: string, id: string): string
    requires word != ""
  {
    if s == "" then ""
    else if StartsWith(s, word) then id + ReplaceAll(s[|word|..], word, id)
    else [s[0]] + ReplaceAll(s[1..], word, id)
  }

  /** The text up to the next closing parenthesis, and the text after it. */
  function ToClose(s: string): (r: Parsed<string>)
    ensures r.Ok? ==> |r.rest| < |s|
  {
    if s == "" then Err
    else if s[0] == ')' then Ok("", s[1..])
    else
      var (path, rest) :- ToClose(s[1..]);
      Ok([s[0]] + path, rest)
  }

  function ReplaceFiles(s: string, files: string -> Option<string>): Option<string>
    decreases |s|
  {
    if s == "" then Some("")
    else if StartsWith(s, FROM_FILE) then
      match ToClose(s[|FROM_FILE|..])
      case Err => None
      case Ok(path, rest) =>
        match files(path)
        case None => None
        case Some(id) => Prepend(id, ReplaceFiles(rest, files))
    else Prepend([s[0]], ReplaceFiles(s[1..], files))
  }

  function Prepend(p: string, r: Option<string>): Option<string> {
    match r case Some(s) => Some(p + s) case None => None
  }

  function Expand(s: string, macros: Macros): Option<string> {
    ReplaceFiles(ReplaceAll(s, MY_NODEID, macros.nodeId), macros.fileNodeId)
  }

  lemma PrependTwice(p: string, q: string, r: Option<string>)
    ensures Prepend(p, Prepend(q, r)) == Prepend(p + q, r)
  {
    if r.Some? { assert p + (q + r.value) == p + q + r.value; }
  }

  /** The cursor moves over the text, copying it and replacing each occurrence where it stands;
      replaced text is not looked at again. */
  method ReplaceMyNodeId(input: string, id: string) returns (result: string)
    ensures result == ReplaceAll(input, MY_NODEID, id)
  {
    result := input;
    var pos := 0;
    while pos < |result|
      invariant 0 <= pos <= |result|
      invariant result[..pos] + ReplaceAll(result[pos..], MY_NODEID, id) == ReplaceAll(input, MY_NODEID, id)
      decreases |result| - pos
    {
      ghost var before, rest := result[..pos], result[pos..];
      if StartsWith(result[pos..], MY_NODEID) {
        ghost var later := rest[|MY_NODEID|..];
        assert result[pos + |MY_NODEID|..] == later;
        result := result[..pos] + id + result[pos + |MY_NODEID|..];
        Regroup(before, id, ReplaceAll(later, MY_NODEID, id));
        assert result[..pos + |id|] == before + id && result[pos + |id|..] == later;
        pos := pos + |id|;
      } else {
        assert rest[1..] == result[pos + 1..] && result[..pos + 1] == before + [rest[0]];
        Regroup(before, [rest[0]], ReplaceAll(rest[1..], MY_NODEID, id));
        pos := pos + 1;
      }
    }
    assert result[..pos] == result;
  }

  /** The argument up to the next closing parenthesis, and where that is. */
  method FindClose(s: string, start: nat) returns (r: Option<(string, nat)>)
    requires start <= |s|
    ensures r.Some? == ToClose(s[start..]).Ok?
    ensures r.Some? ==> start <= r.value.1 < |s| && Ok(r.value.0, s[r.value.1 + 1..]) == ToClose(s[start..])
  {
    ghost var whole := ToClose(s[start..]);
    var path := "";
    var i := start;
    ContinuesFirst(whole);
    while i < |s| && s[i] != ')'
      invariant start <= i <= |s|
      invariant Continues(whole, path, ToClose(s[i..]))
    {
      assert s[i..][1..] == s[i + 1..];
      ContinuesMore(whole, path, s[i], ToClose(s[i + 1..]));
      path, i := path + [s[i]], i + 1;
    }
    if i == |s| {
      return None;
    }
    assert s[i..][1..] == s[i + 1..] && path + "" == path;
    return Some((path, i));
  }

  method ReplaceFromFiles(input: string, files: string -> Option<string>) returns (r: Option<string>)
    ensures r == ReplaceFiles(input, files)
  {
    var result := input;
    var pos: nat := 0;
    assert Prepend("", ReplaceFiles(input, files)) == ReplaceFiles(input, files) by {
      if ReplaceFiles(input, files).Some? {
        assert "" + ReplaceFiles(input, files).value == ReplaceFiles(input, files).value;
      }
    }
    while pos < |result|
      invariant pos <= |result|
      invariant Prepend(result[..pos], ReplaceFiles(result[pos..], files)) == ReplaceFiles(input, files)
      decreases |result| - pos
    {
      ghost var before, rest := result[..pos], result[pos..];
      if StartsWith(result[pos..], FROM_FILE) {
        var argStart := pos + |FROM_FILE|;
        assert result[argStart..] == rest[|FROM_FILE|..];
        var argEnd := FindClose(result, argStart);
        if argEnd.None? {
          return None;
        }
        var id := files(argEnd.value.0);
        if id.None? {
          return None;
        }
        ghost var later := result[argEnd.value.1 + 1..];
        result := result[..pos] + id.value + result[argEnd.value.1 + 1..];
        PrependTwice(before, id.value, ReplaceFiles(later, files));
        pos := pos + |id.value|;
        assert result[..pos] == before + id.value && result[pos..] == later;
      } else {
        PrependTwice(before, [rest[0]], ReplaceFiles(rest[1..], files));
        assert rest[1..] == result[pos + 1..] && result[..pos + 1] == before + [rest[0]];
        pos := pos + 1;
      }
    }
    assert result[..pos] == result && result + "" == result;
    r := Some(result);
  }

  method ExpandMacros(input: string, macros: Macros) returns (r: Option<string>)
    ensures r == Expand(input, macros)
  {
    var replaced := ReplaceMyNodeId(input, macros.nodeId);
    r := ReplaceFromFiles(replaced, macros.fileNodeId);
  }

  // ---------------------------------------------------------------- rule files

  /** Variables declared so far, and the rule once it has been seen. */
  datatype Rules = Rules(vars: Environment, rule: Option<Tree>)

  /** An expression's text after macro expansion, and the tree it stands for. */
  function ReadExpr(text: string, vars: Environment, macros: Macros): Option<Tree> {
    match Expand(text, macros)
    case None => None
    case Some(expanded) => FromString(expanded, Some(vars))
  }

  /** One entry of the rule file; None where the source throws. */
  function Process(st: Rules, entry: Option<string>, macros: Macros): Option<Rules> {
    if entry.None? then None
    else
      var line := Trim(entry.value);
      if CommentOrBlank(line) then Some(st)
      else if st.rule.Some? then None
      else
        match ParseLet(line)
        case BadLet => None
        case NotLet => AddRule(st, ReadExpr(line, st.vars, macros))
        case Let(name, expr) => if name in st.vars then None else AddVariable(st, name, ReadExpr(expr, st.vars, macros))
  }

  function AddRule(st: Rules, tree: Option<Tree>): Option<Rules> {
    if tree.None? then None else Some(st.(rule := tree))
  }

  function AddVariable(st: Rules, name: string, tree: Option<Tree>): Option<Rules> {
    if tree.None? then None else Some(st.(vars := st.vars[name := tree.value]))
  }

  function ProcessAll(entries: seq<Option<string>>, macros: Macros): Option<Rules> {
    if entries == [] then Some(Rules(map[], None))
    else
      match ProcessAll(entries[..|entries| - 1], macros)
      case None => None
      case Some(st) => Process(st, entries[|entries| - 1], macros)
  }

  /** The tree of a whole rule file. */
  function BuildTree(entries: seq<Option<string>>, macros: Macros): Option<Tree> {
    match ProcessAll(entries, macros)
    case None => None
    case Some(st) => st.rule
  }

  method ReadExpression(text: string, vars: Environment, macros: Macros) returns (r: Option<Tree>)
    ensures r == ReadExpr(text, vars, macros)
  {
    var expanded := ExpandMacros(text, macros);
    if expanded.None? {
      return None;
    }
    r := Parse(expanded.value, Some(vars));
  }

  /** Reads a rule file entry by entry. */
  method BuildMessageRulesTree(entries: seq<Option<string>>, macros: Macros) returns (r: Option<Tree>)
    ensures r == BuildTree(entries, macros)
  {
    var variables: Environment := map[];
    var ruleTree: Option<Tree> := None;
    for i := 0 to |entries|
      invariant ProcessAll(entries[..i], macros) == Some(Rules(variables, ruleTree))
    {
      Failing(entries, i, macros);
      assert entries[..i + 1][..i] == entries[..i];
      if entries[i].None? {
        return None;
      }
      var line := Trimmed(entries[i].value);
      if CommentOrBlank(line) {
        continue;
      }
      if ruleTree.Some? {
        return None;
      }
      var declaration := TryParseLet(line);
      if declaration.BadLet? || (declaration.Let? && declaration.name in variables) {
        return None;
      }
      if declaration.Let? {
        var tree := ReadExpression(declaration.expr, variables, macros);
        if tree.None? {
          return None;
        }
        variables := variables[declaration.name := tree.value];
      } else {
        ruleTree := ReadExpression(line, variables, macros);
        if ruleTree.None? {
          return None;
        }
      }
    }
    assert entries[..|entries|] == entries;
    r := ruleTree;
  }

  /** Nothing after a failing entry makes the file good again. */
  lemma {:induction false} Failing(entries: seq<Option<string>>, i: nat, macros: Macros)
    requires i < |entries|
    ensures ProcessAll(entries[..i + 1], macros) == None ==> ProcessAll(entries, macros) == None
    decreases |entries|
  {
    if i + 1 == |entries| {
      assert entries[..i + 1] == entries;
    } else {
      Failing(entries[..|entries| - 1], i, macros);
      assert entries[..|entries| - 1][..i + 1] == entries[..i + 1];
    }
  }

  // ---------------------------------------------------------------- references are substitution

  /** Macros expand to node id texts, which are not blank. */
  ghost predicate RealMacros(macros: Macros) {
    && !Blank(macros.nodeId)
    && forall path :: macros.fileNodeId(path).Some? ==> !Blank(macros.fileNodeId(path).value)
  }

  lemma {:induction false} SkipsBlank(s: string)
    ensures SkipWs(s) == "" <==> Blank(s)
  {
    if s != "" {
      SkipsBlank(s[1..]);
      assert s == [s[0]] + s[1..];
    }
  }

  lemma NotBlankStart(p: string, s: string)
    requires !Blank(p)
    ensures !Blank(p + s)
  {
    var c :| c in p && !IsSpace(c);
    assert c in p + s;
  }

  lemma NotBlankEnd(p: string, s: string)
    requires !Blank(s)
    ensures !Blank(p + s)
  {
    var c :| c in s && !IsSpace(c);
    assert c in p + s;
  }

  lemma NotBlankRest(s: string)
    requires !Blank(s) && IsSpace(s[0])
    ensures !Blank(s[1..])
  {
    assert s == [s[0]] + s[1..];
  }

  lemma {:induction false} ReplacedNotBlank(s: string, word: string, id: string)
    requires word != "" && !Blank(s) && !Blank(id)
    ensures !Blank(ReplaceAll(s, word, id))
  {
    if StartsWith(s, word) {
      NotBlankStart(id, ReplaceAll(s[|word|..], word, id));
    } else if IsSpace(s[0]) {
      NotBlankRest(s);
      ReplacedNotBlank(s[1..], word, id);
      NotBlankEnd([s[0]], ReplaceAll(s[1..], word, id));
    } else {
      NotBlankStart([s[0]], ReplaceAll(s[1..], word, id));
    }
  }

  lemma {:induction false} FilesNotBlank(s: string, files: string -> Option<string>)
    requires !Blank(s) && (forall path :: files(path).Some? ==> !Blank(files(path).value))
    requires ReplaceFiles(s, files).Some?
    ensures !Blank(ReplaceFiles(s, files).value)
  {
    if StartsWith(s, FROM_FILE) {
      var (path, rest) := (ToClose(s[|FROM_FILE|..]).value, ToClose(s[|FROM_FILE|..]).rest);
      NotBlankStart(files(path).value, ReplaceFiles(rest, files).value);
    } else if IsSpace(s[0]) {
      NotBlankRest(s);
      FilesNotBlank(s[1..], files);
      NotBlankEnd([s[0]], ReplaceFiles(s[1..], files).value);
    } else {
      NotBlankStart([s[0]], ReplaceFiles(s[1..], files).value);
    }
  }

  /** A text that is not blank does not expand to a blank one. */
  lemma ExpandedNotBlank(s: string, macros: Macros)
    requires RealMacros(macros) && !Blank(s) && Expand(s, macros).Some?
    ensures !Blank(Expand(s, macros).value)
  {
    ReplacedNotBlank(s, MY_NODEID, macros.nodeId);
    FilesNotBlank(ReplaceAll(s, MY_NODEID, macros.nodeId), macros.fileNodeId);
  }

  /** No variable holds the unset tree. */
  predicate NoneUnset(vars: Environment) {
    forall name | name in vars :: vars[name] != Unset
  }

  /** An expression that is not blank is not read as the unset tree. */
  lemma ReadNotUnset(text: string, vars: Environment, macros: Macros)
    requires RealMacros(macros) && NoneUnset(vars) && !Blank(text) && ReadExpr(text, vars, macros).Some?
    ensures ReadExpr(text, vars, macros) != Some(Unset)
  {
    ReadExprMeans(text, vars, macros);
    var expanded := Expand(text, macros).value;
    ExpandedNotBlank(text, macros);
    SkipsBlank(expanded);
    UnsetIsReference(expanded, vars);
    LoneBlankVariable(expanded, vars);
  }

  lemma LoneBlankVariable(text: string, vars: Environment)
    ensures NoneUnset(vars) ==> !LoneBlank(text, vars)
  {
  }

  /** The expression of a declaration is not blank. */
  lemma DeclaredNotBlank(entry: Option<string>)
    requires Declared(entry).Let?
    ensures !Blank(Declared(entry).expr)
  {
    SkipsBlank(Declared(entry).expr);
    var line := Trim(entry.value);
    var s := SkipWs(line[3..]);
    SkipSkip(SkipWs(s[NameEnd(s)..])[1..]);
  }

  /** The declaration on an entry's line. */
  function Declared(entry: Option<string>): LetLine {
    if entry.None? then NotLet else ParseLet(Trim(entry.value))
  }

  /** An entry that declares a new variable adds it; any other one leaves the variables alone. */
  lemma ProcessMeans(st: Rules, st': Rules, entry: Option<string>, macros: Macros)
    requires Process(st, entry, macros) == Some(st')
    ensures st'.vars == st.vars
            || (&& Declared(entry).Let? && Declared(entry).name !in st.vars && st'.rule == st.rule
                && ReadExpr(Declared(entry).expr, st.vars, macros).Some?
                && st'.vars == st.vars[Declared(entry).name := ReadExpr(Declared(entry).expr, st.vars, macros).value])
  {
  }

  lemma ReadExprMeans(text: string, vars: Environment, macros: Macros)
    requires ReadExpr(text, vars, macros).Some?
    ensures Expand(text, macros).Some?
            && ReadExpr(text, vars, macros) == FromString(Expand(text, macros).value, Some(vars))
  {
  }

  /** Declared variables stay as they are. */
  lemma VariablesStay(st: Rules, st': Rules, entry: Option<string>, macros: Macros)
    requires Process(st, entry, macros) == Some(st')
    ensures forall name | name in st.vars :: name in st'.vars && st'.vars[name] == st.vars[name]
  {
    ProcessMeans(st, st', entry, macros);
  }

  lemma AddedPrintable(expr: string, vars: Environment, macros: Macros)
    requires ReadExpr(expr, vars, macros).Some? && Sound(Some(vars)) && NoneUnset(vars)
    requires RealMacros(macros) && !Blank(expr)
    ensures var t := ReadExpr(expr, vars, macros).value; t != Unset && (MinFree(t) ==> Printable(t))
  {
    ReadNotUnset(expr, vars, macros);
    ReadExprMeans(expr, vars, macros);
    if MinFree(ReadExpr(expr, vars, macros).value) {
      ParsedIsPrintable(Expand(expr, macros).value, Some(vars));
    }
  }

  /** No variable of a rule file that loads is blank, and every one is printable, unless it holds
      a literal that wrapped to the least 64-bit integer. */
  lemma {:induction false} VariablesPrintable(entries: seq<Option<string>>, macros: Macros)
    requires RealMacros(macros) && ProcessAll(entries, macros).Some?
    ensures NoneUnset(ProcessAll(entries, macros).value.vars) && Sound(Some(ProcessAll(entries, macros).value.vars))
  {
    if entries != [] {
      var before, last := entries[..|entries| - 1], entries[|entries| - 1];
      var st, st' := ProcessAll(before, macros).value, ProcessAll(entries, macros).value;
      VariablesPrintable(before, macros);
      PrintableAfter(st, st', last, macros);
    }
  }

  lemma PrintableAfter(st: Rules, st': Rules, entry: Option<string>, macros: Macros)
    requires Process(st, entry, macros) == Some(st') && RealMacros(macros)
    requires NoneUnset(st.vars) && Sound(Some(st.vars))
    ensures NoneUnset(st'.vars) && Sound(Some(st'.vars))
  {
    ProcessMeans(st, st', entry, macros);
    if st'.vars != st.vars {
      DeclaredNotBlank(entry);
      AddedPrintable(Declared(entry).expr, st.vars, macros);
    }
  }

  /** An expression with its references replaced by the printed trees of the variables. */
  function Inlined(text: string, vars: Environment, macros: Macros): Option<string> {
    match Expand(text, macros)
    case None => None
    case Some(expanded) => Some(SpliceText(expanded, vars))
  }

  /** text, with the variables' printed trees written in, stands for the tree t by itself. */
  predicate StandsFor(text: string, vars: Environment, macros: Macros, t: Option<Tree>) {
    var inlined := Inlined(text, vars, macros);
    inlined.Some? && FromString(inlined.value, None) == t
  }

  lemma ExprIsSubstitution(text: string, vars: Environment, macros: Macros)
    requires Sound(Some(vars)) && ReadExpr(text, vars, macros).Some? && MinFree(ReadExpr(text, vars, macros).value)
    ensures StandsFor(text, vars, macros, ReadExpr(text, vars, macros))
  {
    ReadExprMeans(text, vars, macros);
    var expanded := Expand(text, macros).value;
    if ParseTree(expanded, Some(vars)).Ok? && SkipWs(expanded) != "" { RefsInTree(expanded, vars); }
    SoundRefs(expanded, vars);
    SplicingIsSubstitution(expanded, vars);
  }

  /** References to variables free of the least integer are references to printable ones. */
  lemma SoundRefs(text: string, vars: Environment)
    requires Sound(Some(vars)) && MinFreeAt(vars, References(text, vars))
    ensures PrintableAt(vars, References(text, vars))
  {
  }

  /** The entry at which a file's rule is read: neither comment nor declaration, and followed by
      comments and blank lines only. */
  predicate IsRuleLine(entries: seq<Option<string>>, i: nat)
    requires i < |entries|
  {
    && entries[i].Some? && !CommentOrBlank(Trim(entries[i].value)) && Declared(entries[i]).NotLet?
    && forall j | i < j < |entries| :: entries[j].Some? && CommentOrBlank(Trim(entries[j].value))
  }

  /** With a rule present the last entry either added it or is a comment. */
  lemma RuleWasRead(st: Rules, st': Rules, entry: Option<string>, macros: Macros)
    requires Process(st, entry, macros) == Some(st') && st'.rule.Some?
    ensures entry.Some?
    ensures if CommentOrBlank(Trim(entry.value)) then st' == st
            else Declared(entry).NotLet? && st'.vars == st.vars
                 && st'.rule == ReadExpr(Trim(entry.value), st.vars, macros)
  {
  }

  /** The rule's tree is that of a self-contained text: the file's rule line, macros expanded
      and every reference replaced by the printed tree of its variable. */
  lemma {:induction false} RuleIsSubstitution(entries: seq<Option<string>>, macros: Macros)
    requires RealMacros(macros) && BuildTree(entries, macros).Some? && MinFree(BuildTree(entries, macros).value)
    ensures exists i | 0 <= i < |entries| :: IsRuleLine(entries, i) && ReadsRule(entries, i, macros)
  {
    var before, last := entries[..|entries| - 1], entries[|entries| - 1];
    var st, st' := ProcessAll(before, macros).value, ProcessAll(entries, macros).value;
    RuleWasRead(st, st', last, macros);
    if CommentOrBlank(Trim(last.value)) {
      RuleIsSubstitution(before, macros);
      var i :| 0 <= i < |before| && IsRuleLine(before, i) && ReadsRule(before, i, macros);
      RuleLineEarlier(entries, i);
      assert ReadsRule(entries, i, macros);
    } else {
      VariablesPrintable(before, macros);
      ExprIsSubstitution(Trim(last.value), st.vars, macros);
      assert IsRuleLine(entries, |entries| - 1) && ReadsRule(entries, |entries| - 1, macros);
    }
  }

  predicate ReadsRule(entries: seq<Option<string>>, i: nat, macros: Macros)
    requires i < |entries|
  {
    && entries[i].Some? && ProcessAll(entries, macros).Some?
    && StandsFor(Trim(entries[i].value), ProcessAll(entries, macros).value.vars, macros, BuildTree(entries, macros))
  }

  lemma RuleLineEarlier(entries: seq<Option<string>>, i: nat)
    requires i + 1 < |entries| && IsRuleLine(entries[..|entries| - 1], i)
    requires var last := entries[|entries| - 1]; last.Some? && CommentOrBlank(Trim(last.value))
    ensures IsRuleLine(entries, i) && entries[i] == entries[..|entries| - 1][i]
  {
    var before := entries[..|entries| - 1];
    assert before[i] == entries[i];
    forall j | i < j < |entries| ensures entries[j].Some? && CommentOrBlank(Trim(entries[j].value)) {
      if j < |before| { assert before[j] == entries[j]; }
    }
  }

  /** The same holds of every variable, through any chain of earlier declarations: its tree is
      that of its own declaration with the earlier variables' printed trees written in. */
  lemma {:induction false} VariableIsSubstitution(entries: seq<Option<string>>, macros: Macros, name: string)
    requires RealMacros(macros) && ProcessAll(entries, macros).Some?
    requires name in ProcessAll(entries, macros).value.vars && MinFree(ProcessAll(entries, macros).value.vars[name])
    ensures exists i | 0 <= i < |entries| ::
              DeclaredAt(entries, i, macros, name, ProcessAll(entries, macros).value.vars[name])
  {
    var before, last := entries[..|entries| - 1], entries[|entries| - 1];
    var st, st' := ProcessAll(before, macros).value, ProcessAll(entries, macros).value;
    VariablesStay(st, st', last, macros);
    if name in st.vars {
      VariableIsSubstitution(before, macros, name);
      var i :| 0 <= i < |before| && DeclaredAt(before, i, macros, name, st.vars[name]);
      DeclaredEarlier(entries, i, macros, name, st.vars[name]);
    } else {
      VariablesPrintable(before, macros);
      DeclaredLast(entries, macros, name);
    }
  }

  lemma DeclaredEarlier(entries: seq<Option<string>>, i: nat, macros: Macros, name: string, t: Tree)
    requires i + 1 < |entries| && DeclaredAt(entries[..|entries| - 1], i, macros, name, t)
    ensures DeclaredAt(entries, i, macros, name, t)
  {
    assert entries[..|entries| - 1][i] == entries[i] && entries[..|entries| - 1][..i] == entries[..i];
  }

  lemma DeclaredLast(entries: seq<Option<string>>, macros: Macros, name: string)
    requires entries != [] && ProcessAll(entries, macros).Some?
    requires Sound(Some(ProcessAll(entries[..|entries| - 1], macros).value.vars))
    requires name in ProcessAll(entries, macros).value.vars
    requires name !in ProcessAll(entries[..|entries| - 1], macros).value.vars
    requires MinFree(ProcessAll(entries, macros).value.vars[name])
    ensures DeclaredAt(entries, |entries| - 1, macros, name, ProcessAll(entries, macros).value.vars[name])
  {
    var st, last := ProcessAll(entries[..|entries| - 1], macros).value, entries[|entries| - 1];
    ProcessMeans(st, ProcessAll(entries, macros).value, last, macros);
    ExprIsSubstitution(Declared(last).expr, st.vars, macros);
  }

  /** Entry i declares name, and stands for t with the variables declared before it. */
  predicate DeclaredAt(entries: seq<Option<string>>, i: nat, macros: Macros, name: string, t: Tree)
    requires i < |entries|
  {
    && Declared(entries[i]).Let? && Declared(entries[i]).name == name
    && ProcessAll(entries[..i], macros).Some?
    && StandsFor(Declared(entries[i]).expr, ProcessAll(entries[..i], macros).value.vars, macros, Some(t))
  }
}
