/** The lines of a rule file (common/config/message_rules.cpp): which of them are comments, and what
    the macros in the others become. */
module RuleLines {
  import opened Common
  import opened ErdText
  import opened MessageRules

  // ---------------------------------------------------------------- occurrences

  lemma {:induction false} StartsWithIff(s: string, word: string)
    ensures StartsWith(s, word) <==> |word| <= |s| && s[..|word|] == word
  {
    if word != "" && s != "" {
      StartsWithIff(s[1..], word[1..]);
      assert word == [word[0]] + word[1..] && s == [s[0]] + s[1..];
      if |word| <= |s| { assert s[..|word|] == [s[0]] + s[1..][..|word| - 1]; }
    }
  }

  predicate At(s: string, word: string, i: nat) {
    i + |word| <= |s| && s[i..i + |word|] == word
  }

  /** word stands in s at n and nowhere before. */
  predicate FirstAt(s: string, word: string, n: nat) {
    At(s, word, n) && forall i | 0 <= i < n :: !At(s, word, i)
  }

  predicate Nowhere(s: string, word: string) {
    forall i | 0 <= i <= |s| :: !At(s, word, i)
  }

  lemma AtHead(s: string, word: string)
    ensures At(s, word, 0) <==> StartsWith(s, word)
  {
    StartsWithIff(s, word);
    if |word| <= |s| { assert s[0..|word|] == s[..|word|]; }
  }

  lemma AtTail(s: string, word: string, i: nat)
    requires s != ""
    ensures At(s[1..], word, i) <==> At(s, word, i + 1)
  {
    if i + 1 + |word| <= |s| { assert s[1..][i..i + |word|] == s[i + 1..i + 1 + |word|]; }
  }

  lemma Later(s: string, word: string, n: nat)
    requires word != "" && FirstAt(s, word, n) && n > 0
    ensures s != "" && FirstAt(s[1..], word, n - 1) && !StartsWith(s, word)
  {
    AtTail(s, word, n - 1);
    AtHead(s, word);
    forall i | 0 <= i < n - 1 ensures !At(s[1..], word, i) {
      AtTail(s, word, i);
    }
  }

  lemma NowhereLater(s: string, word: string)
    requires Nowhere(s, word) && s != ""
    ensures Nowhere(s[1..], word) && !StartsWith(s, word)
  {
    AtHead(s, word);
    forall i | 0 <= i <= |s[1..]| ensures !At(s[1..], word, i) {
      AtTail(s, word, i);
    }
  }

  // ---------------------------------------------------------------- MY_NODEID()

  lemma SameTail(s: string, i: nat)
    requires i + 1 <= |s|
    ensures s[1..][i..] == s[i + 1..]
  {
  }

  lemma SameHead(s: string, n: nat)
    requires 0 < n <= |s|
    ensures [s[0]] + s[1..][..n - 1] == s[..n]
  {
  }

  lemma {:induction false} SkipsTo(s: string, word: string, id: string, n: nat)
    requires word != "" && FirstAt(s, word, n)
    ensures ReplaceAll(s, word, id) == s[..n] + ReplaceAll(s[n..], word, id)
  {
    if n == 0 {
      assert s[0..] == s && s[..0] + ReplaceAll(s, word, id) == ReplaceAll(s, word, id);
    } else {
      Later(s, word, n);
      SkipsTo(s[1..], word, id, n - 1);
      SameTail(s, n - 1);
      SameHead(s, n);
      Regroup([s[0]], s[1..][..n - 1], ReplaceAll(s[n..], word, id));
    }
  }

  lemma ReplacesFirst(s: string, word: string, id: string, n: nat)
    requires word != "" && FirstAt(s, word, n)
    ensures ReplaceAll(s, word, id) == s[..n] + (id + ReplaceAll(s[n + |word|..], word, id))
  {
    SkipsTo(s, word, id, n);
    AtFirst(s, word, n);
    assert s[n..][|word|..] == s[n + |word|..];
  }

  lemma AtFirst(s: string, word: string, n: nat)
    requires At(s, word, n)
    ensures StartsWith(s[n..], word)
  {
    StartsWithIff(s[n..], word);
    assert s[n..][..|word|] == s[n..n + |word|];
  }

  lemma {:induction false} ReplacesNothing(s: string, word: string, id: string)
    requires word != "" && Nowhere(s, word)
    ensures ReplaceAll(s, word, id) == s
  {
    if s != "" {
      NowhereLater(s, word);
      ReplacesNothing(s[1..], word, id);
    }
  }

  /** Every MY_NODEID() becomes this node's id: the first one, then those after it, and text without
      one is left alone. */
  lemma NodeIdReplaced(s: string, id: string, n: nat)
    ensures FirstAt(s, "MY_NODEID()", n) ==>
              ReplaceAll(s, MY_NODEID, id) == s[..n] + (id + ReplaceAll(s[n + 11..], MY_NODEID, id))
    ensures Nowhere(s, "MY_NODEID()") ==> ReplaceAll(s, MY_NODEID, id) == s
  {
    if FirstAt(s, "MY_NODEID()", n) { ReplacesFirst(s, MY_NODEID, id, n); }
    if Nowhere(s, "MY_NODEID()") { ReplacesNothing(s, MY_NODEID, id); }
  }

  // ---------------------------------------------------------------- NODEID_FROM_FILE(...)

  lemma {:induction false} ClosesAt(s: string, k: nat)
    requires k < |s| && s[k] == ')' && ')' !in s[..k]
    ensures ToClose(s) == Ok(s[..k], s[k + 1..])
  {
    if k > 0 {
      assert s[0] in s[..k];
      forall c | c in s[1..][..k - 1] ensures c in s[..k] {
        var i :| 0 <= i < k - 1 && s[1..][..k - 1][i] == c;
        assert s[..k][i + 1] == c;
      }
      ClosesAt(s[1..], k - 1);
      assert s[..k] == [s[0]] + s[1..][..k - 1];
    }
  }

  lemma {:induction false} NeverCloses(s: string)
    requires ')' !in s
    ensures ToClose(s) == Err
  {
    if s != "" { NeverCloses(s[1..]); }
  }

  lemma {:induction false} FilesFirst(s: string, files: string -> Option<string>, n: nat)
    requires FirstAt(s, FROM_FILE, n)
    ensures ReplaceFiles(s, files) == Prepend(s[..n], ReplaceFiles(s[n..], files))
  {
    AtHead(s, FROM_FILE);
    if n == 0 {
      assert s[n..] == s;
      if ReplaceFiles(s, files).Some? { assert s[..0] + ReplaceFiles(s, files).value == ReplaceFiles(s, files).value; }
    } else {
      Later(s, FROM_FILE, n);
      FilesFirst(s[1..], files, n - 1);
      assert s[1..][n - 1..] == s[n..];
      PrependTwice([s[0]], s[1..][..n - 1], ReplaceFiles(s[n..], files));
      assert [s[0]] + s[1..][..n - 1] == s[..n];
    }
  }

  lemma {:induction false} FilesNowhere(s: string, files: string -> Option<string>)
    requires Nowhere(s, FROM_FILE)
    ensures ReplaceFiles(s, files) == Some(s)
  {
    if s != "" {
      NowhereLater(s, FROM_FILE);
      FilesNowhere(s[1..], files);
      assert [s[0]] + s[1..] == s;
    }
  }

  /** Every NODEID_FROM_FILE(path) becomes the id in that file: the first one, whose path ends at the
      next parenthesis, then those after it; with a file that cannot be read the line is refused. */
  lemma FileIdReplaced(p: string, path: string, rest: string, files: string -> Option<string>)
    requires ')' !in path
    requires FirstAt(p + ("NODEID_FROM_FILE(" + (path + (")" + rest))), "NODEID_FROM_FILE(", |p|)
    ensures ReplaceFiles(p + ("NODEID_FROM_FILE(" + (path + (")" + rest))), files)
         == if files(path).None? then None else Prepend(p, Prepend(files(path).value, ReplaceFiles(rest, files)))
  {
    var after := path + (")" + rest);
    var call := FROM_FILE + after;
    FilesFirst(p + call, files, |p|);
    assert (p + call)[..|p|] == p && (p + call)[|p|..] == call;
    CallReplaced(call, after, path, rest, files);
  }

  lemma CallReplaced(call: string, after: string, path: string, rest: string, files: string -> Option<string>)
    requires call == FROM_FILE + after && after == path + (")" + rest) && ')' !in path
    ensures ReplaceFiles(call, files)
         == if files(path).None? then None else Prepend(files(path).value, ReplaceFiles(rest, files))
  {
    StartsWithIff(call, FROM_FILE);
    assert call[..17] == FROM_FILE && call[17..] == after;
    assert after[..|path|] == path && after[|path| + 1..] == rest && after[|path|] == ')';
    ClosesAt(after, |path|);
  }

  /** Without the parenthesis the line is refused; text without the macro is left alone. */
  lemma FileMacroMissing(p: string, after: string, files: string -> Option<string>)
    ensures FirstAt(p + ("NODEID_FROM_FILE(" + after), "NODEID_FROM_FILE(", |p|) && ')' !in after ==>
              ReplaceFiles(p + ("NODEID_FROM_FILE(" + after), files).None?
    ensures Nowhere(p, "NODEID_FROM_FILE(") ==> ReplaceFiles(p, files) == Some(p)
  {
    var call := FROM_FILE + after;
    if FirstAt(p + call, FROM_FILE, |p|) && ')' !in after {
      FilesFirst(p + call, files, |p|);
      assert (p + call)[..|p|] == p && (p + call)[|p|..] == call;
      StartsWithIff(call, FROM_FILE);
      assert call[..17] == FROM_FILE && call[17..] == after;
      NeverCloses(after);
    }
    if Nowhere(p, FROM_FILE) { FilesNowhere(p, files); }
  }

  /** Node id macros are expanded first, and file macros in what they leave. */
  lemma ExpansionOrder(s: string, macros: Macros)
    ensures Nowhere(s, "MY_NODEID()") ==> Expand(s, macros) == ReplaceFiles(s, macros.fileNodeId)
    ensures Nowhere(ReplaceAll(s, "MY_NODEID()", macros.nodeId), "NODEID_FROM_FILE(") ==>
              Expand(s, macros) == Some(ReplaceAll(s, "MY_NODEID()", macros.nodeId))
  {
    if Nowhere(s, "MY_NODEID()") { ReplacesNothing(s, MY_NODEID, macros.nodeId); }
    var t := ReplaceAll(s, "MY_NODEID()", macros.nodeId);
    if Nowhere(t, "NODEID_FROM_FILE(") { FilesNowhere(t, macros.fileNodeId); }
  }

  // ---------------------------------------------------------------- comments

  /** A line of white space, or one whose text starts with # or with two slashes. */
  predicate IsComment(line: string) {
    var text := SkipWs(line);
    text == "" || text[0] == '#' || (|text| >= 2 && text[0] == '/' && text[1] == '/')
  }

  lemma {:induction false} TrimEndStarts(s: string, k: nat)
    requires k < |s| && !IsSpace(s[k])
    ensures k < |TrimEnd(s)| && TrimEnd(s)[..k + 1] == s[..k + 1]
  {
    if IsSpace(s[|s| - 1]) {
      TrimEndStarts(s[..|s| - 1], k);
      assert s[..|s| - 1][..k + 1] == s[..k + 1];
    }
  }

  lemma {:induction false} SkipWsStarts(s: string)
    ensures SkipWs(s) == "" || !IsSpace(SkipWs(s)[0])
  {
    if s != "" { SkipWsStarts(s[1..]); }
  }

  lemma CommentIff(line: string)
    ensures CommentOrBlank(Trim(line)) <==> IsComment(line)
  {
    var text, t := SkipWs(line), Trim(line);
    SkipWsStarts(line);
    if text != "" {
      TrimEndStarts(text, 0);
      assert t[..1] == text[..1] && t[0] == t[..1][0] == text[0];
      if |text| >= 2 && text[1] == '/' {
        TrimEndStarts(text, 1);
        assert t[1] == t[..2][1] == text[..2][1];
      }
    }
  }

  /** A comment can stand anywhere and changes nothing. */
  lemma {:induction false} CommentsIgnored(before: seq<Option<string>>, line: string, after: seq<Option<string>>,
                                           macros: Macros)
    requires IsComment(line)
    ensures ProcessAll(before + [Some(line)] + after, macros) == ProcessAll(before + after, macros)
    decreases |after|
  {
    var commented := before + [Some(line)];
    if after == [] {
      CommentIff(line);
      OneMore(before, Some(line), macros);
      assert commented + [] == commented && before + [] == before;
    } else {
      var less, last := after[..|after| - 1], after[|after| - 1];
      CommentsIgnored(before, line, less, macros);
      assert after == less + [last];
      Regroup(commented, less, [last]);
      Regroup(before, less, [last]);
      OneMore(commented + less, last, macros);
      OneMore(before + less, last, macros);
    }
  }

  lemma OneMore(entries: seq<Option<string>>, last: Option<string>, macros: Macros)
    ensures ProcessAll(entries + [last], macros)
         == match ProcessAll(entries, macros) case None => None case Some(st) => Process(st, last, macros)
  {
    assert (entries + [last])[..|entries|] == entries;
  }

  /** After the rule, anything but a comment makes the file bad. */
  lemma OnlyCommentsAfterRule(before: seq<Option<string>>, line: string, macros: Macros)
    requires BuildTree(before, macros).Some?
    ensures BuildTree(before + [Some(line)], macros)
         == if IsComment(line) then BuildTree(before, macros) else None
  {
    CommentIff(line);
    assert (before + [Some(line)])[..|before|] == before;
  }

  // ---------------------------------------------------------------- declarations

  /** line is `let name = expr`, with these gaps. */
  predicate Declares(line: string, name: string, expr: string, gap: string, gap': string, gap'': string) {
    && IsIdentifier(name) && expr != "" && !IsSpace(expr[0])
    && gap != "" && Blank(gap) && Blank(gap') && Blank(gap'')
    && line == "let" + (gap + (name + (gap' + ("=" + (gap'' + expr)))))
  }

  lemma {:induction false} GapBefore(s: string) returns (gap: string)
    ensures Blank(gap) && s == gap + SkipWs(s)
  {
    if s != "" && IsSpace(s[0]) {
      var more := GapBefore(s[1..]);
      gap := [s[0]] + more;
    } else {
      gap := "";
    }
  }

  lemma DeclaredParts(line: string) returns (gap: string, gap': string, gap'': string)
    requires ParseLet(line).Let?
    ensures var let := ParseLet(line); Declares(line, let.name, let.expr, gap, gap', gap'')
  {
    var s := SkipWs(line[3..]);
    var tail := s[NameEnd(s)..];
    var after := SkipWs(tail);
    gap := GapBefore(line[3..]);
    gap' := GapBefore(tail);
    gap'' := GapBefore(after[1..]);
    StartsWithIff(line, "let");
    SkipWsStarts(line[3..]);
    SkipWsStarts(after[1..]);
    assert line == "let" + line[3..] && s == s[..NameEnd(s)] + tail && after == "=" + after[1..];
    assert gap != "" by { assert s != "" ==> !IsSpace(s[0]); }
  }

  /** A line declares a variable exactly when it has this form, and is taken for a declaration,
      good or bad, exactly when it begins with let and white space. */
  lemma LetIff(line: string, name: string, expr: string)
    ensures ParseLet(line) == Let(name, expr)
       <==> exists gap, gap', gap'' :: Declares(line, name, expr, gap, gap', gap'')
    ensures ParseLet(line).NotLet? <==> !(|line| >= 4 && line[..3] == "let" && IsSpace(line[3]))
  {
    StartsWithIff(line, "let");
    if ParseLet(line) == Let(name, expr) {
      var gap, gap', gap'' := DeclaredParts(line);
    }
    forall gap, gap', gap'' | Declares(line, name, expr, gap, gap', gap'')
      ensures ParseLet(line) == Let(name, expr)
    {
      LetRoundTrip(name, expr, gap, gap', gap'');
    }
  }

  predicate Letter(c: char) { 'a' <= c <= 'z' || 'A' <= c <= 'Z' || c == '_' }

  /** An identifier is a letter or underscore, then any of these or digits. */
  lemma IdentifierIff(name: string)
    ensures IsIdentifier(name) <==>
            name != "" && Letter(name[0]) && forall i | 1 <= i < |name| :: Letter(name[i]) || '0' <= name[i] <= '9'
  {
  }
}
