/**
 Keeping one line in the user's SSH configuration that includes the managed one, ahead of every
 `Host` and `Match` section.
 */
module SshInclude {
  import opened Text
  import opened TextFacts
  import opened SshConfig

  // ---------------------------------------------------------------------------
  // Line lists, with any tests for including lines and for section lines
  // ---------------------------------------------------------------------------

  /** `retain` of the lines that fail the test */
  function Without(lines: seq<string>, test: LineTest): seq<string> {
    if lines == [] then []
    else (if test(lines[0]) then [] else [lines[0]]) + Without(lines[1..], test)
  }

  /** Put `line` before the first section line, set off by blank lines, and drop other lines like it. */
  function Insert(lines: seq<string>, includes: LineTest, scope: LineTest, line: string): seq<string> {
    var kept := Without(lines, includes);
    var at := FirstFrom(kept, 0, scope);
    Splice(kept[..at], [line], kept[at..])
  }

  /** Exactly one line includes, and no section line precedes it. */
  ghost predicate OneAhead(lines: seq<string>, includes: LineTest, scope: LineTest) {
    exists i | 0 <= i < |lines| :: AheadAt(lines, includes, scope, i)
  }

  ghost predicate AheadAt(lines: seq<string>, includes: LineTest, scope: LineTest, i: nat)
    requires i < |lines|
  {
    && includes(lines[i])
    && (forall j | 0 <= j < |lines| && j != i :: !includes(lines[j]))
    && (forall j | 0 <= j < i :: !scope(lines[j]))
  }

  /** The non-blank lines that fail the test, in order. */
  function Essence(lines: seq<string>, test: LineTest): seq<string> {
    if lines == [] then [] else EssenceOf(lines[0], test) + Essence(lines[1..], test)
  }

  function EssenceOf(line: string, test: LineTest): seq<string> {
    if test(line) || line == "" then [] else [line]
  }

  /** How many lines satisfy the test. */
  function CountOf(lines: seq<string>, test: LineTest): nat {
    if lines == [] then 0 else (if test(lines[0]) then 1 else 0) + CountOf(lines[1..], test)
  }

  ghost predicate Within(a: LineTest, b: LineTest) {
    forall line :: a(line) ==> b(line)
  }

  lemma {:induction false} WithoutLacks(lines: seq<string>, test: LineTest)
    ensures forall i | 0 <= i < |Without(lines, test)| :: !test(Without(lines, test)[i])
    ensures forall x | x in Without(lines, test) :: x in lines
  {
    if lines != [] {
      WithoutLacks(lines[1..], test);
    }
  }

  lemma {:induction false} EssenceAppend(a: seq<string>, b: seq<string>, includes: LineTest)
    ensures Essence(a + b, includes) == Essence(a, includes) + Essence(b, includes)
  {
    if a == [] {
      assert a + b == b;
    } else {
      assert (a + b)[1..] == a[1..] + b;
      calc {
        Essence(a + b, includes);
        EssenceOf(a[0], includes) + Essence(a[1..] + b, includes);
        { EssenceAppend(a[1..], b, includes); }
        EssenceOf(a[0], includes) + (Essence(a[1..], includes) + Essence(b, includes));
        EssenceOf(a[0], includes) + Essence(a[1..], includes) + Essence(b, includes);
      }
    }
  }

  lemma {:induction false} EssenceWithout(lines: seq<string>, includes: LineTest, test: LineTest)
    requires Within(includes, test)
    ensures Essence(Without(lines, includes), test) == Essence(lines, test)
  {
    if lines != [] {
      EssenceWithout(lines[1..], includes, test);
      var own := if includes(lines[0]) then [] else [lines[0]];
      EssenceAppend(own, Without(lines[1..], includes), test);
    }
  }

  lemma EssenceSplice(before: seq<string>, line: string, after: seq<string>, includes: LineTest)
    requires includes(line)
    ensures Essence(Splice(before, [line], after), includes) == Essence(before + after, includes)
  {
    var pre, tail := Padded(before), if after == [] then [] else [""] + after;
    EssencePadded(before, after, includes);
    EssenceMiddle(pre, line, tail, includes);
    EssenceAppend(before, after, includes);
  }

  lemma EssenceMiddle(pre: seq<string>, line: string, tail: seq<string>, includes: LineTest)
    requires includes(line)
    ensures Essence(pre + [line] + tail, includes) == Essence(pre, includes) + Essence(tail, includes)
  {
    EssenceAppend(pre + [line], tail, includes);
    EssenceDropsLast(pre, line, includes);
  }

  lemma EssenceDropsLast(pre: seq<string>, line: string, includes: LineTest)
    requires includes(line) || line == ""
    ensures Essence(pre + [line], includes) == Essence(pre, includes)
  {
    EssenceAppend(pre, [line], includes);
    EssenceOfOne(line, includes);
  }

  lemma EssenceOfOne(line: string, includes: LineTest)
    requires includes(line) || line == ""
    ensures Essence([line], includes) == []
  {
    assert Essence([line][1..], includes) == [];
  }

  lemma EssencePadded(before: seq<string>, after: seq<string>, includes: LineTest)
    ensures Essence(Padded(before), includes) == Essence(before, includes)
    ensures Essence([""] + after, includes) == Essence(after, includes)
  {
    EssenceDropsLast(before, "", includes);
    EssenceOfOne("", includes);
    EssenceAppend([""], after, includes);
  }

  /** Inserting keeps every other non-blank line as it is, and their order. */
  lemma InsertKeeps(lines: seq<string>, includes: LineTest, test: LineTest, scope: LineTest, line: string)
    requires Within(includes, test) && test(line)
    ensures Essence(Insert(lines, includes, scope, line), test) == Essence(lines, test)
  {
    var kept := Without(lines, includes);
    var at := FirstFrom(kept, 0, scope);
    EssenceSplice(kept[..at], line, kept[at..], test);
    assert kept[..at] + kept[at..] == kept;
    EssenceWithout(lines, includes, test);
  }

  lemma InsertOneAhead(lines: seq<string>, includes: LineTest, test: LineTest, scope: LineTest, line: string)
    requires test(line) && !test("") && !scope("")
    requires forall x | x in Without(lines, includes) :: !test(x)
    ensures OneAhead(Insert(lines, includes, scope, line), test, scope)
  {
    var kept := Without(lines, includes);
    var at := FirstFrom(kept, 0, scope);
    FirstFromIsFirst(kept, 0, scope);
    SpliceAhead(kept[..at], line, kept[at..], test, scope);
  }

  lemma SpliceAhead(before: seq<string>, line: string, after: seq<string>, includes: LineTest, scope: LineTest)
    requires includes(line) && !includes("") && !scope("")
    requires forall i | 0 <= i < |before| :: !includes(before[i]) && !scope(before[i])
    requires forall i | 0 <= i < |after| :: !includes(after[i])
    ensures OneAhead(Splice(before, [line], after), includes, scope)
  {
    var out, pre := Splice(before, [line], after), Padded(before);
    var i := |pre|;
    assert out[i] == line;
    forall j | 0 <= j < |out| && j != i ensures !includes(out[j]) && (j < i ==> !scope(out[j])) {
      if j < i {
        assert out[j] == pre[j];
      } else {
        assert out[j] == ([""] + after)[j - i - 1];
      }
    }
    assert AheadAt(out, includes, scope, i);
  }

  lemma StripKeepsOneAhead(lines: seq<string>, includes: LineTest, scope: LineTest)
    requires IgnoresCr(includes) && IgnoresCr(scope) && OneAhead(lines, includes, scope)
    ensures OneAhead(StripCrs(lines), includes, scope)
  {
    var i :| 0 <= i < |lines| && AheadAt(lines, includes, scope, i);
    assert AheadAt(StripCrs(lines), includes, scope, i);
  }

  lemma {:induction false} CountAppend(a: seq<string>, b: seq<string>, test: LineTest)
    ensures CountOf(a + b, test) == CountOf(a, test) + CountOf(b, test)
  {
    if a == [] {
      assert a + b == b;
    } else {
      assert (a + b)[1..] == a[1..] + b;
      CountAppend(a[1..], b, test);
    }
  }

  lemma {:induction false} CountNone(lines: seq<string>, test: LineTest)
    ensures CountOf(lines, test) == 0 <==> forall x | x in lines :: !test(x)
  {
    if lines != [] {
      CountNone(lines[1..], test);
      assert lines == [lines[0]] + lines[1..];
    }
  }

  lemma CountMiddle(pre: seq<string>, line: string, tail: seq<string>, test: LineTest)
    requires test(line)
    ensures CountOf(pre + [line] + tail, test) == CountOf(pre, test) + 1 + CountOf(tail, test)
  {
    CountAppend(pre + [line], tail, test);
    CountAppend(pre, [line], test);
    assert [line][1..] == [];
  }

  lemma CountBlank(lines: seq<string>, test: LineTest)
    requires !test("")
    ensures CountOf(lines + [""], test) == CountOf([""] + lines, test) == CountOf(lines, test)
  {
    CountAppend(lines, [""], test);
    CountAppend([""], lines, test);
    CountNone([""], test);
  }

  /** Inserting where nothing is dropped adds one. */
  lemma InsertAddsOne(lines: seq<string>, includes: LineTest, test: LineTest, scope: LineTest, line: string)
    requires test(line) && !test("") && Without(lines, includes) == lines
    ensures CountOf(Insert(lines, includes, scope, line), test) == CountOf(lines, test) + 1
  {
    var at := FirstFrom(lines, 0, scope);
    CountSplice(lines[..at], line, lines[at..], test);
    CountCut(lines, at, test);
  }

  lemma CountCut(lines: seq<string>, at: nat, test: LineTest)
    requires at <= |lines|
    ensures CountOf(lines[..at], test) + CountOf(lines[at..], test) == CountOf(lines, test)
  {
    CountAppend(lines[..at], lines[at..], test);
    assert lines[..at] + lines[at..] == lines;
  }

  lemma CountSplice(before: seq<string>, line: string, after: seq<string>, test: LineTest)
    requires test(line) && !test("")
    ensures CountOf(Splice(before, [line], after), test) == CountOf(before, test) + 1 + CountOf(after, test)
  {
    CountMiddle(Padded(before), line, if after == [] then [] else [""] + after, test);
    CountBlank(before, test);
    CountBlank(after, test);
  }

  lemma OneAheadIsOne(lines: seq<string>, test: LineTest, scope: LineTest)
    requires OneAhead(lines, test, scope)
    ensures CountOf(lines, test) == 1
  {
    var i :| 0 <= i < |lines| && AheadAt(lines, test, scope, i);
    var pre, tail := lines[..i], lines[i + 1..];
    assert lines == pre + [lines[i]] + tail;
    CountMiddle(pre, lines[i], tail, test);
    forall x | x in pre + tail ensures !test(x) {
      var j :| 0 <= j < |pre + tail| && (pre + tail)[j] == x;
      assert x == lines[if j < i then j else j + 1];
    }
    assert forall x | x in pre :: x in pre + tail;
    assert forall x | x in tail :: x in pre + tail;
    CountNone(pre, test);
    CountNone(tail, test);
  }

  lemma {:induction false} StripKeepsCount(lines: seq<string>, test: LineTest)
    requires IgnoresCr(test)
    ensures CountOf(StripCrs(lines), test) == CountOf(lines, test)
  {
    if lines != [] {
      StripKeepsCount(lines[1..], test);
      assert StripCrs(lines)[1..] == StripCrs(lines[1..]);
    }
  }

  /** What reading back makes of the non-blank lines: a carriage return goes, and a line with nothing else. */
  function Shorn(lines: seq<string>): seq<string> {
    if lines == [] then [] else (if StripCr(lines[0]) == "" then [] else [StripCr(lines[0])]) + Shorn(lines[1..])
  }

  lemma {:induction false} EssenceOfStripped(lines: seq<string>, test: LineTest)
    requires IgnoresCr(test)
    ensures Essence(StripCrs(lines), test) == Shorn(Essence(lines, test))
  {
    if lines != [] {
      var rest := Essence(lines[1..], test);
      EssenceOfStripped(lines[1..], test);
      assert StripCrs(lines)[1..] == StripCrs(lines[1..]);
      if EssenceOf(lines[0], test) != [] {
        assert Essence(lines, test)[1..] == rest;
      } else {
        assert Essence(lines, test) == rest;
        assert EssenceOf(StripCr(lines[0]), test) == [];
      }
    }
  }

  function Weight(lines: seq<string>): nat {
    if lines == [] then 0 else |lines[0]| + Weight(lines[1..])
  }

  lemma WeightCons(lines: seq<string>, line: string, rest: seq<string>)
    requires lines == [line] + rest
    ensures Weight(lines) == |line| + Weight(rest)
  {
    assert lines[1..] == rest;
  }

  /** Shearing changes nothing exactly where no line ends in a carriage return. */
  lemma {:induction false} ShornWeight(lines: seq<string>)
    requires "" !in lines
    ensures Sheared(lines, Shorn(lines))
  {
    if lines != [] {
      var first, rest := StripCr(lines[0]), lines[1..];
      assert lines == [lines[0]] + rest;
      ShornWeight(rest);
      if first != "" {
        WeightCons(Shorn(lines), first, Shorn(rest));
      } else {
        assert Shorn(lines) == Shorn(rest);
      }
      assert lines[0] in lines;
    }
  }

  /** The lines have lost at most carriage returns, and nothing exactly where there were none to lose. */
  ghost predicate Sheared(before: seq<string>, after: seq<string>) {
    && Weight(after) <= Weight(before)
    && (NoneEndsInCr(before) ==> after == before)
    && (!NoneEndsInCr(before) ==> Weight(after) < Weight(before))
  }

  function Repeat(step: string -> string, contents: string, n: nat): string {
    if n == 0 then contents else step(Repeat(step, contents, n - 1))
  }

  lemma {:induction false} RepeatAdds(step: string -> string, count: string -> int, contents: string, n: nat)
    requires forall x :: count(step(x)) == count(x) + 1
    ensures count(Repeat(step, contents, n)) == count(contents) + n
  {
    if n > 0 {
      RepeatAdds(step, count, contents, n - 1);
    }
  }

  lemma {:induction false} RepeatShears(step: string -> string, view: string -> seq<string>, contents: string, n: nat)
    requires n >= 1 && forall x :: Sheared(view(x), view(step(x)))
    ensures Sheared(view(contents), view(Repeat(step, contents, n)))
  {
    assert Repeat(step, contents, 0) == contents;
    if n > 1 {
      RepeatShears(step, view, contents, n - 1);
    }
  }

  lemma {:induction false} EssenceLacksBlank(lines: seq<string>, test: LineTest)
    ensures "" !in Essence(lines, test)
  {
    if lines != [] {
      EssenceLacksBlank(lines[1..], test);
    }
  }

  method InsertLine(lines: seq<string>, includes: LineTest, scope: LineTest, line: string) returns (out: seq<string>)
    requires !scope("")
    ensures out == Insert(lines, includes, scope, line)
  {
    var kept := Without(lines, includes);
    var insertAt := FirstFrom(kept, 0, scope);
    FirstFromIsFirst(kept, 0, scope);
    out := kept[..insertAt];
    if out != [] && out[|out| - 1] != "" {
      out := out + [""];
    }
    out := out + [line];
    if insertAt < |kept| && kept[insertAt] != "" {
      out := out + [""];
    }
    out := out + kept[insertAt..];
  }

  // ---------------------------------------------------------------------------
  // Files
  // ---------------------------------------------------------------------------

  predicate LineIncludes(line: string, path: string) {
    var trimmed := Trim(line);
    && "Include " <= trimmed
    && exists token | token in Tokens(trimmed[|"Include "|..]) :: token == "\"" + path + "\"" || token == path
  }

  predicate IsScopeLine(line: string) {
    "Host " <= TrimStart(line) || "Match " <= TrimStart(line)
  }

  function Including(path: string): LineTest {
    line => LineIncludes(line, path)
  }

  function IncludeLine(path: string): string {
    "Include " + ("\"" + path + "\"")
  }

  /** A line without any carriage returns at its end. */
  function Bare(line: string): string {
    TrimEndOf(line, '\r')
  }

  /** The line is the include line, but for carriage returns at its end. */
  function CopyOf(path: string): LineTest {
    line => Bare(line) == IncludeLine(path)
  }

  /** The line includes the path or is a copy of the include line. */
  function Mentioning(path: string): LineTest {
    line => LineIncludes(line, path) || Bare(line) == IncludeLine(path)
  }

  function EnsureInclude(contents: string, path: string): string {
    Render(Insert(Lines(contents), Including(path), IsScopeLine, IncludeLine(path)))
  }

  function Ensuring(path: string): string -> string {
    contents => EnsureInclude(contents, path)
  }

  /** The user's configuration after `n` runs. */
  function AfterRuns(contents: string, path: string, n: nat): string {
    Repeat(Ensuring(path), contents, n)
  }

  lemma TestsIgnoreCr(path: string)
    ensures IgnoresCr(Including(path)) && IgnoresCr(IsScopeLine)
    ensures IgnoresCr(CopyOf(path)) && IgnoresCr(Mentioning(path))
  {
    forall line ensures LineIncludes(StripCr(line), path) == LineIncludes(line, path)
                && IsScopeLine(StripCr(line)) == IsScopeLine(line) && Bare(StripCr(line)) == Bare(line) {
      TrimIgnoresCr(line);
      PrefixIgnoresCr("Host ", TrimStart(StripCr(line)));
      PrefixIgnoresCr("Match ", TrimStart(StripCr(line)));
    }
  }

  lemma IncludeLineIncludes(path: string)
    requires NoWhitespace(path)
    ensures LineIncludes(IncludeLine(path), path)
  {
    var quoted := "\"" + path + "\"";
    var line := IncludeLine(path);
    assert TrimStart(line) == line;
    assert line[|line| - 1] == '"';
    assert TrimEnd(line) == line;
    assert line[|"Include "|..] == quoted;
    TokensOfWord(quoted);
    assert quoted in Tokens(Trim(line)[|"Include "|..]);
  }

  lemma WhitespacePathNeverIncluded(line: string, path: string)
    requires !NoWhitespace(path)
    ensures !LineIncludes(line, path)
  {
    var c :| c in path && IsWhitespace(c);
    assert c in "\"" + path + "\"";
  }

  lemma {:induction false} NothingToDrop(lines: seq<string>, path: string)
    requires !NoWhitespace(path)
    ensures Without(lines, Including(path)) == lines
  {
    if lines != [] {
      WhitespacePathNeverIncluded(lines[0], path);
      NothingToDrop(lines[1..], path);
    }
  }

  /** The code recognises every copy of the line it writes, if the path has no whitespace. */
  lemma {:induction false} CopyIncludes(line: string, path: string)
    requires NoWhitespace(path) && CopyOf(path)(line)
    ensures LineIncludes(line, path)
  {
    if EndsInCr(line) {
      CopyIncludes(StripCr(line), path);
      TrimIgnoresCr(line);
    } else {
      IncludeLineIncludes(path);
    }
  }

  lemma {:induction false} BareIsPrefix(line: string)
    ensures Bare(line) <= line
  {
    if EndsInCr(line) {
      BareIsPrefix(line[..|line| - 1]);
    }
  }

  /** Section lines are `Host` or `Match`, a space and anything, after any whitespace, and no others. */
  lemma ScopeLinesAre(indent: string, rest: string)
    requires Blank(indent)
    ensures IsScopeLine(indent + ("Host " + rest)) && IsScopeLine(indent + ("Match " + rest))
    ensures rest != "" && !IsWhitespace(rest[0]) && rest[0] != 'H' && rest[0] != 'M' ==> !IsScopeLine(indent + rest)
  {
    TrimStartOfIndented(indent, "Host " + rest);
    TrimStartOfIndented(indent, "Match " + rest);
    if rest != "" && !IsWhitespace(rest[0]) {
      TrimStartOfIndented(indent, rest);
    }
  }

  /** An include line with any words includes exactly those words, each as it is or in double quotes. */
  lemma IncludesItsWords(words: seq<string>, path: string)
    requires words != [] && forall w | w in words :: w != "" && NoWhitespace(w)
    ensures LineIncludes("Include " + JoinWith(words, " "), path) <==> path in words || "\"" + path + "\"" in words
  {
    var joined := JoinWith(words, " ");
    var line := "Include " + joined;
    JoinEndsPlain(words);
    TokensOfJoined(words);
    assert TrimStart(line) == line;
    assert line[|line| - 1] == joined[|joined| - 1];
    assert Trim(line) == line && line[|"Include "|..] == joined;
  }

  lemma {:induction false} JoinEndsPlain(words: seq<string>)
    requires words != [] && forall w | w in words :: w != "" && NoWhitespace(w)
    ensures var joined := JoinWith(words, " "); joined != "" && !IsWhitespace(joined[|joined| - 1])
  {
    if |words| > 1 {
      assert forall w | w in words[1..] :: w in words;
      JoinEndsPlain(words[1..]);
    } else {
      assert words[0] in words && words[0][|words[0]| - 1] in words[0];
    }
  }

  /** The line that is written. */
  lemma IncludeLineIs(path: string)
    ensures IncludeLine(path) == "Include \"" + path + "\""
  {
    assert "Include \"" == "Include " + "\"";
  }

  /** A path with a newline makes an include line that no single line can be. */
  lemma NewlineHasNoCopy(lines: seq<string>, path: string)
    requires '\n' in path && forall x | x in lines :: '\n' !in x
    ensures forall x | x in lines :: !CopyOf(path)(x)
  {
    forall x | x in lines ensures !CopyOf(path)(x) {
      BareIsPrefix(x);
      assert '\n' in IncludeLine(path);
    }
  }

  lemma BlankIsNothing(path: string)
    ensures !Including(path)("") && !IsScopeLine("") && !CopyOf(path)("") && CopyOf(path)(IncludeLine(path))
  {
    var line := IncludeLine(path);
    assert line[|line| - 1] == '"';
  }

  lemma InsertedLinesReadable(lines: seq<string>, path: string)
    requires '\n' !in path && forall x | x in lines :: '\n' !in x
    ensures Insert(lines, Including(path), IsScopeLine, IncludeLine(path)) != [""]
    ensures forall x | x in Insert(lines, Including(path), IsScopeLine, IncludeLine(path)) :: '\n' !in x
  {
    var kept, line := Without(lines, Including(path)), IncludeLine(path);
    assert '\n' !in line;
    WithoutLacks(lines, Including(path));
    var at := FirstFrom(kept, 0, IsScopeLine);
    SpliceReadable(kept[..at], line, kept[at..]);
  }

  lemma SpliceReadable(before: seq<string>, line: string, after: seq<string>)
    requires line != "" && '\n' !in line
    requires forall x | x in before :: '\n' !in x
    requires forall x | x in after :: '\n' !in x
    ensures Splice(before, [line], after) != [""]
    ensures forall x | x in Splice(before, [line], after) :: '\n' !in x
  {
    var out := Splice(before, [line], after);
    assert out[|Padded(before)|] == line;
  }

  /** One run, read back as lines. */
  lemma RunReadBack(contents: string, path: string)
    requires '\n' !in path
    ensures Lines(EnsureInclude(contents, path))
         == StripCrs(Insert(Lines(contents), Including(path), IsScopeLine, IncludeLine(path)))
  {
    InsertedLinesReadable(Lines(contents), path);
    LinesOfRender(Insert(Lines(contents), Including(path), IsScopeLine, IncludeLine(path)));
  }

  /** One run leaves one such line ahead, if all those before are dropped. */
  lemma RunOneAhead(contents: string, path: string, test: LineTest)
    requires '\n' !in path && test(IncludeLine(path)) && !test("") && IgnoresCr(test)
    requires forall x | x in Without(Lines(contents), Including(path)) :: !test(x)
    ensures OneAhead(Lines(EnsureInclude(contents, path)), test, IsScopeLine)
  {
    var lines, line := Lines(contents), IncludeLine(path);
    BlankIsNothing(path);
    TestsIgnoreCr(path);
    InsertOneAhead(lines, Including(path), test, IsScopeLine, line);
    RunReadBack(contents, path);
    StripKeepsOneAhead(Insert(lines, Including(path), IsScopeLine, line), test, IsScopeLine);
  }

  /** Without whitespace in the path, one run leaves one including line, and it is the line written. */
  lemma PlainRun(contents: string, path: string)
    requires NoWhitespace(path)
    ensures OneAhead(Lines(EnsureInclude(contents, path)), Including(path), IsScopeLine)
    ensures OneAhead(Lines(EnsureInclude(contents, path)), CopyOf(path), IsScopeLine)
  {
    var kept := Without(Lines(contents), Including(path));
    assert IsWhitespace('\n');
    IncludeLineIncludes(path);
    BlankIsNothing(path);
    TestsIgnoreCr(path);
    WithoutLacks(Lines(contents), Including(path));
    forall x | x in kept ensures !Including(path)(x) && !CopyOf(path)(x) {
      if CopyOf(path)(x) {
        CopyIncludes(x, path);
      }
    }
    RunOneAhead(contents, path, Including(path));
    RunOneAhead(contents, path, CopyOf(path));
  }

  function CopiesIn(path: string): string -> int {
    contents => CountOf(Lines(contents), CopyOf(path))
  }

  /** With whitespace in the path the code does not recognise its own line: every run adds another copy. */
  lemma CopiesPileUp(contents: string, path: string, n: nat)
    requires !NoWhitespace(path) && '\n' !in path
    ensures CopiesIn(path)(AfterRuns(contents, path, n)) == CopiesIn(path)(contents) + n
  {
    var step, count := Ensuring(path), CopiesIn(path);
    forall x ensures count(step(x)) == count(x) + 1 {
      RunAddsCopy(x, path);
    }
    RepeatAdds(step, count, contents, n);
  }

  lemma RunAddsCopy(contents: string, path: string)
    requires !NoWhitespace(path) && '\n' !in path
    ensures CountOf(Lines(EnsureInclude(contents, path)), CopyOf(path)) == CountOf(Lines(contents), CopyOf(path)) + 1
  {
    var lines, line := Lines(contents), IncludeLine(path);
    BlankIsNothing(path);
    TestsIgnoreCr(path);
    NothingToDrop(lines, path);
    InsertAddsOne(lines, Including(path), CopyOf(path), IsScopeLine, line);
    RunReadBack(contents, path);
    StripKeepsCount(Insert(lines, Including(path), IsScopeLine, line), CopyOf(path));
  }

  /** The runs leave one copy all the same: one run, on a file without any. */
  predicate FirstCopy(contents: string, path: string, n: nat) {
    '\n' !in path && n == 1 && CopiesIn(path)(contents) == 0
  }

  /**
   After one or more runs on any configuration, the file has exactly one copy of the include line, with
   no section line before it, if and only if the path has no whitespace, or this is the first copy.  In
   the former case no other line includes the path either.
   */
  lemma IncludedOnceAhead(contents: string, path: string, n: nat)
    requires n >= 1
    ensures OneAhead(Lines(AfterRuns(contents, path, n)), CopyOf(path), IsScopeLine) <==>
              NoWhitespace(path) || FirstCopy(contents, path, n)
    ensures NoWhitespace(path) ==> OneAhead(Lines(AfterRuns(contents, path, n)), Including(path), IsScopeLine)
  {
    var before := AfterRuns(contents, path, n - 1);
    var lines := Lines(AfterRuns(contents, path, n));
    if NoWhitespace(path) {
      PlainRun(before, path);
    } else if '\n' in path {
      NewlineHasNoCopy(lines, path);
    } else {
      CopiesPileUp(contents, path, n);
      if FirstCopy(contents, path, n) {
        FirstRun(contents, path);
      } else if OneAhead(lines, CopyOf(path), IsScopeLine) {
        OneAheadIsOne(lines, CopyOf(path), IsScopeLine);
      }
    }
  }

  lemma FirstRun(contents: string, path: string)
    requires !NoWhitespace(path) && FirstCopy(contents, path, 1)
    ensures OneAhead(Lines(EnsureInclude(contents, path)), CopyOf(path), IsScopeLine)
  {
    NothingToDrop(Lines(contents), path);
    CountNone(Lines(contents), CopyOf(path));
    BlankIsNothing(path);
    TestsIgnoreCr(path);
    RunOneAhead(contents, path, CopyOf(path));
  }

  /** The non-blank lines that have nothing to do with the managed path. */
  function OthersIn(path: string): string -> seq<string> {
    contents => Essence(Lines(contents), Mentioning(path))
  }

  lemma RunShears(contents: string, path: string)
    requires '\n' !in path
    ensures Sheared(OthersIn(path)(contents), OthersIn(path)(EnsureInclude(contents, path)))
  {
    var lines, line := Lines(contents), IncludeLine(path);
    BlankIsNothing(path);
    TestsIgnoreCr(path);
    InsertKeeps(lines, Including(path), Mentioning(path), IsScopeLine, line);
    RunReadBack(contents, path);
    EssenceOfStripped(Insert(lines, Including(path), IsScopeLine, line), Mentioning(path));
    EssenceLacksBlank(lines, Mentioning(path));
    ShornWeight(Essence(lines, Mentioning(path)));
  }

  /**
   The other non-blank lines keep their content and order through any number of runs, exactly if none
   of them ends in a carriage return.
   */
  lemma OthersKeptExactly(contents: string, path: string, n: nat)
    requires n >= 1 && '\n' !in path
    ensures OthersIn(path)(AfterRuns(contents, path, n)) == OthersIn(path)(contents) <==>
              NoneEndsInCr(OthersIn(path)(contents))
  {
    var step, view := Ensuring(path), OthersIn(path);
    forall x ensures Sheared(view(x), view(step(x))) {
      RunShears(x, path);
    }
    RepeatShears(step, view, contents, n);
  }

  lemma UnrelatedLine(path: string)
    ensures !Mentioning(path)("a\r")
  {
    var line := "a\r";
    BareIsPrefix(line);
    assert IncludeLine(path)[0] == 'I';
    assert TrimStart(line) == line;
    assert line[..1] == "a" && TrimEnd("a") == "a";
    assert Trim(line) == "a";
  }

  lemma LineWithCr()
    ensures Lines("a\r\r\n") == ["a\r"]
  {
    var line := "a\r";
    assert "a\r\r\n" == line + "\r" + "\n" + "";
    LinesCons(line + "\r", "");
    assert StripCr(line + "\r") == line;
  }

  lemma EssenceOfOther(line: string, test: LineTest)
    requires line != "" && !test(line)
    ensures Essence([line], test) == [line]
  {
    assert Essence([line][1..], test) == [];
  }

  /** A line that loses its second carriage return, whatever is included and however often. */
  lemma CarriageReturnLost(path: string, n: nat)
    requires n >= 1 && '\n' !in path
    ensures OthersIn(path)("a\r\r\n") == ["a\r"]
    ensures OthersIn(path)(AfterRuns("a\r\r\n", path, n)) != ["a\r"]
  {
    var contents, line := "a\r\r\n", "a\r";
    LineWithCr();
    UnrelatedLine(path);
    EssenceOfOther(line, Mentioning(path));
    assert line in [line] && EndsInCr(line);
    OthersKeptExactly(contents, path, n);
  }

  /** The two files that an install rewrites; a missing file reads as empty. */
  class ConfigFiles {
    var main: string
    var managed: string

    method EnsureOpenshellInclude(path: string)
      modifies this`main
      ensures main == EnsureInclude(old(main), path)
    {
      BlankIsNothing(path);
      var out := InsertLine(Lines(main), Including(path), IsScopeLine, IncludeLine(path));
      main := JoinWith(out, "\n");
      if main != [] {
        main := main + "\n";
      }
    }

    method InstallSshConfig(exe: string, path: string, gateway: string, name: string)
      modifies this
      ensures main == EnsureInclude(old(main), path)
      ensures managed == InstallInto(Managed(exe), old(managed), Install(gateway, name))
    {
      EnsureOpenshellInclude(path);
      var i := Install(gateway, name);
      InstallStep(exe, managed, i);
      managed := UpsertHostBlock(managed, HostAlias(name), RenderSshConfig(exe, i));
    }
  }
}
