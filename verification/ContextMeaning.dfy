/**
 What ignore rules mean in a tree whose names have no `*`, where the matcher is exact.
 */
module ContextMeaning {
  import opened Text
  import opened Glob
  import opened BuildContext
  import opened ContextNames

  // ---------------------------------------------------------------------------
  // One pattern
  // ---------------------------------------------------------------------------

  /** The path is the directory's own or below it. */
  predicate AtOrBelow(path: string, dir: string) {
    path == dir || dir + "/" <= path
  }

  /** A pattern without a slash matches the first or last name; another the whole path, or a directory and what is below it. */
  predicate PlainMeans(pattern: string, path: string, isDir: bool) {
    if '/' !in pattern then
      Matches(pattern, LastComponent(path)) || Matches(pattern, FirstComponent(path))
    else
      Matches(pattern, path) || (isDir && AtOrBelow(path, TrimEndOf(pattern, '/')))
  }

  /** The directory's name merely begins with the pattern's text: `a/b` before `a/bc`. */
  predicate Overshoots(pattern: string, path: string, isDir: bool) {
    var dir := TrimEndOf(pattern, '/');
    && isDir && '/' in pattern
    && dir < path && path[|dir|] != '/'
    && !Matches(pattern, path)
  }

  lemma MatcherExactOn(pattern: string, text: string)
    requires '*' !in text
    ensures Accepts(pattern, text) == Matches(pattern, text)
  {
    MatcherExactIffNoStarInText(text);
  }

  lemma ComponentsLackStar(path: string)
    requires '*' !in path
    ensures '*' !in FirstComponent(path) && '*' !in LastComponent(path)
  {
    SplitKeeps(path, '/', '*');
    var pieces := SplitOn(path, '/');
    assert pieces[0] in pieces && pieces[|pieces| - 1] in pieces;
  }

  /**
   On a path without a `*` a pattern applies if it means the path, and beyond that exactly to the
   directories it overshoots to: the code means what it should if and only if it does not overshoot.
   */
  lemma PlainExact(pattern: string, path: string, isDir: bool)
    requires '*' !in path
    ensures PlainAccepts(pattern, path, isDir) <==> PlainMeans(pattern, path, isDir) || Overshoots(pattern, path, isDir)
    ensures PlainAccepts(pattern, path, isDir) == PlainMeans(pattern, path, isDir) <==> !Overshoots(pattern, path, isDir)
  {
    ComponentsLackStar(path);
    MatcherExactOn(pattern, FirstComponent(path));
    MatcherExactOn(pattern, LastComponent(path));
    MatcherExactOn(pattern, path);
    PrefixCases(TrimEndOf(pattern, '/'), path);
  }

  /** A text begins with another by being it or going on, at a slash or elsewhere. */
  lemma PrefixCases(dir: string, path: string)
    ensures dir <= path <==> AtOrBelow(path, dir) || (dir < path && path[|dir|] != '/')
    ensures AtOrBelow(path, dir) ==> !(dir < path && path[|dir|] != '/')
  {
    if dir + "/" <= path {
      assert path[..|dir|] == (dir + "/")[..|dir|] && (dir + "/")[|dir|] == '/';
    }
    if dir < path && path[|dir|] == '/' {
      assert path[..|dir| + 1] == dir + "/";
    }
  }

  // ---------------------------------------------------------------------------
  // Rules
  // ---------------------------------------------------------------------------

  predicate PlainCovers(pattern: string, path: string, isDir: bool) {
    PlainMeans(pattern, path, isDir) || Overshoots(pattern, path, isDir)
  }

  ghost predicate GlobCovers(pattern: string, path: string, isDir: bool) {
    if ANY_DIRS <= pattern then
      exists tail :: IsTail(tail, path) && PlainCovers(StripAnyDirs(pattern), tail, isDir)
    else
      PlainCovers(pattern, path, isDir)
  }

  lemma GlobExact(pattern: string, path: string, isDir: bool)
    requires '*' !in path
    ensures GlobAccepts(pattern, path, isDir) == GlobCovers(pattern, path, isDir)
  {
    if ANY_DIRS <= pattern {
      forall tail | IsTail(tail, path)
        ensures PlainAccepts(StripAnyDirs(pattern), tail, isDir) == PlainCovers(StripAnyDirs(pattern), tail, isDir)
      {
        PlainExact(StripAnyDirs(pattern), tail, isDir);
      }
    } else {
      PlainExact(pattern, path, isDir);
    }
  }

  ghost predicate Covers(rule: IgnorePattern, path: string, isDir: bool) {
    GlobCovers(TrimStartOf(rule.pattern, '/'), path, isDir)
  }

  /** Rule `i` is the last that covers the path, and it is not a negation. */
  ghost predicate Excludes(rules: seq<IgnorePattern>, i: nat, path: string, isDir: bool)
    requires i < |rules|
  {
    Covers(rules[i], path, isDir) && !rules[i].negated && forall j | i < j < |rules| :: !Covers(rules[j], path, isDir)
  }

  ghost predicate Excluded(path: string, isDir: bool, rules: seq<IgnorePattern>) {
    exists i | 0 <= i < |rules| :: Excludes(rules, i, path, isDir)
  }

  lemma IgnoredIsExcluded(path: string, isDir: bool, rules: seq<IgnorePattern>)
    requires '*' !in path
    ensures Ignored(path, isDir, rules) == Excluded(path, isDir, rules)
  {
    forall i | 0 <= i < |rules| ensures RuleApplies(rules[i], path, isDir) == Covers(rules[i], path, isDir) {
      GlobExact(TrimStartOf(rules[i].pattern, '/'), path, isDir);
    }
    forall i | 0 <= i < |rules| ensures Decides(rules, i, path, isDir) == Excludes(rules, i, path, isDir) {
    }
  }

  // ---------------------------------------------------------------------------
  // Trees
  // ---------------------------------------------------------------------------

  lemma {:induction false} RewrittenLacks(s: string, c: char)
    requires c !in s && c != '/'
    ensures c !in ForwardSlashes(s)
  {
    if s != [] {
      RewrittenLacks(s[1..], c);
    }
  }

  lemma {:induction false} JoinLacks(pieces: seq<string>, c: char)
    requires c != '/' && forall piece | piece in pieces :: c !in piece
    ensures c !in JoinWith(pieces, "/")
  {
    if |pieces| > 1 {
      JoinLacks(pieces[1..], c);
    }
  }

  /** Neither the file nor a directory above it is excluded. */
  ghost predicate Reached(path: seq<string>, rules: seq<IgnorePattern>) {
    forall k | 1 <= k <= |path| :: !Excluded(RelativeName(path[..k]), k < |path|, rules)
  }

  lemma VisibleIsReached(path: seq<string>, rules: seq<IgnorePattern>)
    requires forall x | x in path :: '*' !in x
    ensures Visible([], path, rules) == Reached(path, rules)
  {
    forall k | 1 <= k <= |path|
      ensures Ignored(RelativeName([] + path[..k]), k < |path|, rules) == Excluded(RelativeName(path[..k]), k < |path|, rules)
    {
      assert [] + path[..k] == path[..k];
      assert forall x | x in path[..k] :: x in path;
      JoinLacks(path[..k], '*');
      RewrittenLacks(JoinWith(path[..k], "/"), '*');
      IgnoredIsExcluded(RelativeName(path[..k]), k < |path|, rules);
    }
  }

  /** The archive in terms of what patterns mean: exact for every tree without a `*` in its names. */
  lemma ContextMeansRules(entries: seq<Entry>, rules: seq<IgnorePattern>)
    requires WellFormed(entries)
    requires forall path, x | FileAt(entries, path) && x in path :: '*' !in x
    ensures forall path: seq<string>, name: string ::
              TarEntry(path, name) in Contribution([], entries, rules) <==>
              FileAt(entries, path) && Reached(path, rules) && name == RelativeName(path)
  {
    ContextExact(entries, rules);
    forall path | FileAt(entries, path) ensures Visible([], path, rules) == Reached(path, rules) {
      VisibleIsReached(path, rules);
    }
  }

  // ---------------------------------------------------------------------------
  // A rule that overshoots
  // ---------------------------------------------------------------------------

  /** The rule `a/b` also prunes the directory `a/bc`, which it does not mean. */
  lemma PrefixPrunesSibling()
    ensures PlainAccepts("a/b", "a/bc", true) && !PlainMeans("a/b", "a/bc", true) && Overshoots("a/b", "a/bc", true)
  {
    assert !Matches("a/b", "a/bc") by {
      assert "a/b"[1..] == "/b" && "/b"[1..] == "b" && "b"[1..] == "";
      assert "a/bc"[1..] == "/bc" && "/bc"[1..] == "bc" && "bc"[1..] == "c";
    }
    assert "a/bc"[..3] == "a/b" && "a/bc"[3] == 'c';
    assert TrimEndOf("a/b", '/') == "a/b" && "a/b"[1] == '/';
    PrefixCases("a/b", "a/bc");
  }

  /** So a file below that directory is left out of the archive of every tree. */
  lemma SiblingFileLeftOut(entries: seq<Entry>, name: string)
    requires WellFormed(entries)
    ensures TarEntry(["a", "bc", "f"], name) !in Contribution([], entries, [IgnorePattern("a/b", false)])
  {
    var path, rules := ["a", "bc", "f"], [IgnorePattern("a/b", false)];
    ContextExact(entries, rules);
    PrefixPrunesSibling();
    assert RelativeName([] + path[..2]) == "a/bc" by {
      assert [] + path[..2] == ["a", "bc"] && ["a", "bc"][1..] == ["bc"];
      assert JoinWith(["a", "bc"], "/") == "a/bc";
      PlainText("a/bc");
    }
    assert TrimStartOf("a/b", '/') == "a/b";
    assert RuleApplies(rules[0], "a/bc", true);
    assert Decides(rules, 0, "a/bc", true);
    assert Ignored("a/bc", true, rules);
  }

  lemma {:induction false} PlainText(s: string)
    requires '\\' !in s
    ensures ForwardSlashes(s) == s
  {
    if s != [] {
      PlainText(s[1..]);
      assert s == [s[0]] + s[1..];
    }
  }

  // ---------------------------------------------------------------------------
  // A leading slash
  // ---------------------------------------------------------------------------

  /** A rule may begin with a slash or not: the paths it is tried on never do. */
  lemma LeadingSlashIgnored(pattern: string, negated: bool, path: string, isDir: bool)
    ensures RuleApplies(IgnorePattern("/" + pattern, negated), path, isDir)
         == RuleApplies(IgnorePattern(pattern, negated), path, isDir)
    ensures pattern == "" || pattern[0] != '/' ==>
              RuleApplies(IgnorePattern(pattern, negated), path, isDir) == GlobAccepts(pattern, path, isDir)
  {
    assert ("/" + pattern)[1..] == pattern;
  }

  // ---------------------------------------------------------------------------
  // A single rule without a slash
  // ---------------------------------------------------------------------------

  lemma OneRule(rule: IgnorePattern, path: string, isDir: bool)
    requires !rule.negated
    ensures Ignored(path, isDir, [rule]) <==> RuleApplies(rule, path, isDir)
  {
    if RuleApplies(rule, path, isDir) {
      assert Decides([rule], 0, path, isDir);
    }
  }

  lemma SlashFreeRule(pattern: string, path: seq<string>, isDir: bool)
    requires '/' !in pattern && IsPath(path) && forall x | x in path :: '\\' !in x
    ensures RuleApplies(IgnorePattern(pattern, false), RelativeName(path), isDir) <==>
              Accepts(pattern, path[|path| - 1]) || Accepts(pattern, path[0])
  {
    NameGivesPath(path);
    SlashFreePattern(pattern, RelativeName(path), path, isDir);
  }

  lemma SlashFreePattern(pattern: string, text: string, pieces: seq<string>, isDir: bool)
    requires '/' !in pattern && SplitOn(text, '/') == pieces
    ensures RuleApplies(IgnorePattern(pattern, false), text, isDir) <==>
              Accepts(pattern, pieces[|pieces| - 1]) || Accepts(pattern, pieces[0])
  {
    assert TrimStartOf(pattern, '/') == pattern;
    assert ANY_DIRS[2] == '/';
  }

  /**
   A rule without a slash is tried on the first and last name of a path only, but the walk tries it on
   every path on the way: alone, it leaves out exactly the files with an accepted name anywhere.
   */
  lemma SlashFreeRuleReachesEveryName(pattern: string, path: seq<string>)
    requires '/' !in pattern && IsPath(path) && forall x | x in path :: '\\' !in x
    ensures Visible([], path, [IgnorePattern(pattern, false)]) <==> forall x | x in path :: !Accepts(pattern, x)
  {
    var rule := IgnorePattern(pattern, false);
    forall k | 1 <= k <= |path|
      ensures Ignored(RelativeName([] + path[..k]), k < |path|, [rule]) <==>
                Accepts(pattern, path[k - 1]) || Accepts(pattern, path[0])
    {
      assert [] + path[..k] == path[..k];
      assert forall x | x in path[..k] :: x in path;
      OneRule(rule, RelativeName(path[..k]), k < |path|);
      SlashFreeRule(pattern, path[..k], k < |path|);
    }
    if Visible([], path, [rule]) {
      forall x | x in path ensures !Accepts(pattern, x) {
        var i :| 0 <= i < |path| && path[i] == x;
        assert !Ignored(RelativeName([] + path[..i + 1]), i + 1 < |path|, [rule]);
      }
    } else {
      var k :| 1 <= k <= |path| && Ignored(RelativeName([] + path[..k]), k < |path|, [rule]);
      assert path[k - 1] in path && path[0] in path;
    }
  }
}
