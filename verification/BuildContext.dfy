/**
 Which files of a directory tree go into the build context archive.
 */
module BuildContext {
  import opened Text
  import opened Glob

  // ---------------------------------------------------------------------------
  // Patterns with slashes
  // ---------------------------------------------------------------------------

  const ANY_DIRS := "**/"

  function FirstComponent(path: string): string {
    SplitOn(path, '/')[0]
  }

  function LastComponent(path: string): string {
    var pieces := SplitOn(path, '/');
    pieces[|pieces| - 1]
  }

  /** A pattern without a leading any-directories part. */
  predicate PlainAccepts(pattern: string, path: string, isDir: bool) {
    if '/' !in pattern then
      Accepts(pattern, LastComponent(path)) || Accepts(pattern, FirstComponent(path))
    else
      Accepts(pattern, path) || (isDir && TrimEndOf(pattern, '/') <= path)
  }

  /** `tail` is the path itself or what follows one of its slashes. */
  ghost predicate IsTail(tail: string, path: string) {
    tail == path || exists i :: 0 <= i < |path| && path[i] == '/' && tail == path[i + 1..]
  }

  /** The pattern with all its leading any-directories parts removed, and whether there were any. */
  function StripAnyDirs(pattern: string): string {
    if ANY_DIRS <= pattern then StripAnyDirs(pattern[|ANY_DIRS|..]) else pattern
  }

  /**
   What a pattern matches: with at least one leading any-directories part the rest must match some
   tail of the path, without one it must match the path.
   */
  ghost predicate GlobAccepts(pattern: string, path: string, isDir: bool) {
    if ANY_DIRS <= pattern then
      exists tail :: IsTail(tail, path) && PlainAccepts(StripAnyDirs(pattern), tail, isDir)
    else
      PlainAccepts(pattern, path, isDir)
  }

  lemma TailOfTail(a: string, b: string, c: string)
    requires IsTail(a, b) && IsTail(b, c)
    ensures IsTail(a, c)
  {
    if a != b && b != c {
      var i :| 0 <= i < |b| && b[i] == '/' && a == b[i + 1..];
      var j :| 0 <= j < |c| && c[j] == '/' && b == c[j + 1..];
      assert c[i + j + 1] == '/' && a == c[i + j + 1 + 1..];
    }
  }

  /** One recursive step of the matcher is one more tail. */
  lemma AnyDirsStep(rest: string, path: string, isDir: bool)
    ensures GlobAccepts("**/" + rest, path, isDir)
       <==> exists tail :: IsTail(tail, path) && GlobAccepts(rest, tail, isDir)
  {
    var pattern := ANY_DIRS + rest;
    var plain := StripAnyDirs(rest);
    assert pattern[|ANY_DIRS|..] == rest;
    assert StripAnyDirs(pattern) == plain;
    if GlobAccepts(pattern, path, isDir) {
      var tail :| IsTail(tail, path) && PlainAccepts(plain, tail, isDir);
      assert IsTail(tail, tail);
      assert GlobAccepts(rest, tail, isDir);
    }
    if tail :| IsTail(tail, path) && GlobAccepts(rest, tail, isDir) {
      if ANY_DIRS <= rest {
        var inner :| IsTail(inner, tail) && PlainAccepts(plain, inner, isDir);
        TailOfTail(inner, tail, path);
      }
    }
  }

  function RepeatAnyDirs(n: nat, rest: string): string {
    if n == 0 then rest else ANY_DIRS + RepeatAnyDirs(n - 1, rest)
  }

  /** Repeating the leading any-directories part changes nothing. */
  lemma {:induction false} RepeatedAnyDirsCollapse(n: nat, rest: string, path: string, isDir: bool)
    requires n >= 1
    ensures GlobAccepts(RepeatAnyDirs(n, rest), path, isDir) == GlobAccepts("**/" + rest, path, isDir)
  {
    StripRepeated(n, rest);
    StripRepeated(1, rest);
    assert RepeatAnyDirs(1, rest) == ANY_DIRS + RepeatAnyDirs(0, rest);
  }

  lemma {:induction false} StripRepeated(n: nat, rest: string)
    ensures StripAnyDirs(RepeatAnyDirs(n, rest)) == StripAnyDirs(rest)
  {
    if n != 0 {
      StripRepeated(n - 1, rest);
      assert RepeatAnyDirs(n, rest)[|ANY_DIRS|..] == RepeatAnyDirs(n - 1, rest);
    }
  }

  method GlobMatch(pattern: string, path: string, isDir: bool) returns (matched: bool)
    ensures matched == GlobAccepts(pattern, path, isDir)
    decreases |pattern|
  {
    if ANY_DIRS <= pattern {
      var rest := pattern[|ANY_DIRS|..];
      assert pattern == ANY_DIRS + rest;
      AnyDirsStep(rest, path, isDir);
      matched := GlobMatch(rest, path, isDir);
      assert IsTail(path, path);
      var i := 0;
      while !matched && i < |path|
        invariant 0 <= i <= |path|
        invariant matched ==> exists tail :: IsTail(tail, path) && GlobAccepts(rest, tail, isDir)
        invariant !matched ==> !GlobAccepts(rest, path, isDir)
        invariant !matched ==>
                    forall j | 0 <= j < i && path[j] == '/' :: !GlobAccepts(rest, path[j + 1..], isDir)
      {
        if path[i] == '/' {
          assert IsTail(path[i + 1..], path);
          matched := GlobMatch(rest, path[i + 1..], isDir);
        }
        i := i + 1;
      }
      return;
    }
    if '/' !in pattern {
      matched := SimpleGlobMatch(pattern, LastComponent(path));
      if !matched {
        matched := SimpleGlobMatch(pattern, FirstComponent(path));
      }
      return;
    }
    matched := SimpleGlobMatch(pattern, path);
    matched := matched || (isDir && TrimEndOf(pattern, '/') <= path);
  }

  // ---------------------------------------------------------------------------
  // Ignore rules
  // ---------------------------------------------------------------------------

  datatype IgnorePattern = IgnorePattern(pattern: string, negated: bool)

  ghost predicate RuleApplies(rule: IgnorePattern, path: string, isDir: bool) {
    GlobAccepts(TrimStartOf(rule.pattern, '/'), path, isDir)
  }

  /** Rule `i` is the last that applies. */
  ghost predicate Last(rules: seq<IgnorePattern>, i: nat, path: string, isDir: bool)
    requires i < |rules|
  {
    RuleApplies(rules[i], path, isDir) && forall j | i < j < |rules| :: !RuleApplies(rules[j], path, isDir)
  }

  ghost predicate Decides(rules: seq<IgnorePattern>, i: nat, path: string, isDir: bool)
    requires i < |rules|
  {
    Last(rules, i, path, isDir) && !rules[i].negated
  }

  /** The last rule that applies is not a negation. */
  ghost predicate Ignored(path: string, isDir: bool, rules: seq<IgnorePattern>) {
    exists i | 0 <= i < |rules| :: Decides(rules, i, path, isDir)
  }

  lemma IgnoredStep(rules: seq<IgnorePattern>, k: nat, path: string, isDir: bool)
    requires k < |rules|
    ensures Ignored(path, isDir, rules[..k + 1])
         == if RuleApplies(rules[k], path, isDir) then !rules[k].negated else Ignored(path, isDir, rules[..k])
  {
    var before, after := rules[..k], rules[..k + 1];
    assert after[k] == rules[k];
    if RuleApplies(rules[k], path, isDir) {
      assert Ignored(path, isDir, after) ==> !rules[k].negated;
      assert !rules[k].negated ==> Decides(after, k, path, isDir);
    } else {
      forall i | 0 <= i < k ensures Decides(after, i, path, isDir) == Decides(before, i, path, isDir) {
        DecidesEarlier(rules, k, i, path, isDir);
      }
      assert !Decides(after, k, path, isDir);
    }
  }

  lemma DecidesEarlier(rules: seq<IgnorePattern>, k: nat, i: nat, path: string, isDir: bool)
    requires i < k < |rules| && !RuleApplies(rules[k], path, isDir)
    ensures Decides(rules[..k + 1], i, path, isDir) == Decides(rules[..k], i, path, isDir)
  {
    var before, after := rules[..k], rules[..k + 1];
    assert after == before + [rules[k]];
    assert forall j | 0 <= j < k :: after[j] == before[j];
    if Last(after, i, path, isDir) {
      forall j | i < j < k ensures !RuleApplies(before[j], path, isDir) {
        assert after[j] == before[j];
      }
    }
  }

  method IsIgnored(path: string, isDir: bool, rules: seq<IgnorePattern>) returns (ignored: bool)
    ensures ignored == Ignored(path, isDir, rules)
  {
    ignored := false;
    for k := 0 to |rules|
      invariant ignored == Ignored(path, isDir, rules[..k])
    {
      var matches := GlobMatch(TrimStartOf(rules[k].pattern, '/'), path, isDir);
      IgnoredStep(rules, k, path, isDir);
      if matches {
        ignored := !rules[k].negated;
      }
    }
    assert rules[..|rules|] == rules;
  }

  // ---------------------------------------------------------------------------
  // The walk
  // ---------------------------------------------------------------------------

  /** A symlink-free directory entry; `children` is in the order the directory is read. */
  datatype Entry = File(name: string) | Dir(name: string, children: seq<Entry>)

  /** A member of the archive: the file it was read from and the name it was given. */
  datatype TarEntry = TarEntry(source: seq<string>, name: string)

  class TarBuilder {
    var entries: seq<TarEntry>

    constructor ()
      ensures entries == []
    {
      entries := [];
    }

    method AppendPathWithName(source: seq<string>, name: string)
      modifies this
      ensures entries == old(entries) + [TarEntry(source, name)]
    {
      entries := entries + [TarEntry(source, name)];
    }
  }

  /** `replace('\\', "/")` */
  function ForwardSlashes(s: string): (r: string)
    ensures |r| == |s| && '\\' !in r
  {
    if s == [] then [] else [if s[0] == '\\' then '/' else s[0]] + ForwardSlashes(s[1..])
  }

  function RelativeName(path: seq<string>): string {
    ForwardSlashes(JoinWith(path, "/"))
  }

  /** The archive members that a list of entries of directory `dir` contributes. */
  ghost function Contribution(dir: seq<string>, entries: seq<Entry>, rules: seq<IgnorePattern>): seq<TarEntry>
    decreases entries, 0
  {
    if entries == [] then []
    else EntryContribution(dir, entries[0], rules) + Contribution(dir, entries[1..], rules)
  }

  /** What one entry contributes: nothing if it is ignored, a file itself, a directory its entries. */
  ghost function EntryContribution(dir: seq<string>, entry: Entry, rules: seq<IgnorePattern>): seq<TarEntry>
    decreases entry, 1
  {
    var path := dir + [entry.name];
    if Ignored(RelativeName(path), entry.Dir?, rules) then []
    else if entry.Dir? then Contribution(path, entry.children, rules)
    else [TarEntry(path, RelativeName(path))]
  }

  lemma ContributionStep(dir: seq<string>, entries: seq<Entry>, i: nat, rules: seq<IgnorePattern>)
    requires i < |entries|
    ensures Contribution(dir, entries[i..], rules)
         == EntryContribution(dir, entries[i], rules) + Contribution(dir, entries[i + 1..], rules)
  {
    assert entries[i..][1..] == entries[i + 1..];
  }

  method AddEntry(dir: seq<string>, entry: Entry, rules: seq<IgnorePattern>, builder: TarBuilder)
    modifies builder
    ensures builder.entries == old(builder.entries) + EntryContribution(dir, entry, rules)
    decreases entry, 1
  {
    var path := dir + [entry.name];
    var ignored := IsIgnored(RelativeName(path), entry.Dir?, rules);
    if ignored {
      return;
    }
    if entry.Dir? {
      WalkAndAdd(path, entry.children, rules, builder);
    } else {
      builder.AppendPathWithName(path, RelativeName(path));
    }
  }

  method WalkAndAdd(dir: seq<string>, entries: seq<Entry>, rules: seq<IgnorePattern>, builder: TarBuilder)
    modifies builder
    ensures builder.entries == old(builder.entries) + Contribution(dir, entries, rules)
    decreases entries, 0
  {
    var i := 0;
    assert entries[0..] == entries;
    while i < |entries|
      invariant 0 <= i <= |entries|
      invariant builder.entries + Contribution(dir, entries[i..], rules)
             == old(builder.entries) + Contribution(dir, entries, rules)
    {
      ghost var before := builder.entries;
      ContributionStep(dir, entries, i, rules);
      AddEntry(dir, entries[i], rules, builder);
      Regroup(before, EntryContribution(dir, entries[i], rules), Contribution(dir, entries[i + 1..], rules));
      i := i + 1;
    }
  }

  // ---------------------------------------------------------------------------
  // Exactness
  // ---------------------------------------------------------------------------

  /** Sibling names differ, are not empty and have no slash, at every level. */
  ghost predicate WellFormed(entries: seq<Entry>)
    decreases entries
  {
    && (forall i, j :: 0 <= i < j < |entries| ==> entries[i].name != entries[j].name)
    && (forall i | 0 <= i < |entries| ::
          && entries[i].name != [] && '/' !in entries[i].name
          && (entries[i].Dir? ==> WellFormed(entries[i].children)))
  }

  /** The tree has a file at this path. */
  ghost predicate FileAt(entries: seq<Entry>, path: seq<string>)
    decreases |path|, 1
  {
    exists i | 0 <= i < |entries| :: FileUnder(entries[i], path)
  }

  /** Neither the file `dir + path` nor any directory between it and `dir` is ignored. */
  ghost predicate Visible(dir: seq<string>, path: seq<string>, rules: seq<IgnorePattern>) {
    forall k | 1 <= k <= |path| :: !Ignored(RelativeName(dir + path[..k]), k < |path|, rules)
  }

  lemma VisibleStep(dir: seq<string>, path: seq<string>, rules: seq<IgnorePattern>)
    requires path != []
    ensures Visible(dir, path, rules) <==>
              && !Ignored(RelativeName(dir + [path[0]]), 1 < |path|, rules)
              && Visible(dir + [path[0]], path[1..], rules)
  {
    var sub, rest := dir + [path[0]], path[1..];
    assert path[..1] == [path[0]];
    assert forall k | 1 <= k <= |rest| :: dir + path[..k + 1] == sub + rest[..k];
    if Visible(sub, rest, rules) && !Ignored(RelativeName(sub), 1 < |path|, rules) {
      forall k | 1 <= k <= |path|
        ensures !Ignored(RelativeName(dir + path[..k]), k < |path|, rules)
      {
        if k > 1 {
          assert dir + path[..k - 1 + 1] == sub + rest[..k - 1];
        }
      }
    }
    if Visible(dir, path, rules) {
      forall k | 1 <= k <= |rest|
        ensures !Ignored(RelativeName(sub + rest[..k]), k < |rest|, rules)
      {
        assert dir + path[..k + 1] == sub + rest[..k];
      }
    }
  }

  /** The file is at a path that begins with this entry. */
  ghost predicate FileUnder(entry: Entry, path: seq<string>)
    decreases |path|, 0
  {
    && path != [] && entry.name == path[0]
    && if entry.Dir? then FileAt(entry.children, path[1..]) else |path| == 1
  }

  /** A member of the archive comes from a visible file, under that file's name. */
  lemma {:induction false} ContributionSound(
    dir: seq<string>, entries: seq<Entry>, rules: seq<IgnorePattern>, e: TarEntry) returns (path: seq<string>)
    requires e in Contribution(dir, entries, rules)
    ensures e == TarEntry(dir + path, RelativeName(dir + path))
    ensures FileAt(entries, path) && Visible(dir, path, rules)
    decreases entries, 0
  {
    if e in Contribution(dir, entries[1..], rules) {
      path := ContributionSound(dir, entries[1..], rules, e);
      var i :| 0 <= i < |entries[1..]| && FileUnder(entries[1..][i], path);
      assert FileUnder(entries[i + 1], path);
    } else {
      path := EntrySound(dir, entries[0], rules, e);
    }
  }

  lemma {:induction false} EntrySound(dir: seq<string>, entry: Entry, rules: seq<IgnorePattern>, e: TarEntry)
      returns (path: seq<string>)
    requires e in EntryContribution(dir, entry, rules)
    ensures e == TarEntry(dir + path, RelativeName(dir + path))
    ensures FileUnder(entry, path) && Visible(dir, path, rules)
    decreases entry, 1
  {
    var sub := dir + [entry.name];
    path := [entry.name];
    if entry.Dir? {
      var rest := ContributionSound(sub, entry.children, rules, e);
      path := path + rest;
      assert path[1..] == rest && dir + path == sub + rest;
    }
    VisibleStep(dir, path, rules);
  }

  /** Every visible file is a member of the archive. */
  lemma {:induction false} ContributionComplete(
    dir: seq<string>, entries: seq<Entry>, rules: seq<IgnorePattern>, path: seq<string>)
    requires FileAt(entries, path) && Visible(dir, path, rules)
    ensures TarEntry(dir + path, RelativeName(dir + path)) in Contribution(dir, entries, rules)
    decreases entries, 0
  {
    var i :| 0 <= i < |entries| && FileUnder(entries[i], path);
    if i == 0 {
      EntryComplete(dir, entries[0], rules, path);
    } else {
      assert FileUnder(entries[1..][i - 1], path);
      ContributionComplete(dir, entries[1..], rules, path);
    }
  }

  lemma {:induction false} EntryComplete(dir: seq<string>, entry: Entry, rules: seq<IgnorePattern>, path: seq<string>)
    requires FileUnder(entry, path) && Visible(dir, path, rules)
    ensures TarEntry(dir + path, RelativeName(dir + path)) in EntryContribution(dir, entry, rules)
    decreases entry, 1
  {
    VisibleStep(dir, path, rules);
    var sub := dir + [path[0]];
    if entry.Dir? {
      var j :| 0 <= j < |entry.children| && FileUnder(entry.children[j], path[1..]);
      ContributionComplete(sub, entry.children, rules, path[1..]);
      assert sub + path[1..] == dir + path;
    } else {
      assert path == [path[0]];
    }
  }

  lemma {:induction false} ContributionDistinct(dir: seq<string>, entries: seq<Entry>, rules: seq<IgnorePattern>)
    requires WellFormed(entries)
    ensures Distinct(Contribution(dir, entries, rules))
    decreases entries
  {
    if entries != [] {
      var first := entries[0];
      var own, rest := EntryContribution(dir, first, rules), Contribution(dir, entries[1..], rules);
      assert forall i | 0 <= i < |entries[1..]| :: entries[1..][i] == entries[i + 1];
      ContributionDistinct(dir, entries[1..], rules);
      if first.Dir? {
        ContributionDistinct(dir + [first.name], first.children, rules);
      }
      forall e | e in own ensures e !in rest {
        EntriesApart(dir, entries, rules, e);
      }
      DistinctAppend(own, rest);
    }
  }

  /** What the first entry contributes no later one does, since their names differ. */
  lemma EntriesApart(dir: seq<string>, entries: seq<Entry>, rules: seq<IgnorePattern>, e: TarEntry)
    requires entries != [] && forall i | 0 < i < |entries| :: entries[i].name != entries[0].name
    requires e in EntryContribution(dir, entries[0], rules)
    ensures e !in Contribution(dir, entries[1..], rules)
  {
    var p := EntrySound(dir, entries[0], rules, e);
    assert e.source[|dir|] == entries[0].name;
    if e in Contribution(dir, entries[1..], rules) {
      MemberNames(dir, entries[1..], rules, e);
    }
  }

  /** The component after the directory's own is the name of one of its entries. */
  lemma MemberNames(dir: seq<string>, entries: seq<Entry>, rules: seq<IgnorePattern>, e: TarEntry)
    requires e in Contribution(dir, entries, rules)
    ensures |e.source| > |dir| && exists i | 0 <= i < |entries| :: entries[i].name == e.source[|dir|]
  {
    var q := ContributionSound(dir, entries, rules, e);
    var i :| 0 <= i < |entries| && FileUnder(entries[i], q);
    assert entries[i].name == e.source[|dir|];
  }

  /**
   The archive is exact: on a well-formed tree it has each of its members once, and a file is a
   member if and only if neither it nor any directory above it is ignored.
   */
  lemma ContextExact(entries: seq<Entry>, rules: seq<IgnorePattern>)
    requires WellFormed(entries)
    ensures Distinct(Contribution([], entries, rules))
    ensures forall path: seq<string>, name: string ::
              TarEntry(path, name) in Contribution([], entries, rules) <==>
              FileAt(entries, path) && Visible([], path, rules) && name == RelativeName(path)
  {
    ContributionDistinct([], entries, rules);
    forall path: seq<string>, name: string
      ensures TarEntry(path, name) in Contribution([], entries, rules) <==>
              FileAt(entries, path) && Visible([], path, rules) && name == RelativeName(path)
    {
      assert [] + path == path;
      if TarEntry(path, name) in Contribution([], entries, rules) {
        var q := ContributionSound([], entries, rules, TarEntry(path, name));
        assert [] + q == q;
      }
      if FileAt(entries, path) && Visible([], path, rules) {
        ContributionComplete([], entries, rules, path);
      }
    }
  }
}
