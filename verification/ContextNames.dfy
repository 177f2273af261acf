/**
 The names of archive members, which have their backslashes rewritten to slashes.
 */
module ContextNames {
  import opened Text
  import opened Glob
  import opened BuildContext

  /** A path of a tree: at least one name, and no slash in any. */
  predicate IsPath(path: seq<string>) {
    path != [] && forall x | x in path :: '/' !in x
  }

  /** The names of a path, each cut at its backslashes. */
  function NamePieces(path: seq<string>): seq<string> {
    if path == [] then [] else SplitOn(path[0], '\\') + NamePieces(path[1..])
  }

  lemma {:induction false} ForwardSlashesAppend(a: string, b: string)
    ensures ForwardSlashes(a + b) == ForwardSlashes(a) + ForwardSlashes(b)
  {
    if a == [] {
      assert a + b == b;
    } else {
      assert (a + b)[1..] == a[1..] + b;
      ForwardSlashesAppend(a[1..], b);
    }
  }

  /** After the rewriting, slashes cut a name where backslashes did. */
  lemma {:induction false} SplitRewritten(s: string)
    requires '/' !in s
    ensures SplitOn(ForwardSlashes(s), '/') == SplitOn(s, '\\')
  {
    if s != [] {
      SplitRewritten(s[1..]);
      assert ForwardSlashes(s)[1..] == ForwardSlashes(s[1..]);
    }
  }

  lemma {:induction false} SplitOfRelativeName(path: seq<string>)
    requires IsPath(path)
    ensures SplitOn(RelativeName(path), '/') == NamePieces(path)
  {
    SplitRewritten(path[0]);
    if |path| == 1 {
      assert NamePieces(path[1..]) == [];
    } else {
      var first, rest := path[0], JoinWith(path[1..], "/");
      SplitOfRelativeName(path[1..]);
      ForwardSlashesAppend(first + "/", rest);
      ForwardSlashesAppend(first, "/");
      assert ForwardSlashes("/") == "/";
      SplitAround(ForwardSlashes(first), '/', ForwardSlashes(rest));
    }
  }

  lemma {:induction false} PiecesLackBackslash(path: seq<string>)
    ensures forall x | x in NamePieces(path) :: '\\' !in x
  {
    if path != [] {
      SplitLacks(path[0], '\\');
      PiecesLackBackslash(path[1..]);
    }
  }

  lemma PieceOfPlain(s: string)
    requires '\\' !in s
    ensures SplitOn(s, '\\') == [s]
  {
    SplitOnAppend(s, '\\', "");
  }

  lemma {:induction false} PiecesOfPlain(path: seq<string>)
    requires forall x | x in path :: '\\' !in x
    ensures NamePieces(path) == path
  {
    if path != [] {
      PieceOfPlain(path[0]);
      PiecesOfPlain(path[1..]);
      assert path == [path[0]] + path[1..];
    }
  }

  /** A file's path can be read off its member's name if and only if no name on it has a backslash. */
  lemma NameGivesPath(path: seq<string>)
    requires IsPath(path)
    ensures SplitOn(RelativeName(path), '/') == path <==> forall x | x in path :: '\\' !in x
  {
    SplitOfRelativeName(path);
    if forall x | x in path :: '\\' !in x {
      PiecesOfPlain(path);
    }
    PiecesLackBackslash(path);
  }

  /** Two files get one name if and only if they differ at most in which separators are backslashes. */
  lemma NamesIdentifyFiles(a: seq<string>, b: seq<string>)
    requires IsPath(a) && IsPath(b)
    ensures RelativeName(a) == RelativeName(b) <==> NamePieces(a) == NamePieces(b)
  {
    SplitOfRelativeName(a);
    SplitOfRelativeName(b);
    JoinOfSplit(RelativeName(a), '/');
    JoinOfSplit(RelativeName(b), '/');
  }

  lemma {:induction false} FilePathIsPath(entries: seq<Entry>, path: seq<string>)
    requires WellFormed(entries) && FileAt(entries, path)
    ensures IsPath(path)
    decreases |path|
  {
    var i :| 0 <= i < |entries| && FileUnder(entries[i], path);
    if entries[i].Dir? {
      FilePathIsPath(entries[i].children, path[1..]);
    }
    assert path == [path[0]] + path[1..];
  }

  /** No two members of the archive have one name. */
  ghost predicate NamesDistinct(archive: seq<TarEntry>) {
    forall i, j | 0 <= i < j < |archive| :: archive[i].name != archive[j].name
  }

  ghost predicate Archived(entries: seq<Entry>, rules: seq<IgnorePattern>, path: seq<string>) {
    FileAt(entries, path) && Visible([], path, rules)
  }

  lemma MemberIsArchived(entries: seq<Entry>, rules: seq<IgnorePattern>, e: TarEntry)
    requires WellFormed(entries) && e in Contribution([], entries, rules)
    ensures Archived(entries, rules, e.source) && IsPath(e.source) && e.name == RelativeName(e.source)
  {
    ContextExact(entries, rules);
    assert e == TarEntry(e.source, e.name);
    FilePathIsPath(entries, e.source);
  }

  /**
   The names of an archive's members are distinct if and only if no two archived files differ only in
   which separators are backslashes.
   */
  lemma ArchiveNamesDistinct(entries: seq<Entry>, rules: seq<IgnorePattern>)
    requires WellFormed(entries)
    ensures NamesDistinct(Contribution([], entries, rules)) <==>
              forall a, b | Archived(entries, rules, a) && Archived(entries, rules, b) && a != b :: NamePieces(a) != NamePieces(b)
  {
    var archive := Contribution([], entries, rules);
    ContextExact(entries, rules);
    if NamesDistinct(archive) {
      forall a, b | Archived(entries, rules, a) && Archived(entries, rules, b) && a != b
        ensures NamePieces(a) != NamePieces(b)
      {
        ArchivedNamesDiffer(entries, rules, a, b);
      }
    } else {
      var i, j :| 0 <= i < j < |archive| && archive[i].name == archive[j].name;
      MemberIsArchived(entries, rules, archive[i]);
      MemberIsArchived(entries, rules, archive[j]);
      NamesIdentifyFiles(archive[i].source, archive[j].source);
      assert archive[i] != archive[j];
    }
  }

  lemma ArchivedNamesDiffer(entries: seq<Entry>, rules: seq<IgnorePattern>, a: seq<string>, b: seq<string>)
    requires WellFormed(entries) && NamesDistinct(Contribution([], entries, rules))
    requires Archived(entries, rules, a) && Archived(entries, rules, b) && a != b
    ensures NamePieces(a) != NamePieces(b)
  {
    var archive := Contribution([], entries, rules);
    ContextExact(entries, rules);
    FilePathIsPath(entries, a);
    FilePathIsPath(entries, b);
    var x, y := TarEntry(a, RelativeName(a)), TarEntry(b, RelativeName(b));
    assert x in archive && y in archive;
    var i :| 0 <= i < |archive| && archive[i] == x;
    var j :| 0 <= j < |archive| && archive[j] == y;
    assert i != j;
    NamesIdentifyFiles(a, b);
  }

  /** Without backslashes in the tree's names all members have names of their own. */
  lemma PlainNamesDistinct(entries: seq<Entry>, rules: seq<IgnorePattern>)
    requires WellFormed(entries)
    requires forall path, x | FileAt(entries, path) && x in path :: '\\' !in x
    ensures NamesDistinct(Contribution([], entries, rules))
  {
    forall a, b | Archived(entries, rules, a) && Archived(entries, rules, b) && a != b
      ensures NamePieces(a) != NamePieces(b)
    {
      PiecesOfPlain(a);
      PiecesOfPlain(b);
    }
    ArchiveNamesDistinct(entries, rules);
  }

  /** A tree with a file `a\b` beside a file `b` in a directory `a`. */
  const COLLIDING := [File("a\\b"), Dir("a", [File("b")])]

  lemma CollidingTree()
    ensures WellFormed(COLLIDING) && FileAt(COLLIDING, ["a\\b"]) && FileAt(COLLIDING, ["a", "b"])
  {
    var inner := [File("b")];
    assert WellFormed(inner);
    assert FileUnder(COLLIDING[0], ["a\\b"]);
    assert ["a", "b"][1..] == ["b"];
    assert FileUnder(inner[0], ["b"]);
    assert FileAt(inner, ["b"]);
    assert FileUnder(COLLIDING[1], ["a", "b"]);
    assert COLLIDING[0].name == "a\\b" && COLLIDING[1].name == "a";
    assert |COLLIDING[0].name| != |COLLIDING[1].name|;
  }

  /** Its archive has two members of the name `a/b`. */
  lemma BackslashNamesCollide()
    ensures WellFormed(COLLIDING)
    ensures TarEntry(["a\\b"], "a/b") in Contribution([], COLLIDING, [])
    ensures TarEntry(["a", "b"], "a/b") in Contribution([], COLLIDING, [])
    ensures !NamesDistinct(Contribution([], COLLIDING, []))
  {
    CollidingTree();
    CollidingNames();
    assert |["a\\b"]| != |["a", "b"]|;
    NamesCollide(COLLIDING, ["a\\b"], ["a", "b"]);
  }

  /** With no rules at all, two files of one name. */
  lemma NamesCollide(entries: seq<Entry>, a: seq<string>, b: seq<string>)
    requires WellFormed(entries) && FileAt(entries, a) && FileAt(entries, b)
    requires a != b && RelativeName(a) == RelativeName(b)
    ensures TarEntry(a, RelativeName(a)) in Contribution([], entries, [])
    ensures TarEntry(b, RelativeName(b)) in Contribution([], entries, [])
    ensures !NamesDistinct(Contribution([], entries, []))
  {
    ContextExact(entries, []);
    var archive := Contribution([], entries, []);
    assert Visible([], a, []) && Visible([], b, []);
    assert TarEntry(a, RelativeName(a)) in archive && TarEntry(b, RelativeName(b)) in archive;
    var i :| 0 <= i < |archive| && archive[i] == TarEntry(a, RelativeName(a));
    var j :| 0 <= j < |archive| && archive[j] == TarEntry(b, RelativeName(b));
    assert i != j;
  }

  lemma CollidingNames()
    ensures RelativeName(["a\\b"]) == RelativeName(["a", "b"]) == "a/b"
  {
    assert ForwardSlashes("a\\b") == "a/b" by {
      assert "a\\b"[1..] == "\\b" && "\\b"[1..] == "b";
    }
    assert JoinWith(["a", "b"], "/") == "a/b" by {
      assert ["a", "b"][1..] == ["b"];
    }
    assert ForwardSlashes("a/b") == "a/b" by {
      assert "a/b"[1..] == "/b" && "/b"[1..] == "b";
    }
  }
}
