/**
 The parts of Rust's `str` API that the modelled code relies on, over sequences of characters.
 */
module Text {

  datatype Option<+T> = None | Some(value: T)

  ghost predicate Distinct<T>(s: seq<T>) {
    forall i, j :: 0 <= i < j < |s| ==> s[i] != s[j]
  }

  lemma DistinctAppend<T>(a: seq<T>, b: seq<T>)
    requires Distinct(a) && Distinct(b) && forall x | x in a :: x !in b
    ensures Distinct(a + b)
  {
    forall i, j | 0 <= i < j < |a + b| ensures (a + b)[i] != (a + b)[j] {
      if i < |a| && |a| <= j {
        assert a[i] in a && b[j - |a|] in b;
      }
    }
  }

  lemma Regroup<T>(a: seq<T>, b: seq<T>, c: seq<T>)
    ensures a + (b + c) == a + b + c
  {
  }

  /** `char::is_whitespace`: the Unicode White_Space property. */
  predicate IsWhitespace(c: char) {
    var n := c as int;
    || 0x9 <= n <= 0xD || n == 0x20 || n == 0x85 || n == 0xA0 || n == 0x1680
    || 0x2000 <= n <= 0x200A || n == 0x2028 || n == 0x2029 || n == 0x202F || n == 0x205F || n == 0x3000
  }

  predicate NoWhitespace(s: string) {
    forall c | c in s :: !IsWhitespace(c)
  }

  function TrimStart(s: string): string {
    if s != [] && IsWhitespace(s[0]) then TrimStart(s[1..]) else s
  }

  function TrimEnd(s: string): string {
    if s != [] && IsWhitespace(s[|s| - 1]) then TrimEnd(s[..|s| - 1]) else s
  }

  function Trim(s: string): string {
    TrimEnd(TrimStart(s))
  }

  /** `trim_end_matches(c)` */
  function TrimEndOf(s: string, c: char): string {
    if s != [] && s[|s| - 1] == c then TrimEndOf(s[..|s| - 1], c) else s
  }

  /** `trim_start_matches(c)` */
  function TrimStartOf(s: string, c: char): string {
    if s != [] && s[0] == c then TrimStartOf(s[1..], c) else s
  }

  /** `find(c)`, on a string that has the character */
  function IndexOf(s: string, c: char): (i: nat)
    requires c in s
    ensures i < |s| && s[i] == c && c !in s[..i]
  {
    if s[0] == c then 0 else
      var i := IndexOf(s[1..], c);
      assert s[..i + 1] == [s[0]] + s[1..][..i];
      i + 1
  }

  /** `rfind(c)`, on a string that has the character */
  function LastIndexOf(s: string, c: char): (i: nat)
    requires c in s
    ensures i < |s| && s[i] == c && c !in s[i + 1..]
  {
    if s[|s| - 1] == c then |s| - 1 else
      assert s == s[..|s| - 1] + [s[|s| - 1]];
      var i := LastIndexOf(s[..|s| - 1], c);
      assert s[i + 1..] == s[..|s| - 1][i + 1..] + [s[|s| - 1]];
      i
  }

  lemma LastIndexOfUnique(s: string, c: char, i: nat)
    requires i < |s| && s[i] == c && c !in s[i + 1..]
    ensures c in s && LastIndexOf(s, c) == i
  {
  }

  lemma IndexOfUnique(s: string, c: char, i: nat)
    requires i < |s| && s[i] == c && c !in s[..i]
    ensures c in s && IndexOf(s, c) == i
  {
  }

  /** `contains(part)` */
  predicate Contains(s: string, part: string) {
    exists i | 0 <= i <= |s| :: part <= s[i..]
  }

  lemma ContainsMeans(s: string, part: string)
    ensures Contains(s, part) <==> exists before, after :: s == before + part + after
  {
    if Contains(s, part) {
      var i :| 0 <= i <= |s| && part <= s[i..];
      assert s == s[..i] + part + s[i..][|part|..];
    }
    if before, after :| s == before + part + after {
      assert s[|before|..] == part + after;
    }
  }

  /** `split(sep)`: always at least one piece */
  function SplitOn(s: string, sep: char): (pieces: seq<string>)
    ensures |pieces| >= 1
  {
    if s == [] then [[]] else
      var rest := SplitOn(s[1..], sep);
      if s[0] == sep then [[]] + rest else [[s[0]] + rest[0]] + rest[1..]
  }

  function JoinWith(pieces: seq<string>, sep: string): string {
    if pieces == [] then []
    else if |pieces| == 1 then pieces[0]
    else pieces[0] + sep + JoinWith(pieces[1..], sep)
  }

  lemma {:induction false} SplitOnAppend(a: string, sep: char, b: string)
    requires sep !in a
    ensures SplitOn(a, sep) == [a]
    ensures SplitOn(a + [sep] + b, sep) == [a] + SplitOn(b, sep)
  {
    if a == [] {
      assert a + [sep] + b == [sep] + b;
      assert ([sep] + b)[1..] == b;
    } else {
      SplitOnAppend(a[1..], sep, b);
      assert (a + [sep] + b)[1..] == a[1..] + [sep] + b;
      assert [a[0]] + a[1..] == a;
    }
  }

  /** Splitting undoes joining for pieces free of the separator. */
  lemma {:induction false} SplitOfJoin(pieces: seq<string>, sep: char)
    requires pieces != []
    requires forall piece | piece in pieces :: sep !in piece
    ensures SplitOn(JoinWith(pieces, [sep]), sep) == pieces
  {
    if |pieces| == 1 {
      SplitOnAppend(pieces[0], sep, []);
    } else {
      SplitOfJoin(pieces[1..], sep);
      SplitOnAppend(pieces[0], sep, JoinWith(pieces[1..], [sep]));
      assert [pieces[0]] + pieces[1..] == pieces;
    }
  }

  lemma {:induction false} SplitLacks(s: string, sep: char)
    ensures forall i | 0 <= i < |SplitOn(s, sep)| :: sep !in SplitOn(s, sep)[i]
  {
    if s != [] {
      SplitLacks(s[1..], sep);
    }
  }

  /** Joining undoes splitting. */
  lemma {:induction false} JoinOfSplit(s: string, sep: char)
    ensures JoinWith(SplitOn(s, sep), [sep]) == s
  {
    if s != [] {
      var rest := SplitOn(s[1..], sep);
      JoinOfSplit(s[1..], sep);
      assert s == [s[0]] + s[1..];
      if s[0] == sep {
        assert ([[]] + rest)[1..] == rest;
      } else {
        assert ([[s[0]] + rest[0]] + rest[1..])[1..] == rest[1..];
      }
    }
  }

  /** The pieces have only characters of the text. */
  lemma {:induction false} SplitKeeps(s: string, sep: char, c: char)
    requires c !in s
    ensures forall piece | piece in SplitOn(s, sep) :: c !in piece
  {
    if s != [] {
      SplitKeeps(s[1..], sep, c);
    }
  }

  lemma SplitCons(c: char, s: string, sep: char)
    ensures SplitOn([c] + s, sep)
         == var rest := SplitOn(s, sep); if c == sep then [[]] + rest else [[c] + rest[0]] + rest[1..]
  {
    assert ([c] + s)[1..] == s;
  }

  lemma SplitConsBeside(c: char, s: string, a: string, right: seq<string>, sep: char)
    requires SplitOn(s, sep) == SplitOn(a, sep) + right
    ensures SplitOn([c] + s, sep) == SplitOn([c] + a, sep) + right
  {
    var left := SplitOn(a, sep);
    SplitCons(c, s, sep);
    SplitCons(c, a, sep);
    if c == sep {
      Regroup([[]], left, right);
    } else {
      HeadBeside([c], left, right);
    }
  }

  lemma HeadBeside(head: string, left: seq<string>, right: seq<string>)
    requires left != []
    ensures [head + (left + right)[0]] + (left + right)[1..] == [head + left[0]] + left[1..] + right
  {
    assert (left + right)[1..] == left[1..] + right;
    Regroup([head + left[0]], left[1..], right);
  }

  /** A separator splits the text around it independently. */
  lemma {:induction false} SplitAround(a: string, sep: char, b: string)
    ensures SplitOn(a + [sep] + b, sep) == SplitOn(a, sep) + SplitOn(b, sep)
  {
    if a == [] {
      assert a + [sep] + b == [sep] + b && ([sep] + b)[1..] == b;
    } else {
      SplitAround(a[1..], sep, b);
      assert [a[0]] + (a[1..] + [sep] + b) == a + [sep] + b && [a[0]] + a[1..] == a;
      SplitConsBeside(a[0], a[1..] + [sep] + b, a[1..], SplitOn(b, sep), sep);
    }
  }

  // ---------------------------------------------------------------------------
  // Words and lines
  // ---------------------------------------------------------------------------

  function LeadingWord(s: string): (w: string)
    ensures w <= s && NoWhitespace(w)
    ensures s != [] && !IsWhitespace(s[0]) ==> w != []
  {
    if s == [] || IsWhitespace(s[0]) then [] else [s[0]] + LeadingWord(s[1..])
  }

  /** `split_whitespace` */
  function Tokens(s: string): (tokens: seq<string>)
    ensures forall t | t in tokens :: NoWhitespace(t)
    decreases |s|
  {
    if s == [] then []
    else if IsWhitespace(s[0]) then Tokens(s[1..])
    else
      var w := LeadingWord(s);
      [w] + Tokens(s[|w|..])
  }

  lemma {:induction false} LeadingWordWhole(w: string)
    requires NoWhitespace(w)
    ensures LeadingWord(w) == w
  {
    if w != [] {
      LeadingWordWhole(w[1..]);
      assert [w[0]] + w[1..] == w;
    }
  }

  lemma TokensOfWord(w: string)
    requires w != [] && NoWhitespace(w)
    ensures Tokens(w) == [w]
  {
    LeadingWordWhole(w);
    assert w[|w|..] == [];
  }

  /** A line without the carriage return of its line ending. */
  function StripCr(line: string): string {
    if line != [] && line[|line| - 1] == '\r' then line[..|line| - 1] else line
  }

  predicate EndsInCr(line: string) {
    line != [] && line[|line| - 1] == '\r'
  }

  ghost predicate NoneEndsInCr(lines: seq<string>) {
    forall x | x in lines :: !EndsInCr(x)
  }

  lemma {:induction false} TrimStartOfAppend(a: string, w: char)
    requires IsWhitespace(w)
    ensures TrimStart(a + [w]) == if TrimStart(a) == [] then [] else TrimStart(a) + [w]
  {
    if a == [] {
      assert a + [w] == [w] && [w][1..] == [];
    } else if IsWhitespace(a[0]) {
      assert (a + [w])[1..] == a[1..] + [w];
      TrimStartOfAppend(a[1..], w);
    }
  }

  lemma TrimIgnoresCr(line: string)
    ensures Trim(StripCr(line)) == Trim(line)
    ensures TrimStart(line) == TrimStart(StripCr(line)) || TrimStart(line) == TrimStart(StripCr(line)) + "\r"
  {
    var a := StripCr(line);
    if a != line {
      assert line == a + "\r";
      TrimStartOfAppend(a, '\r');
      var x := TrimStart(a);
      if x != [] {
        assert (x + "\r")[..|x|] == x;
      }
    }
  }

  lemma PrefixIgnoresCr(prefix: string, s: string)
    requires prefix != [] && prefix[|prefix| - 1] != '\r'
    ensures prefix <= s + "\r" <==> prefix <= s
  {
    if prefix <= s + "\r" && |prefix| <= |s| {
      assert (s + "\r")[..|prefix|] == s[..|prefix|];
    }
  }

  lemma {:induction false} LeadingWordIgnoresCr(s: string)
    ensures LeadingWord(s + "\r") == LeadingWord(s)
  {
    if s == [] {
      assert s + "\r" == "\r";
    } else if !IsWhitespace(s[0]) {
      assert (s + "\r")[1..] == s[1..] + "\r";
      LeadingWordIgnoresCr(s[1..]);
    }
  }

  lemma {:induction false} TokensIgnoreCr(s: string)
    ensures Tokens(s + "\r") == Tokens(s)
    decreases |s|
  {
    if s == [] {
      assert s + "\r" == "\r" && "\r"[1..] == "";
    } else if IsWhitespace(s[0]) {
      assert (s + "\r")[1..] == s[1..] + "\r";
      TokensIgnoreCr(s[1..]);
    } else {
      var w := LeadingWord(s);
      LeadingWordIgnoresCr(s);
      assert (s + "\r")[|w|..] == s[|w|..] + "\r";
      TokensIgnoreCr(s[|w|..]);
    }
  }

  /** `lines()` */
  function Lines(s: string): (lines: seq<string>)
    ensures forall line | line in lines :: '\n' !in line
    decreases |s|
  {
    if s == [] then []
    else if '\n' !in s then [s]
    else
      var i := IndexOf(s, '\n');
      [StripCr(s[..i])] + Lines(s[i + 1..])
  }

  lemma LinesCons(line: string, rest: string)
    requires '\n' !in line
    ensures Lines(line + "\n" + rest) == [StripCr(line)] + Lines(rest)
  {
    var s := line + "\n" + rest;
    assert s[|line|] == '\n' && s[..|line|] == line && s[|line| + 1..] == rest;
    IndexOfUnique(s, '\n', |line|);
  }

  /** Lines joined by newlines, with one at the end unless there is nothing to end. */
  function Render(lines: seq<string>): string {
    var joined := JoinWith(lines, "\n");
    if joined == [] then [] else joined + "\n"
  }

  function StripCrs(lines: seq<string>): (r: seq<string>)
    ensures |r| == |lines| && forall i | 0 <= i < |lines| :: r[i] == StripCr(lines[i])
  {
    seq(|lines|, i requires 0 <= i < |lines| => StripCr(lines[i]))
  }

  lemma {:induction false} LinesOfJoined(lines: seq<string>)
    requires lines != [] && forall line | line in lines :: '\n' !in line
    ensures Lines(JoinWith(lines, "\n") + "\n") == StripCrs(lines)
  {
    if |lines| == 1 {
      LinesCons(lines[0], "");
      assert lines[0] + "\n" + "" == lines[0] + "\n";
    } else {
      var rest := JoinWith(lines[1..], "\n") + "\n";
      calc {
        Lines(JoinWith(lines, "\n") + "\n");
        { assert JoinWith(lines, "\n") + "\n" == lines[0] + "\n" + rest; }
        Lines(lines[0] + "\n" + rest);
        { LinesCons(lines[0], rest); }
        [StripCr(lines[0])] + Lines(rest);
        { LinesOfJoined(lines[1..]); }
        [StripCr(lines[0])] + StripCrs(lines[1..]);
        StripCrs(lines);
      }
    }
  }

  /** Reading back a rendered line list costs each line at most a trailing carriage return. */
  lemma LinesOfRender(lines: seq<string>)
    requires lines != [""] && forall line | line in lines :: '\n' !in line
    ensures Lines(Render(lines)) == StripCrs(lines)
  {
    if lines != [] {
      LinesOfJoined(lines);
    }
  }

  /** The first index from `from` on whose line satisfies `p`, or the length. */
  function FirstFrom(lines: seq<string>, from: nat, p: string -> bool): (i: nat)
    requires from <= |lines|
    ensures from <= i <= |lines|
    decreases |lines| - from
  {
    if from == |lines| || p(lines[from]) then from else FirstFrom(lines, from + 1, p)
  }

  lemma {:induction false} FirstFromIsFirst(lines: seq<string>, from: nat, p: string -> bool)
    requires from <= |lines|
    ensures FirstFrom(lines, from, p) < |lines| ==> p(lines[FirstFrom(lines, from, p)])
    ensures forall j | from <= j < FirstFrom(lines, from, p) :: !p(lines[j])
    decreases |lines| - from
  {
    if from < |lines| && !p(lines[from]) {
      FirstFromIsFirst(lines, from + 1, p);
    }
  }

  lemma {:induction false} FirstFromSkips(pre: seq<string>, rest: seq<string>, from: nat, p: string -> bool)
    requires from <= |rest|
    ensures FirstFrom(pre + rest, |pre| + from, p) == |pre| + FirstFrom(rest, from, p)
    decreases |rest| - from
  {
    if from < |rest| && !p(rest[from]) {
      FirstFromSkips(pre, rest, from + 1, p);
    }
  }

  lemma {:induction false} FirstFromPast(lines: seq<string>, from: nat, until: nat, p: string -> bool)
    requires from <= until <= |lines| && forall j | from <= j < until :: !p(lines[j])
    ensures FirstFrom(lines, from, p) == FirstFrom(lines, until, p)
    decreases until - from
  {
    if from < until {
      FirstFromPast(lines, from + 1, until, p);
    }
  }
}
