/**
 What the string functions mean, in terms of positions and characters.
 */
module TextFacts {
  import opened Text

  predicate Blank(s: string) {
    forall c | c in s :: IsWhitespace(c)
  }

  predicate Only(s: string, c: char) {
    forall x | x in s :: x == c
  }

  lemma OnlyNothing(s: string, c: char)
    requires c !in s
    ensures Only(s, c) <==> s == ""
  {
    if s != "" {
      assert s[0] in s && s[0] != c;
    }
  }

  /** What is left of a text without the characters at its start that pass the test. */
  ghost predicate CutAtStart(s: string, left: string, test: char -> bool) {
    && |left| <= |s| && s[|s| - |left|..] == left
    && (forall k | 0 <= k < |s| - |left| :: test(s[k]))
    && (left != "" ==> !test(left[0]))
  }

  lemma CutOneMore(s: string, left: string, test: char -> bool)
    requires s != "" && test(s[0]) && CutAtStart(s[1..], left, test)
    ensures CutAtStart(s, left, test)
  {
    var n := |s| - |left|;
    assert s[1..][n - 1..] == s[n..];
    forall k | 0 <= k < n ensures test(s[k]) {
      if k > 0 {
        assert s[1..][k - 1] == s[k];
      }
    }
  }

  /** `TrimStart` takes off exactly the leading whitespace. */
  lemma {:induction false} TrimStartMeans(s: string)
    ensures CutAtStart(s, TrimStart(s), IsWhitespace)
  {
    if s != [] && IsWhitespace(s[0]) {
      TrimStartMeans(s[1..]);
      CutOneMore(s, TrimStart(s), IsWhitespace);
    }
  }

  lemma {:induction false} TrimStartOfIndented(indent: string, s: string)
    requires Blank(indent) && s != "" && !IsWhitespace(s[0])
    ensures TrimStart(indent + s) == s
  {
    if indent == "" {
      assert indent + s == s;
    } else {
      assert indent[0] in indent && (indent + s)[1..] == indent[1..] + s;
      TrimStartOfIndented(indent[1..], s);
    }
  }

  /** `TrimEnd` takes off exactly the whitespace at the end. */
  lemma {:induction false} TrimEndMeans(s: string)
    ensures var left := TrimEnd(s);
            && left <= s
            && (forall k | |left| <= k < |s| :: IsWhitespace(s[k]))
            && (left != "" ==> !IsWhitespace(left[|left| - 1]))
  {
    if s != [] && IsWhitespace(s[|s| - 1]) {
      TrimEndMeans(s[..|s| - 1]);
    }
  }

  /** `Trim` takes off exactly the whitespace at both ends. */
  lemma TrimMeans(s: string) returns (from: nat)
    ensures var left := Trim(s);
            && from + |left| <= |s| && s[from..from + |left|] == left
            && (forall k | 0 <= k < from || from + |left| <= k < |s| :: IsWhitespace(s[k]))
            && (left != "" ==> !IsWhitespace(left[0]) && !IsWhitespace(left[|left| - 1]))
  {
    var middle := TrimStart(s);
    TrimStartMeans(s);
    TrimEndMeans(middle);
    from := |s| - |middle|;
    assert forall k | from <= k < |s| :: s[k] == middle[k - from];
  }

  /** What is left after taking `c` off the end, whatever else the text has. */
  predicate CutAtEnd(s: string, left: string, c: char) {
    && left <= s && Only(s[|left|..], c)
    && (left != "" ==> left[|left| - 1] != c)
  }

  lemma {:induction false} TrimEndOfMeans(s: string, c: char)
    ensures CutAtEnd(s, TrimEndOf(s, c), c)
  {
    if s != [] && s[|s| - 1] == c {
      var init, left := s[..|s| - 1], TrimEndOf(s, c);
      TrimEndOfMeans(init, c);
      assert s[|left|..] == init[|left|..] + [c];
    }
  }

  lemma OnlyAfter(s: string, left: string, c: char)
    requires CutAtEnd(s, left, c)
    ensures forall k | |left| <= k < |s| :: s[k] == c
  {
    forall k | |left| <= k < |s| ensures s[k] == c {
      assert s[|left|..][k - |left|] in s[|left|..];
    }
  }

  /** There is only one way to cut. */
  lemma CutAtEndUnique(s: string, a: string, b: string, c: char)
    requires CutAtEnd(s, a, c) && CutAtEnd(s, b, c)
    ensures a == b
  {
    OnlyAfter(s, a, c);
    OnlyAfter(s, b, c);
    assert |a| == |b|;
  }

  function Equalling(c: char): char -> bool {
    x => x == c
  }

  lemma {:induction false} TrimStartOfMeans(s: string, c: char)
    ensures CutAtStart(s, TrimStartOf(s, c), Equalling(c))
  {
    if s != [] && s[0] == c {
      TrimStartOfMeans(s[1..], c);
      CutOneMore(s, TrimStartOf(s, c), Equalling(c));
    }
  }

  lemma {:induction false} LeadingWordStops(a: string, w: char, b: string)
    requires IsWhitespace(w)
    ensures LeadingWord(a + [w] + b) == LeadingWord(a)
  {
    if a == [] {
      assert a + [w] + b == [w] + b;
    } else if !IsWhitespace(a[0]) {
      assert (a + [w] + b)[1..] == a[1..] + [w] + b;
      LeadingWordStops(a[1..], w, b);
    }
  }

  /** Whitespace separates: the words on either side of it are found independently. */
  lemma {:induction false} TokensAround(a: string, w: char, b: string)
    requires IsWhitespace(w)
    ensures Tokens(a + [w] + b) == Tokens(a) + Tokens(b)
    decreases |a|
  {
    var s := a + [w] + b;
    if a == [] {
      assert s == [w] + b && s[1..] == b;
    } else if IsWhitespace(a[0]) {
      assert s[1..] == a[1..] + [w] + b;
      TokensAround(a[1..], w, b);
    } else {
      var word := LeadingWord(a);
      LeadingWordStops(a, w, b);
      assert s[|word|..] == a[|word|..] + [w] + b;
      TokensAround(a[|word|..], w, b);
      Regroup([word], Tokens(a[|word|..]), Tokens(b));
    }
  }

  /** So words joined by single spaces are found again. */
  lemma {:induction false} TokensOfJoined(words: seq<string>)
    requires forall w | w in words :: w != "" && NoWhitespace(w)
    ensures Tokens(JoinWith(words, " ")) == words
  {
    if |words| == 1 {
      assert words[0] in words;
      TokensOfWord(words[0]);
    } else if |words| > 1 {
      assert words[0] in words && forall w | w in words[1..] :: w in words;
      TokensOfWord(words[0]);
      TokensOfJoined(words[1..]);
      TokensAround(words[0], ' ', JoinWith(words[1..], " "));
      assert [words[0]] + words[1..] == words;
    }
  }
}
