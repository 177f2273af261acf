/**
 The wildcard matcher of the build-context filter.
 */
module Glob {
  import opened Text

  // ---------------------------------------------------------------------------
  // What a pattern means
  // ---------------------------------------------------------------------------

  function Concat(parts: seq<string>): string {
    if parts == [] then [] else parts[0] + Concat(parts[1..])
  }

  /** What one pattern character may stand for. */
  predicate StandsFor(c: char, part: string) {
    c == '*' || (c == '?' && |part| == 1) || part == [c]
  }

  /** `t` is `p` with every pattern character replaced by a text it may stand for. */
  ghost predicate Expands(p: string, parts: seq<string>, t: string) {
    && |parts| == |p|
    && (forall i | 0 <= i < |p| :: StandsFor(p[i], parts[i]))
    && Concat(parts) == t
  }

  /** The same relation by recursion on the two strings. */
  predicate Matches(p: string, t: string)
    decreases |p|, |t|
  {
    if p == [] then t == []
    else if p[0] == '*' then Matches(p[1..], t) || (t != [] && Matches(p, t[1..]))
    else t != [] && (p[0] == '?' || p[0] == t[0]) && Matches(p[1..], t[1..])
  }

  lemma {:induction false} ExpansionMatches(p: string, parts: seq<string>, t: string)
    requires Expands(p, parts, t)
    ensures Matches(p, t)
  {
    if p != [] {
      ExpansionMatches(p[1..], parts[1..], Concat(parts[1..]));
      assert t == parts[0] + Concat(parts[1..]);
      if p[0] == '*' {
        StarAbsorbs(p, parts[0], Concat(parts[1..]));
      } else {
        assert |parts[0]| == 1;
        assert t[1..] == Concat(parts[1..]);
      }
    }
  }

  lemma {:induction false} StarAbsorbs(p: string, a: string, b: string)
    requires p != [] && p[0] == '*' && Matches(p[1..], b)
    ensures Matches(p, a + b)
  {
    if a == [] {
      assert a + b == b;
    } else {
      StarAbsorbs(p, a[1..], b);
      assert (a + b)[1..] == a[1..] + b;
    }
  }

  lemma {:induction false} MatchExpands(p: string, t: string) returns (parts: seq<string>)
    requires Matches(p, t)
    ensures Expands(p, parts, t)
    decreases |p|, |t|
  {
    if p == [] {
      parts := [];
    } else if p[0] == '*' && Matches(p[1..], t) {
      var rest := MatchExpands(p[1..], t);
      parts := [[]] + rest;
      assert parts[1..] == rest;
    } else if p[0] == '*' {
      var rest := MatchExpands(p, t[1..]);
      parts := [[t[0]] + rest[0]] + rest[1..];
      assert parts[1..] == rest[1..];
      assert Concat(parts) == [t[0]] + (rest[0] + Concat(rest[1..]));
      assert [t[0]] + t[1..] == t;
    } else {
      var rest := MatchExpands(p[1..], t[1..]);
      parts := [[t[0]]] + rest;
      assert parts[1..] == rest;
      assert [t[0]] + t[1..] == t;
    }
  }

  /** The recursive relation is exactly "some expansion of the pattern gives the text". */
  lemma MatchesIffExpansion(p: string, t: string)
    ensures Matches(p, t) <==> exists parts :: Expands(p, parts, t)
  {
    if Matches(p, t) {
      var parts := MatchExpands(p, t);
    }
    if parts :| Expands(p, parts, t) {
      ExpansionMatches(p, parts, t);
    }
  }

  // ---------------------------------------------------------------------------
  // What the matcher decides
  // ---------------------------------------------------------------------------

  predicate AllStars(p: string) {
    forall i | 0 <= i < |p| :: p[i] == '*'
  }

  predicate Consumes(c: char, x: char) {
    c == '?' || c == x
  }

  /**
   The matcher's decision with unlimited backtracking.  The literal test precedes the wildcard
   test, so a `*` first met by a `*` of the text is used up by it.
   */
  predicate Accepts(p: string, t: string)
    decreases |p|, |t|, 0
  {
    if t == [] then AllStars(p)
    else if p == [] then false
    else if Consumes(p[0], t[0]) then Accepts(p[1..], t[1..])
    else p[0] == '*' && AcceptsTail(p[1..], t)
  }

  /** Some tail of `t` is accepted. */
  predicate AcceptsTail(p: string, t: string)
    decreases |p|, |t|, 1
  {
    Accepts(p, t) || (t != [] && AcceptsTail(p, t[1..]))
  }

  lemma {:induction false} TailIntro(p: string, t: string, k: nat)
    requires k <= |t| && AcceptsTail(p, t[k..])
    ensures AcceptsTail(p, t)
  {
    if k == 0 {
      assert t[0..] == t;
    } else {
      assert t[1..][k - 1..] == t[k..];
      TailIntro(p, t[1..], k - 1);
    }
  }

  lemma {:induction false} TailElim(p: string, t: string) returns (k: nat)
    requires AcceptsTail(p, t)
    ensures k <= |t| && Accepts(p, t[k..])
  {
    if Accepts(p, t) {
      k := 0;
      assert t[0..] == t;
    } else {
      k := TailElim(p, t[1..]);
      assert t[1..][k..] == t[k + 1..];
      k := k + 1;
    }
  }

  lemma AllStarsTail(p: string, t: string)
    requires AllStars(p)
    ensures AcceptsTail(p, t)
  {
    assert t[|t|..] == [];
    TailIntro(p, t, |t|);
  }

  /** The first `m` characters of `q` consume the first `m` characters of `w`, one for one. */
  ghost predicate Aligned(q: string, w: string, m: nat) {
    m <= |q| && m <= |w| && forall i | 0 <= i < m :: Consumes(q[i], w[i])
  }

  /**
   Why one remembered star is enough.  The scan reached the star `q[m]` by consuming `w[..m]` one
   for one.  Any acceptance that starts later in `w` is also found by letting that star absorb.
   */
  lemma {:induction false} LaterStartsReachStar(q: string, w: string, m: nat, d: nat)
    requires Aligned(q, w, m) && m < |q| && q[m] == '*'
    requires d <= |w| && Accepts(q, w[d..])
    ensures AcceptsTail(q[m + 1..], w[m..])
    decreases m
  {
    var u := w[d..];
    if u == [] {
      AllStarsTail(q[m + 1..], w[m..]);
    } else if m == 0 {
      assert w[0..] == w;
      if Consumes(q[0], u[0]) {
        assert u[1..] == w[d + 1..];
        TailIntro(q[1..], w, d + 1);
      } else {
        TailIntro(q[1..], w, d);
      }
    } else {
      assert q[1..][m - 1 + 1..] == q[m + 1..];
      assert w[1..][m - 1..] == w[m..];
      if Consumes(q[0], u[0]) {
        assert u[1..] == w[1..][d..];
        LaterStartsReachStar(q[1..], w[1..], m - 1, d);
      } else {
        // q[0] is a star that consumed w[0] literally, so this start is strictly later.
        assert d != 0;
        var k := TailElim(q[1..], u);
        assert u[k..] == w[1..][d - 1 + k..];
        LaterStartsReachStar(q[1..], w[1..], m - 1, d - 1 + k);
      }
    }
  }

  /** The same at the end of the text: if some later start is accepted, so is the scan as it stands. */
  lemma {:induction false} LaterStartsReachEnd(q: string, w: string, d: nat)
    requires Aligned(q, w, |w|)
    requires d <= |w| && Accepts(q, w[d..])
    ensures AllStars(q[|w|..])
    decreases |w|
  {
    var u := w[d..];
    if w != [] && u != [] {
      assert q[1..][|w| - 1..] == q[|w|..];
      if Consumes(q[0], u[0]) {
        assert u[1..] == w[1..][d..];
        LaterStartsReachEnd(q[1..], w[1..], d);
      } else {
        assert d != 0;
        var k := TailElim(q[1..], u);
        assert u[k..] == w[1..][d - 1 + k..];
        LaterStartsReachEnd(q[1..], w[1..], d - 1 + k);
      }
    }
  }

  /** The one star that the scan remembers: its place in the pattern, and the text it has absorbed up to. */
  datatype Star = NoStar | Star(ps: nat, ts: nat)

  /** What is left to decide when the scan is at (pi, ti) and remembers the star `star`. */
  ghost predicate Remaining(p: string, t: string, pi: nat, ti: nat, star: Star)
    requires pi <= |p| && ti <= |t|
    requires star.Star? ==> star.ps < |p| && star.ts <= |t|
  {
    || Accepts(p[pi..], t[ti..])
    || (star.Star? && star.ts < |t| && AcceptsTail(p[star.ps + 1..], t[star.ts + 1..]))
  }

  /** The remembered star, and the one-for-one consumption since it was last extended. */
  ghost predicate StarInv(p: string, t: string, pi: nat, ti: nat, star: Star) {
    && pi <= |p| && ti <= |t|
    && (star.Star? ==>
          var ps, ts := star.ps, star.ts;
          && ps < pi && ts <= ti && ti - ts == pi - ps - 1
          && Aligned(p[ps + 1..], t[ts..], ti - ts))
  }

  /** The scan is on course: what is left to decide is what was asked. */
  ghost predicate Scanning(p: string, t: string, pi: nat, ti: nat, star: Star) {
    StarInv(p, t, pi, ti, star) && Accepts(p, t) == Remaining(p, t, pi, ti, star)
  }

  lemma ScanStarts(p: string, t: string)
    ensures Scanning(p, t, 0, 0, NoStar)
  {
    assert p[0..] == p && t[0..] == t;
  }

  lemma Consume(p: string, t: string, pi: nat, ti: nat, star: Star)
    requires Scanning(p, t, pi, ti, star) && pi < |p| && ti < |t| && Consumes(p[pi], t[ti])
    ensures Scanning(p, t, pi + 1, ti + 1, star)
  {
    assert p[pi..][1..] == p[pi + 1..] && t[ti..][1..] == t[ti + 1..];
    if star.Star? {
      var ps, ts := star.ps, star.ts;
      assert p[ps + 1..][ti - ts] == p[pi] && t[ts..][ti - ts] == t[ti];
    }
  }

  /** Meeting a new star, the old one may be forgotten. */
  lemma ForgetOldStar(p: string, t: string, pi: nat, ti: nat, star: Star)
    requires Scanning(p, t, pi, ti, star) && pi < |p| && ti < |t|
    requires p[pi] == '*' && !Consumes(p[pi], t[ti])
    ensures Scanning(p, t, pi + 1, ti, Star(pi, ti))
  {
    var q, u := p[pi + 1..], t[ti..];
    assert p[pi..][1..] == q && u[1..] == t[ti + 1..];
    assert Accepts(p[pi..], u) == AcceptsTail(q, u);
    if star.Star? && star.ts < |t| && AcceptsTail(p[star.ps + 1..], t[star.ts + 1..]) {
      var ps, ts := star.ps, star.ts;
      var k := TailElim(p[ps + 1..], t[ts + 1..]);
      assert t[ts + 1..][k..] == t[ts..][k + 1..];
      LaterStartsReachStar(p[ps + 1..], t[ts..], ti - ts, k + 1);
      assert p[ps + 1..][ti - ts + 1..] == q && t[ts..][ti - ts..] == u;
    }
  }

  lemma Backtrack(p: string, t: string, pi: nat, ti: nat, ps: nat, ts: nat)
    requires Scanning(p, t, pi, ti, Star(ps, ts)) && ti < |t|
    requires pi == |p| || (!Consumes(p[pi], t[ti]) && p[pi] != '*')
    ensures Scanning(p, t, ps + 1, ts + 1, Star(ps, ts + 1))
  {
    assert !Accepts(p[pi..], t[ti..]);
    var u := t[ts + 1..];
    assert u != [] ==> u[1..] == t[ts + 1 + 1..];
  }

  lemma AtEnd(p: string, t: string, pi: nat, star: Star)
    requires Scanning(p, t, pi, |t|, star)
    ensures Accepts(p, t) == AllStars(p[pi..])
  {
    if star.Star? && star.ts < |t| && AcceptsTail(p[star.ps + 1..], t[star.ts + 1..]) {
      var ps, ts := star.ps, star.ts;
      var k := TailElim(p[ps + 1..], t[ts + 1..]);
      assert t[ts + 1..][k..] == t[ts..][k + 1..];
      LaterStartsReachEnd(p[ps + 1..], t[ts..], k + 1);
      assert p[ps + 1..][|t[ts..]|..] == p[pi..];
    }
  }

  lemma Mismatch(p: string, t: string, pi: nat, ti: nat)
    requires Scanning(p, t, pi, ti, NoStar) && ti < |t|
    requires pi == |p| || (!Consumes(p[pi], t[ti]) && p[pi] != '*')
    ensures !Accepts(p, t)
  {
  }

  /** The pattern cannot go on at this character. */
  predicate Stuck(p: string, t: string, pi: nat, ti: nat)
    requires pi <= |p| && ti < |t|
  {
    pi == |p| || (!Consumes(p[pi], t[ti]) && p[pi] != '*')
  }

  /** Each step of the scan keeps it on course. */
  lemma ScanStep(p: string, t: string, pi: nat, ti: nat, star: Star)
    requires Scanning(p, t, pi, ti, star) && ti < |t|
    ensures pi < |p| && Consumes(p[pi], t[ti]) ==> Scanning(p, t, pi + 1, ti + 1, star)
    ensures pi < |p| && p[pi] == '*' && !Consumes(p[pi], t[ti]) ==> Scanning(p, t, pi + 1, ti, Star(pi, ti))
    ensures Stuck(p, t, pi, ti) && star.Star? ==> Scanning(p, t, star.ps + 1, star.ts + 1, Star(star.ps, star.ts + 1))
    ensures Stuck(p, t, pi, ti) && star.NoStar? ==> !Accepts(p, t)
  {
    if pi < |p| && Consumes(p[pi], t[ti]) {
      Consume(p, t, pi, ti, star);
    } else if pi < |p| && p[pi] == '*' {
      ForgetOldStar(p, t, pi, ti, star);
    } else if star.Star? {
      Backtrack(p, t, pi, ti, star.ps, star.ts);
    } else {
      Mismatch(p, t, pi, ti);
    }
  }

  lemma StarsFrom(p: string, pi: nat)
    requires pi <= |p|
    ensures pi < |p| && p[pi] == '*' ==> AllStars(p[pi..]) == AllStars(p[pi + 1..])
    ensures pi < |p| && p[pi] != '*' ==> !AllStars(p[pi..])
    ensures pi == |p| ==> AllStars(p[pi..])
  {
    if pi < |p| {
      assert p[pi..] == [p[pi]] + p[pi + 1..];
    }
  }

  /** The scan with a single remembered star decides exactly what unlimited backtracking decides. */
  method SimpleGlobMatch(pattern: string, text: string) returns (matched: bool)
    ensures matched == Accepts(pattern, text)
  {
    var star := NoStar;
    var pi: nat, ti: nat := 0, 0;
    ScanStarts(pattern, text);
    while ti < |text|
      invariant Scanning(pattern, text, pi, ti, star)
      decreases if star.Star? then |pattern| - star.ps else |pattern| + 1,
                if star.Star? then |text| - star.ts else |text| + 1,
                |text| - ti
    {
      ScanStep(pattern, text, pi, ti, star);
      if pi < |pattern| && (pattern[pi] == '?' || pattern[pi] == text[ti]) {
        pi, ti := pi + 1, ti + 1;
      } else if pi < |pattern| && pattern[pi] == '*' {
        star := Star(pi, ti);
        pi := pi + 1;
      } else if star.Star? {
        var ps, ts := star.ps, star.ts;
        pi := ps + 1;
        star := Star(ps, ts + 1);
        ti := ts + 1;
      } else {
        return false;
      }
    }
    AtEnd(pattern, text, pi, star);
    matched := OnlyStarsLeft(pattern, pi);
  }

  method OnlyStarsLeft(pattern: string, from: nat) returns (all: bool)
    requires from <= |pattern|
    ensures all == AllStars(pattern[from..])
  {
    var pi := from;
    while pi < |pattern| && pattern[pi] == '*'
      invariant from <= pi <= |pattern|
      invariant AllStars(pattern[from..]) == AllStars(pattern[pi..])
    {
      StarsFrom(pattern, pi);
      pi := pi + 1;
    }
    StarsFrom(pattern, pi);
    all := pi == |pattern|;
  }

  // ---------------------------------------------------------------------------
  // The matcher against the meaning
  // ---------------------------------------------------------------------------

  lemma {:induction false} StarsMatch(p: string, t: string)
    requires AllStars(p)
    ensures Matches(p, []) && (p != [] ==> Matches(p, t))
  {
    if p != [] {
      StarsMatch(p[1..], t);
      StarAbsorbs(p, t, []);
      assert t + [] == t;
    }
  }

  /** Soundness, for every text: whatever is accepted matches. */
  lemma {:induction false} AcceptedMatches(p: string, t: string)
    requires Accepts(p, t)
    ensures Matches(p, t)
    decreases |p|, |t|
  {
    if t == [] {
      StarsMatch(p, t);
    } else if Consumes(p[0], t[0]) {
      AcceptedMatches(p[1..], t[1..]);
      if p[0] == '*' {
        StarAbsorbs(p, [t[0]], t[1..]);
        assert [t[0]] + t[1..] == t;
      }
    } else {
      var k := TailElim(p[1..], t);
      AcceptedMatches(p[1..], t[k..]);
      StarAbsorbs(p, t[..k], t[k..]);
      assert t[..k] + t[k..] == t;
    }
  }

  /** Completeness, for texts without a `*`. */
  lemma {:induction false} MatchAccepted(p: string, t: string)
    requires '*' !in t && Matches(p, t)
    ensures Accepts(p, t)
    decreases |p|, |t|
  {
    if p == [] {
    } else if p[0] != '*' {
      MatchAccepted(p[1..], t[1..]);
    } else if Matches(p[1..], t) {
      MatchAccepted(p[1..], t);
    } else {
      MatchAccepted(p, t[1..]);
      assert t[0] in t;
      if t[1..] == [] {
        AllStarsTail(p[1..], t);
      } else {
        assert t[1] == t[1..][0];
      }
    }
  }

  function QuestionMarks(n: nat): (p: string)
    ensures |p| == n && forall c | c in p :: c == '?'
  {
    if n == 0 then [] else ['?'] + QuestionMarks(n - 1)
  }

  lemma {:induction false} QuestionMarksDecide(n: nat, t: string)
    ensures Accepts(QuestionMarks(n), t) <==> |t| == n
    ensures Matches(QuestionMarks(n), t) <==> |t| == n
  {
    var p := QuestionMarks(n);
    if n != 0 {
      assert p[0] in p && p[1..] == QuestionMarks(n - 1);
      if t != [] {
        QuestionMarksDecide(n - 1, t[1..]);
      }
    }
  }

  /** A pattern on which the matcher is wrong for a text with a `*` at `i`. */
  function Misjudged(t: string, i: nat): string
    requires i <= |t|
  {
    QuestionMarks(i) + "*" + QuestionMarks(|t| - i)
  }

  lemma {:induction false} MisjudgedFails(t: string, i: nat)
    requires i < |t| && t[i] == '*'
    ensures Matches(Misjudged(t, i), t) && !Accepts(Misjudged(t, i), t)
  {
    var p := Misjudged(t, i);
    if i == 0 {
      assert p == "*" + QuestionMarks(|t|);
      assert p[1..] == QuestionMarks(|t|);
      QuestionMarksDecide(|t|, t);
      QuestionMarksDecide(|t|, t[1..]);
    } else {
      assert QuestionMarks(i) == ['?'] + QuestionMarks(i - 1);
      assert p[0] == '?' && p[1..] == Misjudged(t[1..], i - 1);
      MisjudgedFails(t[1..], i - 1);
    }
  }

  /**
   Exactly when the matcher is right: it agrees with the meaning of every pattern on a given text
   if and only if that text has no `*`.
   */
  lemma MatcherExactIffNoStarInText(t: string)
    ensures (forall p :: Accepts(p, t) <==> Matches(p, t)) <==> '*' !in t
  {
    if '*' !in t {
      forall p ensures Accepts(p, t) <==> Matches(p, t) {
        if Accepts(p, t) { AcceptedMatches(p, t); }
        if Matches(p, t) { MatchAccepted(p, t); }
      }
    } else {
      MisjudgedFails(t, IndexOf(t, '*'));
    }
  }
}
