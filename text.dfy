/**
 * String operations the scanner relies on, each written out as the JavaScript
 * built-in it stands for: `String.prototype.split` on one separator character,
 * `includes`, a global regular-expression match counted with `.length`,
 * `trim` and `endsWith`.
 */
module Text {

  // ---------------------------------------------------------------------------
  // Splitting on a separator character (`content.split('\n')`)
  // ---------------------------------------------------------------------------

  /** The pieces between separators, in order; like JavaScript's `split`, the
      empty string gives one empty piece and a trailing separator gives a
      trailing empty piece. */
  function Split(s: string, sep: char): (pieces: seq<string>)
    ensures |pieces| >= 1
    ensures forall k | 0 <= k < |pieces| :: sep !in pieces[k]
  {
    if s == [] then [[]]
    else
      var rest := Split(s[1..], sep);
      if s[0] == sep then [[]] + rest else [[s[0]] + rest[0]] + rest[1..]
  }

  /** The inverse of `Split`: the pieces glued back together with the separator. */
  function JoinWith(pieces: seq<string>, sep: char): string
    requires |pieces| >= 1
  {
    if |pieces| == 1 then pieces[0] else pieces[0] + [sep] + JoinWith(pieces[1..], sep)
  }

  /** Putting a character in front of the first piece puts it in front of
      the join. */
  lemma JoinConsFirst(c: char, pieces: seq<string>, sep: char)
    requires |pieces| >= 1
    ensures JoinWith([[c] + pieces[0]] + pieces[1..], sep) == [c] + JoinWith(pieces, sep)
  {
    var glued := [[c] + pieces[0]] + pieces[1..];
    assert glued[0] == [c] + pieces[0];
    if |pieces| > 1 {
      assert glued[1..] == pieces[1..];
    }
  }

  /** Splitting loses nothing: joining the pieces gives back the text. */
  lemma {:induction false} JoinSplit(s: string, sep: char)
    ensures JoinWith(Split(s, sep), sep) == s
  {
    if s != [] {
      JoinSplit(s[1..], sep);
      var rest := Split(s[1..], sep);
      if s[0] == sep {
        assert ([[]] + rest)[1..] == rest;
      } else {
        JoinConsFirst(s[0], rest, sep);
      }
      assert [s[0]] + s[1..] == s;
    }
  }

  /** A piece free of the separator splits to itself. */
  lemma {:induction false} SplitPlain(p: string, sep: char)
    requires sep !in p
    ensures Split(p, sep) == [p]
  {
    if p != [] {
      assert sep !in p[1..];
      SplitPlain(p[1..], sep);
      assert [p[0]] + p[1..] == p;
    }
  }

  /** A separator-free piece followed by a separator splits off as the first piece. */
  lemma {:induction false} SplitFirst(p: string, sep: char, t: string)
    requires sep !in p
    ensures Split(p + [sep] + t, sep) == [p] + Split(t, sep)
  {
    if p == [] {
      assert p + [sep] + t == [sep] + t;
      assert ([sep] + t)[1..] == t;
    } else {
      assert sep !in p[1..];
      SplitFirst(p[1..], sep, t);
      var s := p + [sep] + t;
      assert s[1..] == p[1..] + [sep] + t;
      assert [p[0]] + p[1..] == p;
    }
  }

  /** Splitting undoes joining, for separator-free pieces. */
  lemma {:induction false} SplitJoin(pieces: seq<string>, sep: char)
    requires |pieces| >= 1
    requires forall k | 0 <= k < |pieces| :: sep !in pieces[k]
    ensures Split(JoinWith(pieces, sep), sep) == pieces
  {
    if |pieces| == 1 {
      SplitPlain(pieces[0], sep);
    } else {
      SplitJoin(pieces[1..], sep);
      SplitFirst(pieces[0], sep, JoinWith(pieces[1..], sep));
      assert [pieces[0]] + pieces[1..] == pieces;
    }
  }

  // ---------------------------------------------------------------------------
  // Substring search (`includes`) and counting (`match(/…/g).length`)
  // ---------------------------------------------------------------------------

  /** `pat` occurs in `s` starting at index `k`. */
  predicate OccursAt(s: string, pat: string, k: int)
  {
    0 <= k && k + |pat| <= |s| && s[k..k + |pat|] == pat
  }

  /** `s.includes(pat)`. */
  predicate Includes(s: string, pat: string)
  {
    exists k | 0 <= k <= |s| - |pat| :: OccursAt(s, pat, k)
  }

  /** The number of matches a global search for the literal `pat` finds in
      `s`: scanning left to right, a match consumes its characters and the
      search resumes after it, so matches never overlap. */
  function CountMatches(s: string, pat: string): nat
    requires pat != []
    decreases |s|
  {
    if |s| < |pat| then 0
    else if s[..|pat|] == pat then 1 + CountMatches(s[|pat|..], pat)
    else CountMatches(s[1..], pat)
  }

  /** Matches do not overlap: together they take no more room than the line. */
  lemma {:induction false} CountBound(s: string, pat: string)
    requires pat != []
    ensures CountMatches(s, pat) * |pat| <= |s|
    decreases |s|
  {
    if |s| >= |pat| {
      if s[..|pat|] == pat {
        var n := CountMatches(s[|pat|..], pat);
        CountBound(s[|pat|..], pat);
        assert (1 + n) * |pat| == |pat| + n * |pat|;
      } else {
        CountBound(s[1..], pat);
      }
    }
  }

  /** A line includes the pattern exactly when the global match finds at least
      one occurrence. */
  lemma {:induction false} IncludesIffMatches(s: string, pat: string)
    requires pat != []
    ensures Includes(s, pat) <==> CountMatches(s, pat) >= 1
    decreases |s|
  {
    if |s| >= |pat| {
      if s[..|pat|] == pat {
        assert OccursAt(s, pat, 0);
      } else {
        IncludesIffMatches(s[1..], pat);
        if Includes(s, pat) {
          var k :| 0 <= k <= |s| - |pat| && OccursAt(s, pat, k);
          assert k != 0;
          assert s[1..][k - 1..k - 1 + |pat|] == s[k..k + |pat|];
          assert OccursAt(s[1..], pat, k - 1);
        }
        if CountMatches(s, pat) >= 1 {
          var k :| 0 <= k <= |s[1..]| - |pat| && OccursAt(s[1..], pat, k);
          assert s[1..][k..k + |pat|] == s[k + 1..k + 1 + |pat|];
          assert OccursAt(s, pat, k + 1);
        }
      }
    }
  }

  /** A character that cannot begin the pattern, put in front, adds no match. */
  lemma CountAfterForeignFirst(c: char, s: string, pat: string)
    requires pat != [] && c != pat[0]
    ensures CountMatches([c] + s, pat) == CountMatches(s, pat)
  {
    var t := [c] + s;
    if |t| >= |pat| {
      assert t[..|pat|][0] == c;
      assert t[1..] == s;
    }
  }

  /** Characters none of which can begin the pattern, put in front, add no match. */
  lemma {:induction false} CountAfterForeignPrefix(w: string, s: string, pat: string)
    requires pat != []
    requires forall i | 0 <= i < |w| :: w[i] != pat[0]
    ensures CountMatches(w + s, pat) == CountMatches(s, pat)
  {
    if w != [] {
      CountAfterForeignPrefix(w[1..], s, pat);
      CountAfterForeignFirst(w[0], w[1..] + s, pat);
      assert w + s == [w[0]] + (w[1..] + s);
    } else {
      assert w + s == s;
    }
  }

  /** A match at the front is counted and the search resumes after it. */
  lemma CountAfterMatch(pat: string, s: string)
    requires pat != []
    ensures CountMatches(pat + s, pat) == 1 + CountMatches(s, pat)
  {
    var t := pat + s;
    assert t[..|pat|] == pat;
    assert t[|pat|..] == s;
  }

  // ---------------------------------------------------------------------------
  // Trimming (`line.trim()`)
  // ---------------------------------------------------------------------------

  /** The characters removed by `trim`: JavaScript's white space and line
      terminators, as a fixed set (the other Unicode space separators are not
      included). */
  predicate IsSpace(c: char)
  {
    c == ' ' || c == '\t' || c == '\n' || c == '\r' || c == '\U{0B}' || c == '\U{0C}'
    || c == '\U{A0}' || c == '\U{2028}' || c == '\U{2029}' || c == '\U{FEFF}'
  }

  predicate AllSpace(s: string)
  {
    forall i | 0 <= i < |s| :: IsSpace(s[i])
  }

  /** `s` with its leading white space removed. */
  function TrimStart(s: string): string
  {
    if s != [] && IsSpace(s[0]) then TrimStart(s[1..]) else s
  }

  /** `s` with its trailing white space removed. */
  function TrimEnd(s: string): string
  {
    if s != [] && IsSpace(s[|s| - 1]) then TrimEnd(s[..|s| - 1]) else s
  }

  /** `TrimStart` removes a prefix of white space and no more: what is left
      is a suffix of `s` that does not start with white space. */
  lemma {:induction false} TrimStartSpec(s: string)
    ensures var r := TrimStart(s);
      && |r| <= |s| && r == s[|s| - |r|..]
      && AllSpace(s[..|s| - |r|])
      && (r == [] || !IsSpace(r[0]))
  {
    if s != [] && IsSpace(s[0]) {
      TrimStartSpec(s[1..]);
      var r := TrimStart(s[1..]);
      assert s[..|s| - |r|] == [s[0]] + s[1..][..|s[1..]| - |r|];
    }
  }

  /** `TrimEnd` removes a suffix of white space and no more: what is left is
      a prefix of `s` that does not end with white space. */
  lemma {:induction false} TrimEndSpec(s: string)
    ensures var r := TrimEnd(s);
      && |r| <= |s| && r == s[..|r|]
      && AllSpace(s[|r|..])
      && (r == [] || !IsSpace(r[|r| - 1]))
  {
    if s != [] && IsSpace(s[|s| - 1]) {
      TrimEndSpec(s[..|s| - 1]);
      var r := TrimEnd(s[..|s| - 1]);
      assert s[|r|..] == s[..|s| - 1][|r|..] + [s[|s| - 1]];
    }
  }

  /** `s.trim()`. */
  function Trim(s: string): string
  {
    TrimEnd(TrimStart(s))
  }

  /** A prefix `r` of a suffix `a` of `s`, where only white space lies
      before `a` and behind `r`, is `s` with white space on either side. */
  lemma SpaceAroundSlice(s: string, a: string, r: string) returns (pre: string, post: string)
    requires |a| <= |s| && a == s[|s| - |a|..] && AllSpace(s[..|s| - |a|])
    requires |r| <= |a| && r == a[..|r|] && AllSpace(a[|r|..])
    ensures AllSpace(pre) && AllSpace(post)
    ensures s == pre + (r + post)
  {
    pre, post := s[..|s| - |a|], a[|r|..];
    assert a == r + post;
    assert s == pre + a;
  }

  /** `trim` removes only white space: `s` is some white space, then
      `Trim(s)`, then some white space. */
  lemma TrimSlice(s: string) returns (pre: string, post: string)
    ensures AllSpace(pre) && AllSpace(post)
    ensures s == pre + (Trim(s) + post)
  {
    var a := TrimStart(s);
    TrimStartSpec(s);
    TrimEndSpec(a);
    pre, post := SpaceAroundSlice(s, a, TrimEnd(a));
  }

  /** Neither end of a trimmed line is white space. */
  lemma TrimEnds(s: string)
    ensures Trim(s) == [] || (!IsSpace(Trim(s)[0]) && !IsSpace(Trim(s)[|Trim(s)| - 1]))
  {
    var a := TrimStart(s);
    var r := TrimEnd(a);
    TrimStartSpec(s);
    TrimEndSpec(a);
    if r != [] {
      assert r[0] == a[0];
    }
  }

  /** Trimming twice is trimming once. */
  lemma TrimIdempotent(s: string)
    ensures Trim(Trim(s)) == Trim(s)
  {
    var r := Trim(s);
    TrimEnds(s);
    if r != [] {
      assert TrimStart(r) == r;
      assert TrimEnd(r) == r;
    }
  }

  /** White space put in front of a line adds no match of a pattern free of
      white space. */
  lemma CountAfterSpace(w: string, s: string, pat: string)
    requires pat != [] && AllSpace(w)
    requires forall i | 0 <= i < |pat| :: !IsSpace(pat[i])
    ensures CountMatches(w + s, pat) == CountMatches(s, pat)
  {
    assert !IsSpace(pat[0]);
    forall k | 0 <= k < |w| ensures w[k] != pat[0] {
      assert IsSpace(w[k]);
    }
    CountAfterForeignPrefix(w, s, pat);
  }

  /** White space put behind a line adds no match of a pattern free of white space. */
  lemma {:induction false} CountBeforeSpace(s: string, w: string, pat: string)
    requires pat != [] && AllSpace(w)
    requires forall i | 0 <= i < |pat| :: !IsSpace(pat[i])
    ensures CountMatches(s + w, pat) == CountMatches(s, pat)
    decreases |s|
  {
    var t := s + w;
    if s == [] {
      assert t == w + [];
      CountAfterSpace(w, [], pat);
    } else if |t| < |pat| {
    } else if |s| < |pat| {
      // The first window of `t` ends inside `w`, so it is not the pattern.
      assert t[..|pat|][|pat| - 1] == w[|pat| - 1 - |s|];
      assert IsSpace(w[|pat| - 1 - |s|]);
      assert t[1..] == s[1..] + w;
      CountBeforeSpace(s[1..], w, pat);
    } else if t[..|pat|] == pat {
      assert s[..|pat|] == t[..|pat|];
      assert t[|pat|..] == s[|pat|..] + w;
      CountBeforeSpace(s[|pat|..], w, pat);
    } else {
      assert s[..|pat|] == t[..|pat|];
      assert t[1..] == s[1..] + w;
      CountBeforeSpace(s[1..], w, pat);
    }
  }

  /** White space on both sides of a line adds no match of a pattern free of
      white space. */
  lemma CountSpaceAround(s: string, pre: string, mid: string, post: string, pat: string)
    requires s == pre + (mid + post)
    requires pat != [] && AllSpace(pre) && AllSpace(post)
    requires forall i | 0 <= i < |pat| :: !IsSpace(pat[i])
    ensures CountMatches(s, pat) == CountMatches(mid, pat)
  {
    CountAfterSpace(pre, mid + post, pat);
    CountBeforeSpace(mid, post, pat);
  }

  /** Trimming never changes how many matches a pattern free of white space has. */
  lemma CountTrimmed(s: string, pat: string)
    requires pat != []
    requires forall i | 0 <= i < |pat| :: !IsSpace(pat[i])
    ensures CountMatches(Trim(s), pat) == CountMatches(s, pat)
  {
    var pre, post := TrimSlice(s);
    CountSpaceAround(s, pre, Trim(s), post, pat);
  }

  // ---------------------------------------------------------------------------
  // Suffix test (`name.endsWith(suffix)`)
  // ---------------------------------------------------------------------------

  predicate EndsWith(s: string, suffix: string)
  {
    |suffix| <= |s| && s[|s| - |suffix|..] == suffix
  }

  /** A suffix test that only looks at the tail after a separator `sep`
      absent from the suffix: the text before it never matters. */
  lemma EndsWithAfterSeparator(d: string, sep: char, name: string, suffix: string)
    requires sep !in suffix
    ensures EndsWith(d + [sep] + name, suffix) <==> EndsWith(name, suffix)
  {
    var s := d + [sep] + name;
    if |name| < |suffix| <= |s| {
      assert s[|s| - |suffix|..][|suffix| - |name| - 1] == sep;
    }
    if |suffix| <= |name| {
      assert s[|s| - |suffix|..] == name[|name| - |suffix|..];
    }
  }
}
