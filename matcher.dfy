/**
 * The line matcher (`investigateFile` in important-cop.js): the text of one
 * stylesheet is split into lines, and every line that contains the marker
 * `!important` becomes a crime recording its 1-based line number, the trimmed
 * line and how many times the marker occurs in the untrimmed line.
 */
module Matcher {
  import opened Text

  /** The literal the scanner looks for. */
  const Marker: string := "!important"

  /** One offending line. */
  datatype Crime = Crime(line: nat, code: string, severity: nat)

  /** What reading a file yields: its decoded text, or the error that
      `readFileSync` raised (missing file, permission, ...). */
  datatype Content = Readable(text: string) | ReadFailure(reason: string)

  /** The lines of a file, as `content.split('\n')` gives them. */
  function Lines(text: string): (lines: seq<string>)
    ensures |lines| >= 1
    ensures JoinWith(lines, '\n') == text
  {
    JoinSplit(text, '\n');
    Split(text, '\n')
  }

  /** The marker count of a line, as `(line.match(/!important/g) || []).length`. */
  function Severity(line: string): nat
  {
    CountMatches(line, Marker)
  }

  /** The crimes found in `lines`, numbering the first line 1. */
  function Matches(lines: seq<string>): (crimes: seq<Crime>)
    ensures |crimes| <= |lines|
  {
    if lines == [] then []
    else
      var n := |lines|;
      var line := lines[n - 1];
      Matches(lines[..n - 1])
        + if Includes(line, Marker) then [Crime(n, Trim(line), Severity(line))] else []
  }

  /** What `investigateFile` returns for one file: the crimes of its lines, or
      nothing at all when the file could not be read. */
  function Investigate(content: Content): seq<Crime>
  {
    match content
    case Readable(text) => Matches(Lines(text))
    case ReadFailure(_) => []
  }

  /** `investigateFile`: read the file (here: its content is given), walk its
      lines and push a crime for every line that includes the marker. A read
      failure is caught and gives the empty list. */
  method InvestigateFile(content: Content) returns (crimes: seq<Crime>)
    ensures crimes == Investigate(content)
  {
    match content
    case ReadFailure(_) =>
      crimes := [];
    case Readable(text) =>
      var lines := Lines(text);
      crimes := [];
      for index := 0 to |lines|
        invariant crimes == Matches(lines[..index])
      {
        var line := lines[index];
        if Includes(line, Marker) {
          crimes := crimes + [Crime(index + 1, Trim(line), Severity(line))];
        }
        assert lines[..index + 1][..index] == lines[..index];
      }
      assert lines[..|lines|] == lines;
  }

  // ---------------------------------------------------------------------------
  // What the crimes of a file say about its lines
  // ---------------------------------------------------------------------------

  /** The marker contains no white space, so trimming a line keeps every
      occurrence of it. */
  lemma MarkerHasNoSpace()
    ensures forall i | 0 <= i < |Marker| :: !IsSpace(Marker[i])
  {
  }

  /** Crime `c` describes its line of `lines`: that line includes the marker,
      `code` is the line trimmed, and `severity` counts the markers in the
      untrimmed line and in the trimmed one alike, and is at least 1. */
  ghost predicate Describes(lines: seq<string>, c: Crime)
  {
    1 <= c.line <= |lines| && DescribesLine(lines[c.line - 1], c)
  }

  /** Crime `c` describes `line`, wherever that line is. */
  ghost predicate DescribesLine(line: string, c: Crime)
  {
    && Includes(line, Marker)
    && c.code == Trim(line)
    && c.severity == Severity(line)
    && c.severity == CountMatches(c.code, Marker)
    && c.severity >= 1
  }

  /** The crime recorded for the last line describes it. */
  lemma DescribesLast(lines: seq<string>)
    requires lines != [] && Includes(lines[|lines| - 1], Marker)
    ensures var line := lines[|lines| - 1];
      Describes(lines, Crime(|lines|, Trim(line), Severity(line)))
  {
    var line := lines[|lines| - 1];
    IncludesIffMatches(line, Marker);
    MarkerHasNoSpace();
    CountTrimmed(line, Marker);
  }

  /** A crime describing a line of a prefix describes it in the whole file. */
  lemma DescribesExtends(lines: seq<string>, n: nat, c: Crime)
    requires n <= |lines| && Describes(lines[..n], c)
    ensures Describes(lines, c)
  {
    assert lines[c.line - 1] == lines[..n][c.line - 1];
  }

  /** The `k`-th crime of a file describes the line it names. */
  lemma {:induction false} MatchesSoundAt(lines: seq<string>, k: nat)
    requires k < |Matches(lines)|
    ensures Describes(lines, Matches(lines)[k])
  {
    var n := |lines|;
    var prefix := lines[..n - 1];
    var before := Matches(prefix);
    if k < |before| {
      MatchesSoundAt(prefix, k);
      assert Matches(lines)[k] == before[k];
      DescribesExtends(lines, n - 1, before[k]);
    } else {
      DescribesLast(lines);
    }
  }

  /** Every crime of a file describes the line it names. */
  lemma MatchesSound(lines: seq<string>)
    ensures forall k | 0 <= k < |Matches(lines)| :: Describes(lines, Matches(lines)[k])
  {
    forall k | 0 <= k < |Matches(lines)| ensures Describes(lines, Matches(lines)[k]) {
      MatchesSoundAt(lines, k);
    }
  }

  /** Every line that includes the marker has its crime. */
  lemma {:induction false} MatchesComplete(lines: seq<string>, i: nat)
    requires i < |lines| && Includes(lines[i], Marker)
    ensures exists k | 0 <= k < |Matches(lines)| :: Matches(lines)[k].line == i + 1
  {
    var n := |lines|;
    var prefix := lines[..n - 1];
    if i == n - 1 {
      assert Matches(lines)[|Matches(lines)| - 1].line == n;
    } else {
      MatchesComplete(prefix, i);
      var k :| 0 <= k < |Matches(prefix)| && Matches(prefix)[k].line == i + 1;
      assert Matches(lines)[k] == Matches(prefix)[k];
    }
  }

  /** Every crime names a line of the file, by its 1-based number. */
  lemma {:induction false} MatchesInRange(lines: seq<string>)
    ensures forall k | 0 <= k < |Matches(lines)| :: 1 <= Matches(lines)[k].line <= |lines|
  {
    if lines != [] {
      MatchesInRange(lines[..|lines| - 1]);
    }
  }

  /** Crimes come out in line order, each line at most once. */
  lemma {:induction false} MatchesIncreasing(lines: seq<string>)
    ensures forall j, k | 0 <= j < k < |Matches(lines)| :: Matches(lines)[j].line < Matches(lines)[k].line
  {
    if lines != [] {
      var prefix := lines[..|lines| - 1];
      MatchesIncreasing(prefix);
      MatchesInRange(prefix);
    }
  }

  /** The (0-based) indices of the lines that include the marker. */
  ghost function MarkedLines(lines: seq<string>): set<nat>
  {
    set i: nat | i < |lines| && Includes(lines[i], Marker)
  }

  /** A file has one crime per marked line, however many markers the line holds. */
  lemma {:induction false} CrimeCountIsMarkedLineCount(lines: seq<string>)
    ensures |Matches(lines)| == |MarkedLines(lines)|
  {
    if lines != [] {
      var n := |lines|;
      var prefix := lines[..n - 1];
      CrimeCountIsMarkedLineCount(prefix);
      var before := MarkedLines(prefix);
      assert n - 1 !in before;
      if Includes(lines[n - 1], Marker) {
        assert MarkedLines(lines) == before + {n - 1};
      } else {
        assert MarkedLines(lines) == before;
      }
    } else {
      assert MarkedLines(lines) == {};
    }
  }

  /** The sum of the severities of `crimes`. */
  function TotalSeverity(crimes: seq<Crime>): nat
  {
    if crimes == [] then 0 else TotalSeverity(crimes[..|crimes| - 1]) + crimes[|crimes| - 1].severity
  }

  /** The markers in all of `lines`, counted line by line. */
  function MarkerCount(lines: seq<string>): nat
  {
    if lines == [] then 0 else MarkerCount(lines[..|lines| - 1]) + Severity(lines[|lines| - 1])
  }

  /** Severities account for every marker of the file, while the number of
      crimes counts lines: a line with three markers is one crime of
      severity 3. */
  lemma {:induction false} SeveritiesCountMarkers(lines: seq<string>)
    ensures TotalSeverity(Matches(lines)) == MarkerCount(lines)
    ensures |Matches(lines)| <= MarkerCount(lines)
  {
    if lines != [] {
      var n := |lines|;
      var prefix := lines[..n - 1];
      SeveritiesCountMarkers(prefix);
      var line := lines[n - 1];
      IncludesIffMatches(line, Marker);
      var m := Matches(lines);
      if Includes(line, Marker) {
        assert m[..|m| - 1] == Matches(prefix);
      } else {
        assert m == Matches(prefix);
      }
    }
  }

  /** Every crime `investigateFile` returns has severity at least 1. */
  lemma InvestigateSeverities(content: Content, j: nat)
    requires j < |Investigate(content)|
    ensures Investigate(content)[j].severity >= 1
  {
    MatchesSoundAt(Lines(content.text), j);
  }

  /** A file that cannot be read contributes no crime. */
  lemma UnreadableHasNoCrimes(reason: string)
    ensures Investigate(ReadFailure(reason)) == []
  {
  }

  /** Some line of `text` includes the marker. */
  ghost predicate HasMarkedLine(text: string)
  {
    exists i | 0 <= i < |Lines(text)| :: Includes(Lines(text)[i], Marker)
  }

  /** A readable file has crimes exactly when one of its lines includes the marker. */
  lemma HasCrimesIffMarked(text: string)
    ensures Investigate(Readable(text)) != [] <==> HasMarkedLine(text)
  {
    var lines := Lines(text);
    if Matches(lines) != [] {
      MatchesSound(lines);
      var c := Matches(lines)[0];
      assert Describes(lines, c);
    }
    if i :| 0 <= i < |lines| && Includes(lines[i], Marker) {
      MatchesComplete(lines, i);
    }
  }

  /** `investigateFile` returns crimes exactly when the file could be read
      and one of its lines includes the marker. */
  lemma InvestigateNonEmptyIff(content: Content)
    ensures Investigate(content) != [] <==> content.Readable? && HasMarkedLine(content.text)
  {
    if content.Readable? {
      HasCrimesIffMarked(content.text);
    }
  }

  /** No character of `s` can begin a marker. */
  predicate NoBang(s: string)
  {
    forall i | 0 <= i < |s| :: s[i] != '!'
  }

  /** Text that cannot begin a marker, then a marker, add exactly one match. */
  lemma PlainThenMarker(x: string, y: string)
    requires NoBang(x)
    ensures Severity(x + (Marker + y)) == Severity(y) + 1
  {
    CountAfterForeignPrefix(x, Marker + y, Marker);
    CountAfterMatch(Marker, y);
  }

  /** A line holding three markers among other text has severity 3. */
  lemma ThreeMarkersSeverity(a: string, b: string, c: string, d: string)
    requires NoBang(a) && NoBang(b) && NoBang(c) && NoBang(d)
    ensures Severity(a + Marker + b + Marker + c + Marker + d) == 3
  {
    CountAfterForeignPrefix(d, [], Marker);
    assert d + [] == d;
    var s2 := c + (Marker + d);
    var s1 := b + (Marker + s2);
    PlainThenMarker(c, d);
    PlainThenMarker(b, s2);
    PlainThenMarker(a, s1);
    assert a + Marker + b + Marker + c + Marker + d == a + (Marker + s1);
  }

  /** A one-line file whose line holds three markers has one crime, of
      severity 3: crimes count lines, severity counts markers. */
  lemma ThreeMarkersOneCrime(a: string, b: string, c: string, d: string)
    requires NoBang(a) && NoBang(b) && NoBang(c) && NoBang(d)
    ensures var line := a + Marker + b + Marker + c + Marker + d;
      Matches([line]) == [Crime(1, Trim(line), 3)]
  {
    var line := a + Marker + b + Marker + c + Marker + d;
    ThreeMarkersSeverity(a, b, c, d);
    IncludesIffMatches(line, Marker);
    assert [line][..0] == [];
  }
}
