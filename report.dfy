/**
 * The decisions of the police report and of the script's exit
 * (`printReport` and the last line of important-cop.js): whether the
 * all-clear message is printed, which files and crimes are listed in which
 * order, how long each crime's severity bar is, and the exit code. The
 * wording, emojis and headers of the console output are not modelled.
 */
module Report {
  import opened Text
  import opened Matcher
  import opened Investigation

  /** The most `!` a severity bar shows. */
  const MaxBar: nat := 5

  /** `c.repeat(n)` on a one-character string. */
  function Repeat(c: char, n: nat): (s: string)
    ensures |s| == n
    ensures forall i | 0 <= i < |s| :: s[i] == c
  {
    if n == 0 then [] else Repeat(c, n - 1) + [c]
  }

  /** `'!'.repeat(Math.min(severity, 5))`. */
  function SeverityBar(severity: nat): (bar: string)
    ensures forall i | 0 <= i < |bar| :: bar[i] == '!'
    ensures |bar| <= MaxBar && |bar| <= severity
    ensures |bar| == MaxBar || |bar| == severity
  {
    Repeat('!', if severity < MaxBar then severity else MaxBar)
  }

  /** One printed crime: `Line <line>: <code> <bar>`. */
  datatype CrimeLine = CrimeLine(line: nat, code: string, bar: string)

  /** The printed block of one file: its path, then its crimes. */
  datatype FileBlock = FileBlock(path: string, crimes: seq<CrimeLine>)

  /** What the report says: the all-clear message, or the total, the number of
      files, the worst offender when one is set, and a block per file. */
  datatype Printout =
    | AllClear
    | Findings(total: nat, fileCount: nat, worst: Option<Offender>, blocks: seq<FileBlock>)

  function CrimeLines(crimes: seq<Crime>): (lines: seq<CrimeLine>)
    ensures |lines| == |crimes|
    ensures forall k | 0 <= k < |crimes| ::
      lines[k] == CrimeLine(crimes[k].line, crimes[k].code, SeverityBar(crimes[k].severity))
  {
    if crimes == [] then []
    else CrimeLines(crimes[..|crimes| - 1]) + [CrimeLine(crimes[|crimes| - 1].line, crimes[|crimes| - 1].code, SeverityBar(crimes[|crimes| - 1].severity))]
  }

  function Blocks(files: seq<FileRecord>): (blocks: seq<FileBlock>)
    ensures |blocks| == |files|
    ensures forall k | 0 <= k < |files| ::
      blocks[k] == FileBlock(files[k].path, CrimeLines(files[k].crimes))
  {
    if files == [] then []
    else Blocks(files[..|files| - 1]) + [FileBlock(files[|files| - 1].path, CrimeLines(files[|files| - 1].crimes))]
  }

  /** `printReport(results)`, as the structure of what it prints. */
  function Render(t: Tally): Printout
  {
    if t.totalCrimes == 0 then AllClear
    else Findings(t.totalCrimes, |t.files|, t.worstOffender, Blocks(t.files))
  }

  /** `results.totalCrimes > 0 ? 1 : 0`. */
  function ExitCode(t: Tally): int
  {
    if t.totalCrimes > 0 then 1 else 0
  }

  // ---------------------------------------------------------------------------
  // Properties of the report of a scan
  // ---------------------------------------------------------------------------

  /** For consistent results, the all-clear message, an empty file list, an
      unset worst offender and exit code 0 all go together; a report with
      findings always names a worst offender. */
  lemma AllClearIff(t: Tally)
    requires Consistent(t)
    ensures Render(t) == AllClear <==> t.files == []
    ensures Render(t) == AllClear <==> t.worstOffender.None?
    ensures Render(t) == AllClear <==> ExitCode(t) == 0
    ensures ExitCode(t) == 1 <==> t.totalCrimes > 0
    ensures Render(t).Findings? ==> Render(t).worst.Some? && Render(t).fileCount == |t.files|
  {
    if t.files != [] {
      TotalPositive(t.files);
    }
  }

  /** Files that all have crimes have at least one crime in total. */
  lemma TotalPositive(files: seq<FileRecord>)
    requires files != []
    requires forall k | 0 <= k < |files| :: |files[k].crimes| > 0
    ensures TotalOf(files) > 0
  {
    assert |files[|files| - 1].crimes| > 0;
  }

  /** Every crime a scan reports has severity at least 1. */
  lemma ScanSeverities(root: string, items: seq<Entry>, k: nat, j: nat)
    requires k < |Scan(root, items).files|
    requires j < |Scan(root, items).files[k].crimes|
    ensures Scan(root, items).files[k].crimes[j].severity >= 1
  {
    ScanReport(root, items);
    KeptSeverities(Inspected(root, items), k, j);
  }

  /** The report of a scan lists the recorded files in visiting order, each
      with its crimes in line order, and every severity bar shows between one
      and five `!`: as many as the line has markers, capped at five. */
  lemma ScanBars(root: string, items: seq<Entry>)
    ensures var t := Scan(root, items);
      Render(t).Findings? ==>
        forall k, j | 0 <= k < |t.files| && 0 <= j < |t.files[k].crimes| ::
          var bar := Render(t).blocks[k].crimes[j].bar;
          && Render(t).blocks[k].path == t.files[k].path
          && Render(t).blocks[k].crimes[j].line == t.files[k].crimes[j].line
          && 1 <= |bar| <= MaxBar
          && (|bar| == t.files[k].crimes[j].severity || (|bar| == MaxBar && t.files[k].crimes[j].severity > MaxBar))
  {
    var t := Scan(root, items);
    forall k, j | 0 <= k < |t.files| && 0 <= j < |t.files[k].crimes|
      ensures t.files[k].crimes[j].severity >= 1
    {
      ScanSeverities(root, items, k, j);
    }
  }

  /** An exit code of 1 comes from a readable inspected stylesheet with a
      marked line. */
  lemma ExitOneHasWitness(root: string, items: seq<Entry>)
    requires ExitCode(Scan(root, items)) == 1
    ensures var ins := Inspected(root, items);
      exists i | 0 <= i < |ins| :: ins[i].content.Readable? && HasMarkedLine(ins[i].content.text)
  {
    ScanReport(root, items);
    AllClearIff(Scan(root, items));
    KeptNonEmptyIff(Inspected(root, items));
  }

  /** A readable inspected stylesheet with a marked line makes the exit code 1. */
  lemma WitnessMakesExitOne(root: string, items: seq<Entry>, i: nat)
    requires var ins := Inspected(root, items);
      i < |ins| && ins[i].content.Readable? && HasMarkedLine(ins[i].content.text)
    ensures ExitCode(Scan(root, items)) == 1
  {
    ScanReport(root, items);
    AllClearIff(Scan(root, items));
    KeptNonEmptyIff(Inspected(root, items));
  }

  /** The script exits with 1 exactly when some inspected stylesheet could be
      read and has a line that includes the marker. */
  lemma ExitCodeIff(root: string, items: seq<Entry>)
    ensures var ins := Inspected(root, items);
      ExitCode(Scan(root, items)) == 1
      <==> exists i | 0 <= i < |ins| :: ins[i].content.Readable? && HasMarkedLine(ins[i].content.text)
  {
    var ins := Inspected(root, items);
    if ExitCode(Scan(root, items)) == 1 {
      ExitOneHasWitness(root, items);
    }
    if i :| 0 <= i < |ins| && ins[i].content.Readable? && HasMarkedLine(ins[i].content.text) {
      WitnessMakesExitOne(root, items, i);
    }
  }

  // ---------------------------------------------------------------------------
  // Worked scenarios
  // ---------------------------------------------------------------------------

  /** Three stylesheets listed in one directory are inspected in listing order. */
  lemma InspectThree(root: string, a: Content, b: Content, c: Content)
    ensures Inspected(root, [File("A.css", a), File("B.css", b), File("C.css", c)])
      == [Inspection(Join(root, "A.css"), a), Inspection(Join(root, "B.css"), b), Inspection(Join(root, "C.css"), c)]
  {
    var items := [File("A.css", a), File("B.css", b), File("C.css", c)];
    assert IsStylesheet("A.css") && IsStylesheet("B.css") && IsStylesheet("C.css");
    assert items[..2][..1] == items[..1];
    assert items[..3][..2] == items[..2];
    assert items[..1][..0] == [];
    var pa, pb, pc := Join(root, "A.css"), Join(root, "B.css"), Join(root, "C.css");
    assert EntryInspected(root, items[0]) == [Inspection(pa, a)];
    assert EntryInspected(root, items[1]) == [Inspection(pb, b)];
    assert EntryInspected(root, items[2]) == [Inspection(pc, c)];
    assert Inspected(root, items[..1]) == Inspected(root, []) + [Inspection(pa, a)];
    assert Inspected(root, items[..2]) == Inspected(root, items[..1]) + [Inspection(pb, b)];
    assert items[..3] == items;
    assert Inspected(root, items) == Inspected(root, items[..2]) + [Inspection(pc, c)];
  }

  /** Recording files with 2, 5 and 5 crimes, in that order. */
  lemma RecordTwoFiveFive(pa: string, pb: string, pc: string, a: Content, b: Content, c: Content)
    requires |Investigate(a)| == 2 && |Investigate(b)| == 5 && |Investigate(c)| == 5
    ensures RecordAll(Empty, [Inspection(pa, a), Inspection(pb, b), Inspection(pc, c)]).worstOffender
      == Some(Offender(pb, 5))
    ensures RecordAll(Empty, [Inspection(pa, a), Inspection(pb, b), Inspection(pc, c)]).totalCrimes == 12
  {
    var ins := [Inspection(pa, a), Inspection(pb, b), Inspection(pc, c)];
    assert ins[..2][..1] == ins[..1];
    assert ins[..1][..0] == [];
    assert ins[..1][0] == Inspection(pa, a);
    assert RecordAll(Empty, ins[..1][..0]) == Empty;
    var t1 := RecordAll(Empty, ins[..1]);
    assert t1 == Record(Empty, pa, Investigate(a));
    var t2 := RecordAll(Empty, ins[..2]);
    assert t2 == Record(t1, pb, Investigate(b));
    assert RecordAll(Empty, ins) == Record(t2, pc, Investigate(c));
  }

  /** Files A, B and C with 2, 5 and 5 crimes, visited in that order: the
      worst offender is B, the first to reach the maximum, not C. */
  lemma FirstToReachMaximumWins(root: string, a: Content, b: Content, c: Content)
    requires |Investigate(a)| == 2 && |Investigate(b)| == 5 && |Investigate(c)| == 5
    ensures Scan(root, [File("A.css", a), File("B.css", b), File("C.css", c)]).worstOffender
      == Some(Offender(Join(root, "B.css"), 5))
    ensures Scan(root, [File("A.css", a), File("B.css", b), File("C.css", c)]).totalCrimes == 12
  {
    InspectThree(root, a, b, c);
    RecordTwoFiveFive(Join(root, "A.css"), Join(root, "B.css"), Join(root, "C.css"), a, b, c);
  }

  /** A directory named like a stylesheet is walked into, and a file that does
      not end in `.css` is never read, whatever it contains. */
  lemma NamesDecide(root: string, inner: seq<Entry>, other: Content)
    ensures Inspected(root, [Directory("x.css", inner), File("b.txt", other)])
      == Inspected(Join(root, "x.css"), inner)
  {
    var items := [Directory("x.css", inner), File("b.txt", other)];
    assert !IsStylesheet("b.txt");
    assert items[..1][..0] == [];
    assert Inspected(root, items[..1]) == Inspected(Join(root, "x.css"), inner);
  }
  /** A two-line text whose first line alone has a marker has one crime, on line 1. */
  lemma FirstOfTwoLines(first: string, second: string)
    requires Includes(first, Marker) && !Includes(second, Marker)
    requires '\n' !in first && '\n' !in second
    ensures Investigate(Readable(first + "\n" + second)) == [Crime(1, Trim(first), Severity(first))]
  {
    var text := first + "\n" + second;
    assert JoinWith([first, second], '\n') == text by {
      assert [first, second][1..] == [second];
    }
    SplitJoin([first, second], '\n');
    var lines := Lines(text);
    assert lines[..1] == [first];
    assert [first][..0] == [];
    assert Matches(lines[..1]) == [Crime(1, Trim(first), Severity(first))];
  }

  /** Of a stylesheet and a text file, only the stylesheet is inspected. */
  lemma InspectStylesheetOnly(root: string, a: Content, other: Content)
    ensures Inspected(root, [File("a.css", a), File("b.txt", other)]) == [Inspection(Join(root, "a.css"), a)]
  {
    var items := [File("a.css", a), File("b.txt", other)];
    assert IsStylesheet("a.css") && !IsStylesheet("b.txt");
    assert items[..1][..0] == [];
    assert Inspected(root, items[..1]) == Inspected(root, []) + [Inspection(Join(root, "a.css"), a)];
    assert Inspected(root, items) == Inspected(root, items[..1]) + [];
  }

  /** A directory holding `a.css`, whose first of two lines has a marker, and
      `b.txt`, whatever it holds: one crime, in `a.css` only, and exit code 1. */
  lemma OneStylesheetOneCrime(root: string, first: string, second: string, other: Content)
    requires Includes(first, Marker) && !Includes(second, Marker)
    requires '\n' !in first && '\n' !in second
    ensures var t := Scan(root, [File("a.css", Readable(first + "\n" + second)), File("b.txt", other)]);
      && t.totalCrimes == 1
      && t.files == [FileRecord(Join(root, "a.css"), [Crime(1, Trim(first), Severity(first))])]
      && t.worstOffender == Some(Offender(Join(root, "a.css"), 1))
      && ExitCode(t) == 1
  {
    var a := Readable(first + "\n" + second);
    FirstOfTwoLines(first, second);
    InspectStylesheetOnly(root, a, other);
    var ins := [Inspection(Join(root, "a.css"), a)];
    assert ins[..0] == [];
    assert RecordAll(Empty, ins) == Record(Empty, Join(root, "a.css"), Investigate(a));
  }
}
