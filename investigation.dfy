/**
 * The directory walk and the aggregation of its findings
 * (`investigateDirectory` and its inner `walk` in important-cop.js).
 *
 * The filesystem is replaced by its snapshot: a directory is the list of its
 * entries in the order the listing returns them, each entry either a
 * directory with its own entries or a file with its content (or the error
 * reading it raises). The walk visits the entries in that order, descends into
 * every directory, hands every other entry whose name ends in `.css` to the
 * line matcher, and folds the crimes into the shared results object.
 */
module Investigation {
  import opened Text
  import opened Matcher

  datatype Option<T> = None | Some(value: T)

  /** A directory entry as `readdirSync` and `statSync` report it. */
  datatype Entry =
    | Directory(name: string, items: seq<Entry>)
    | File(name: string, content: Content)

  /** `path.join(dir, name)`, without the normalisation of `.` and `..`. */
  function Join(dir: string, name: string): string
  {
    dir + "/" + name
  }

  /** The suffix that marks a stylesheet. */
  const Extension: string := ".css"

  /** `item.endsWith('.css')`, case-sensitive. */
  predicate IsStylesheet(name: string)
  {
    EndsWith(name, Extension)
  }

  /** A file handed to `investigateFile`: its full path and what reading it gives. */
  datatype Inspection = Inspection(path: string, content: Content)

  /** The files the walk of `items` (the listing of directory `dir`) hands to
      the matcher, in visiting order. */
  function Inspected(dir: string, items: seq<Entry>): seq<Inspection>
    decreases items
  {
    if items == [] then []
    else Inspected(dir, items[..|items| - 1]) + EntryInspected(dir, items[|items| - 1])
  }

  /** The files the walk hands to the matcher for one entry of directory `dir`:
      a directory is descended into whatever its name, any other entry is
      inspected only when its name ends in `.css`. */
  function EntryInspected(dir: string, item: Entry): seq<Inspection>
    decreases item
  {
    var path := Join(dir, item.name);
    match item
    case Directory(_, children) => Inspected(path, children)
    case File(name, content) => if IsStylesheet(name) then [Inspection(path, content)] else []
  }

  // ---------------------------------------------------------------------------
  // The results object
  // ---------------------------------------------------------------------------

  /** One entry of `results.files`: a path and its (non-empty) crimes. */
  datatype FileRecord = FileRecord(path: string, crimes: seq<Crime>)

  /** `results.worstOffender` when it is set. */
  datatype Offender = Offender(file: string, crimes: nat)

  /** The value of the results object at one moment of the walk. */
  datatype Tally = Tally(totalCrimes: nat, files: seq<FileRecord>, worstOffender: Option<Offender>)

  /** The results object as `investigateDirectory` creates it. */
  const Empty: Tally := Tally(0, [], None)

  /** What the walk does with the crimes of one inspected file: a file with
      crimes is added to `files` and to `totalCrimes`, and replaces the worst
      offender when there is none yet or when it has strictly more crimes. */
  function Record(t: Tally, path: string, crimes: seq<Crime>): Tally
  {
    if |crimes| > 0 then
      Tally(
        t.totalCrimes + |crimes|,
        t.files + [FileRecord(path, crimes)],
        if t.worstOffender.None? || |crimes| > t.worstOffender.value.crimes
        then Some(Offender(path, |crimes|))
        else t.worstOffender)
    else t
  }

  /** The results after recording the given inspections, one after another. */
  function RecordAll(t: Tally, inspections: seq<Inspection>): Tally
  {
    if inspections == [] then t
    else
      var last := inspections[|inspections| - 1];
      Record(RecordAll(t, inspections[..|inspections| - 1]), last.path, Investigate(last.content))
  }

  /** What `investigateDirectory(root)` returns, `items` being the listing of `root`. */
  function Scan(root: string, items: seq<Entry>): Tally
  {
    RecordAll(Empty, Inspected(root, items))
  }

  // ---------------------------------------------------------------------------
  // The invariant of the results object
  // ---------------------------------------------------------------------------

  /** The number of crimes in `files`. */
  function TotalOf(files: seq<FileRecord>): nat
  {
    if files == [] then 0 else TotalOf(files[..|files| - 1]) + |files[|files| - 1].crimes|
  }

  /** `o` names the file of `files` with the most crimes, the first one in
      `files` among those with that many. */
  ghost predicate IsFirstWorst(files: seq<FileRecord>, o: Offender)
  {
    exists k | 0 <= k < |files| ::
      && files[k].path == o.file
      && |files[k].crimes| == o.crimes
      && (forall j | 0 <= j < |files| :: |files[j].crimes| <= o.crimes)
      && (forall j | 0 <= j < k :: |files[j].crimes| < o.crimes)
  }

  /** What the results object promises its reader: only files with crimes are
      listed, `totalCrimes` is the number of their crimes, and the worst
      offender is unset exactly when no file is listed, and otherwise is the
      first listed file with the largest number of crimes. */
  ghost predicate Consistent(t: Tally)
  {
    && (forall k | 0 <= k < |t.files| :: |t.files[k].crimes| > 0)
    && t.totalCrimes == TotalOf(t.files)
    && (t.worstOffender.None? <==> t.files == [])
    && (t.worstOffender.Some? ==> IsFirstWorst(t.files, t.worstOffender.value))
  }

  /** The fresh results object is consistent. */
  lemma EmptyConsistent()
    ensures Consistent(Empty)
  {
  }

  /** A file with more crimes than every file listed so far becomes the
      worst offender. */
  lemma RecordNewWorst(t: Tally, path: string, crimes: seq<Crime>)
    requires Consistent(t) && |crimes| > 0
    requires t.worstOffender.None? || |crimes| > t.worstOffender.value.crimes
    ensures IsFirstWorst(t.files + [FileRecord(path, crimes)], Offender(path, |crimes|))
  {
    var fs := t.files + [FileRecord(path, crimes)];
    var last := |t.files|;
    assert fs[last].path == path;
    if t.worstOffender.Some? {
      var o := t.worstOffender.value;
      var k :| 0 <= k < |t.files| && (forall j | 0 <= j < |t.files| :: |t.files[j].crimes| <= o.crimes);
      assert forall j | 0 <= j < last :: fs[j] == t.files[j];
    }
  }

  /** A file with no more crimes than the worst offender leaves it in place:
      on a tie the earlier file stays. */
  lemma RecordKeepsWorst(t: Tally, path: string, crimes: seq<Crime>)
    requires Consistent(t) && t.worstOffender.Some?
    requires |crimes| <= t.worstOffender.value.crimes
    ensures IsFirstWorst(t.files + [FileRecord(path, crimes)], t.worstOffender.value)
  {
    var fs := t.files + [FileRecord(path, crimes)];
    var o := t.worstOffender.value;
    var k :| 0 <= k < |t.files|
      && t.files[k].path == o.file
      && |t.files[k].crimes| == o.crimes
      && (forall j | 0 <= j < |t.files| :: |t.files[j].crimes| <= o.crimes)
      && (forall j | 0 <= j < k :: |t.files[j].crimes| < o.crimes);
    assert fs[k] == t.files[k];
    assert forall j | 0 <= j < |t.files| :: fs[j] == t.files[j];
  }

  /** Recording one file keeps the results consistent; in particular the
      strict comparison keeps the earlier file on a tie. */
  lemma RecordKeepsConsistent(t: Tally, path: string, crimes: seq<Crime>)
    requires Consistent(t)
    ensures Consistent(Record(t, path, crimes))
  {
    if |crimes| > 0 {
      var fs := t.files + [FileRecord(path, crimes)];
      assert fs[..|fs| - 1] == t.files;
      if t.worstOffender.None? || |crimes| > t.worstOffender.value.crimes {
        RecordNewWorst(t, path, crimes);
      } else {
        RecordKeepsWorst(t, path, crimes);
      }
    }
  }

  /** Recording a single inspection is one step of `Record`. */
  lemma RecordAllSingle(t: Tally, i: Inspection)
    ensures RecordAll(t, [i]) == Record(t, i.path, Investigate(i.content))
  {
    assert [i][..0] == [];
  }

  /** Recording any number of files keeps the results consistent. */
  lemma {:induction false} RecordAllKeepsConsistent(t: Tally, inspections: seq<Inspection>)
    requires Consistent(t)
    ensures Consistent(RecordAll(t, inspections))
  {
    if inspections != [] {
      var n := |inspections|;
      RecordAllKeepsConsistent(t, inspections[..n - 1]);
      RecordKeepsConsistent(RecordAll(t, inspections[..n - 1]), inspections[n - 1].path, Investigate(inspections[n - 1].content));
    }
  }

  /** Recording two runs of files one after the other is recording them together. */
  lemma {:induction false} RecordAllAppend(t: Tally, a: seq<Inspection>, b: seq<Inspection>)
    ensures RecordAll(t, a + b) == RecordAll(RecordAll(t, a), b)
  {
    if b == [] {
      assert a + b == a;
    } else {
      var n := |b|;
      RecordAllAppend(t, a, b[..n - 1]);
      assert (a + b)[..|a + b| - 1] == a + b[..n - 1];
    }
  }

  // ---------------------------------------------------------------------------
  // What a scan reports
  // ---------------------------------------------------------------------------

  /** The records of the inspections that found crimes, in visiting order. */
  function Kept(inspections: seq<Inspection>): seq<FileRecord>
  {
    if inspections == [] then []
    else
      var last := inspections[|inspections| - 1];
      var crimes := Investigate(last.content);
      Kept(inspections[..|inspections| - 1]) + if crimes != [] then [FileRecord(last.path, crimes)] else []
  }

  /** The number of lines that include the marker over all the inspected
      files; a file that could not be read has none. */
  ghost function MarkedLineTotal(inspections: seq<Inspection>): nat
  {
    if inspections == [] then 0
    else
      var last := inspections[|inspections| - 1];
      MarkedLineTotal(inspections[..|inspections| - 1])
        + match last.content
          case Readable(text) => |MarkedLines(Lines(text))|
          case ReadFailure(_) => 0
  }

  /** Recording inspections appends exactly the files with crimes, in the
      order they were visited. */
  lemma {:induction false} RecordAllFiles(t: Tally, inspections: seq<Inspection>)
    ensures RecordAll(t, inspections).files == t.files + Kept(inspections)
  {
    if inspections == [] {
      assert t.files + [] == t.files;
    } else {
      var n := |inspections|;
      var prefix := inspections[..n - 1];
      var last := inspections[n - 1];
      RecordAllFiles(t, prefix);
      var crimes := Investigate(last.content);
      var tail := if crimes != [] then [FileRecord(last.path, crimes)] else [];
      assert RecordAll(t, inspections).files == RecordAll(t, prefix).files + tail;
      assert Kept(inspections) == Kept(prefix) + tail;
      assert t.files + Kept(prefix) + tail == t.files + (Kept(prefix) + tail);
    }
  }

  /** The crimes of one inspected file are its marked lines. */
  lemma InspectionCrimes(content: Content)
    ensures |Investigate(content)| == match content
      case Readable(text) => |MarkedLines(Lines(text))|
      case ReadFailure(_) => 0
  {
    if content.Readable? {
      CrimeCountIsMarkedLineCount(Lines(content.text));
    }
  }

  /** Recording inspections adds one to `totalCrimes` for every marked line of
      every readable inspected file. */
  lemma {:induction false} RecordAllTotal(t: Tally, inspections: seq<Inspection>)
    ensures RecordAll(t, inspections).totalCrimes == t.totalCrimes + MarkedLineTotal(inspections)
  {
    if inspections != [] {
      var n := |inspections|;
      var prefix := inspections[..n - 1];
      var last := inspections[n - 1];
      RecordAllTotal(t, prefix);
      InspectionCrimes(last.content);
    }
  }

  /** The results of every scan are consistent, list exactly the inspected
      files that have crimes, and count every marked line once. */
  lemma ScanReport(root: string, items: seq<Entry>)
    ensures Consistent(Scan(root, items))
    ensures Scan(root, items).files == Kept(Inspected(root, items))
    ensures Scan(root, items).totalCrimes == MarkedLineTotal(Inspected(root, items))
  {
    EmptyConsistent();
    RecordAllKeepsConsistent(Empty, Inspected(root, items));
    RecordAllFiles(Empty, Inspected(root, items));
    RecordAllTotal(Empty, Inspected(root, items));
    assert [] + Kept(Inspected(root, items)) == Kept(Inspected(root, items));
  }

  /** Some inspection of `inspections` is of `r`'s path and finds `r`'s crimes. */
  ghost predicate Yields(inspections: seq<Inspection>, r: FileRecord)
  {
    exists i | 0 <= i < |inspections| ::
      inspections[i].path == r.path && Investigate(inspections[i].content) == r.crimes
  }

  /** An inspection yields `r` iff an earlier one does or the last one does. */
  lemma YieldsStep(inspections: seq<Inspection>, r: FileRecord)
    requires inspections != []
    ensures var n := |inspections|;
      var last := inspections[n - 1];
      Yields(inspections, r) <==>
        Yields(inspections[..n - 1], r) || (last.path == r.path && Investigate(last.content) == r.crimes)
  {
    var n := |inspections|;
    var prefix := inspections[..n - 1];
    if Yields(prefix, r) {
      var i :| 0 <= i < n - 1 && prefix[i].path == r.path && Investigate(prefix[i].content) == r.crimes;
      assert inspections[i] == prefix[i];
    }
    if Yields(inspections, r) {
      var i :| 0 <= i < n && inspections[i].path == r.path && Investigate(inspections[i].content) == r.crimes;
      if i < n - 1 {
        assert prefix[i] == inspections[i];
      }
    }
  }

  /** A file is kept exactly when it was inspected and has crimes. */
  lemma {:induction false} KeptIff(inspections: seq<Inspection>, r: FileRecord)
    ensures r in Kept(inspections) <==> r.crimes != [] && Yields(inspections, r)
  {
    if inspections != [] {
      KeptIff(inspections[..|inspections| - 1], r);
      YieldsStep(inspections, r);
    }
  }

  /** Every crime of a kept file has severity at least 1. */
  lemma KeptSeverities(inspections: seq<Inspection>, k: nat, j: nat)
    requires k < |Kept(inspections)| && j < |Kept(inspections)[k].crimes|
    ensures Kept(inspections)[k].crimes[j].severity >= 1
  {
    var r := Kept(inspections)[k];
    KeptIff(inspections, r);
    var i :| 0 <= i < |inspections| && inspections[i].path == r.path && Investigate(inspections[i].content) == r.crimes;
    InvestigateSeverities(inspections[i].content, j);
  }

  /** Some inspected file could be read and has a line that includes the marker. */
  ghost predicate SomeMarked(inspections: seq<Inspection>)
  {
    exists i | 0 <= i < |inspections| :: inspections[i].content.Readable? && HasMarkedLine(inspections[i].content.text)
  }

  /** A kept file is an inspected readable file with a marked line. */
  lemma KeptHasMarked(inspections: seq<Inspection>)
    requires Kept(inspections) != []
    ensures SomeMarked(inspections)
  {
    var r := Kept(inspections)[0];
    KeptIff(inspections, r);
    var i :| 0 <= i < |inspections| && inspections[i].path == r.path && Investigate(inspections[i].content) == r.crimes;
    InvestigateNonEmptyIff(inspections[i].content);
  }

  /** An inspected readable file with a marked line is kept. */
  lemma MarkedIsKept(inspections: seq<Inspection>, i: nat)
    requires i < |inspections| && inspections[i].content.Readable? && HasMarkedLine(inspections[i].content.text)
    ensures Kept(inspections) != []
  {
    var content := inspections[i].content;
    InvestigateNonEmptyIff(content);
    var r := FileRecord(inspections[i].path, Investigate(content));
    assert Yields(inspections, r);
    KeptIff(inspections, r);
  }

  /** Some file is kept exactly when some inspected file could be read and
      has a line that includes the marker. */
  lemma KeptNonEmptyIff(inspections: seq<Inspection>)
    ensures Kept(inspections) != [] <==> SomeMarked(inspections)
  {
    if Kept(inspections) != [] {
      KeptHasMarked(inspections);
    }
    if SomeMarked(inspections) {
      var i :| 0 <= i < |inspections| && inspections[i].content.Readable? && HasMarkedLine(inspections[i].content.text);
      MarkedIsKept(inspections, i);
    }
  }

  // ---------------------------------------------------------------------------
  // Which files the walk inspects
  // ---------------------------------------------------------------------------

  /** Below directory `dir` with listing `items` there is a non-directory
      entry at `path` whose content is `content`. */
  ghost predicate FileBelow(dir: string, items: seq<Entry>, path: string, content: Content)
    decreases items
  {
    exists k | 0 <= k < |items| :: FileAt(dir, items[k], path, content)
  }

  /** Entry `item` of directory `dir` is, or holds below it, a non-directory
      entry at `path` whose content is `content`. */
  ghost predicate FileAt(dir: string, item: Entry, path: string, content: Content)
    decreases item
  {
    match item
    case File(name, c) => path == Join(dir, name) && c == content
    case Directory(name, children) => FileBelow(Join(dir, name), children, path, content)
  }

  /** The walk inspects exactly the files (not directories) below the root
      whose path ends in `.css`. */
  lemma {:induction false} InspectedIff(dir: string, items: seq<Entry>, path: string, content: Content)
    ensures Inspection(path, content) in Inspected(dir, items)
      <==> FileBelow(dir, items, path, content) && EndsWith(path, Extension)
    decreases items
  {
    if items != [] {
      var n := |items|;
      var prefix := items[..n - 1];
      InspectedIff(dir, prefix, path, content);
      EntryInspectedIff(dir, items[n - 1], path, content);
      if FileBelow(dir, items, path, content) {
        var k :| 0 <= k < n && FileAt(dir, items[k], path, content);
        if k < n - 1 {
          assert prefix[k] == items[k];
        }
      }
      if FileBelow(dir, prefix, path, content) {
        var k :| 0 <= k < n - 1 && FileAt(dir, prefix[k], path, content);
        assert items[k] == prefix[k];
      }
    }
  }

  /** The walk inspects, for one entry, exactly the files at or below it whose
      path ends in `.css`; a directory named `x.css` is descended into, never
      inspected. */
  lemma {:induction false} EntryInspectedIff(dir: string, item: Entry, path: string, content: Content)
    ensures Inspection(path, content) in EntryInspected(dir, item)
      <==> FileAt(dir, item, path, content) && EndsWith(path, Extension)
    decreases item
  {
    match item
    case Directory(name, children) =>
      InspectedIff(Join(dir, name), children, path, content);
    case File(name, _) =>
      EndsWithAfterSeparator(dir, '/', name, Extension);
      assert Join(dir, name) == dir + ['/'] + name;
  }

  // ---------------------------------------------------------------------------
  // The walk, over the results object it updates in place
  // ---------------------------------------------------------------------------

  /** The object `investigateDirectory` creates and `walk` updates. */
  class Results {
    var totalCrimes: nat
    var files: seq<FileRecord>
    var worstOffender: Option<Offender>

    /** The current value of the object. */
    function State(): Tally
      reads this
    {
      Tally(totalCrimes, files, worstOffender)
    }

    ghost predicate Valid()
      reads this
    {
      Consistent(State())
    }

    constructor ()
      ensures State() == Empty && Valid()
    {
      totalCrimes := 0;
      files := [];
      worstOffender := None;
    }

    /** `walk(currentPath)`, `items` being the listing of `currentPath`. */
    method Walk(currentPath: string, items: seq<Entry>)
      requires Valid()
      modifies this
      ensures Valid()
      ensures State() == RecordAll(old(State()), Inspected(currentPath, items))
      decreases items
    {
      for i := 0 to |items|
        invariant Valid()
        invariant State() == RecordAll(old(State()), Inspected(currentPath, items[..i]))
      {
        Visit(currentPath, items[i]);
        RecordAllAppend(old(State()), Inspected(currentPath, items[..i]), EntryInspected(currentPath, items[i]));
        assert items[..i + 1][..i] == items[..i];
      }
      assert items[..|items|] == items;
    }

    /** The `forEach` callback of `walk` for one entry `item` of `currentPath`. */
    method Visit(currentPath: string, item: Entry)
      requires Valid()
      modifies this
      ensures Valid()
      ensures State() == RecordAll(old(State()), EntryInspected(currentPath, item))
      decreases item
    {
      var fullPath := Join(currentPath, item.name);
      match item
      case Directory(_, children) =>
        Walk(fullPath, children);
      case File(name, content) =>
        if IsStylesheet(name) {
          var crimes := InvestigateFile(content);
          RecordAllSingle(State(), Inspection(fullPath, content));
          Add(fullPath, crimes);
        }
    }

    /** The body of the callback once a stylesheet's crimes are known: a file
        with crimes is stored under its path, its crimes are added to the
        total, and it becomes the worst offender when there is none yet or it
        has strictly more crimes. */
    method Add(fullPath: string, crimes: seq<Crime>)
      requires Valid()
      modifies this
      ensures Valid()
      ensures State() == Record(old(State()), fullPath, crimes)
    {
      RecordKeepsConsistent(State(), fullPath, crimes);
      if |crimes| > 0 {
        files := files + [FileRecord(fullPath, crimes)];
        totalCrimes := totalCrimes + |crimes|;
        if worstOffender.None? || |crimes| > worstOffender.value.crimes {
          worstOffender := Some(Offender(fullPath, |crimes|));
        }
      }
    }
  }

  /** `investigateDirectory(dirPath)`, `items` being the listing of `dirPath`. */
  method InvestigateDirectory(dirPath: string, items: seq<Entry>) returns (results: Results)
    ensures fresh(results) && results.Valid()
    ensures results.State() == Scan(dirPath, items)
  {
    results := new Results();
    EmptyConsistent();
    results.Walk(dirPath, items);
  }
}
