# CSS !important cop, modelled in Dafny

`important-cop.js` is a one-file Node script. It walks a directory tree. It reads
every file whose name ends in `.css`, and it reports every line that contains
the literal `!important`. For each such line (a *crime*) it records the 1-based
line number, the trimmed line (`code`) and the number of markers on the line
(`severity`). The walk folds the crimes into one results object. That object
holds `totalCrimes`, the `files` that have crimes (in visiting order) and the
`worstOffender`, which is the file with the most crimes, the first one on a
tie. The report prints either an all-clear message or the findings, with a
severity bar of `min(severity, 5)` exclamation marks per crime. The script
exits with 1 when there is any crime and with 0 otherwise.

The model has four modules:

- `Text` (`text.dfy`): the JavaScript string built-ins the script uses.
  These are `split('\n')`, `includes`, the global-regex match count, `trim`
  and `endsWith`. Each comes with its partner property: split/join round
  trips, "includes iff the count is at least 1", trim keeps the marker count,
  and suffix tests ignore what precedes a `/`.
- `Matcher` (`matcher.dfy`): `investigateFile`. It is a method with a loop,
  proved against the function `Matches`. Lemmas state soundness,
  completeness, ordering and counting.
- `Investigation` (`investigation.dfy`): the filesystem snapshot as a tree of
  entries, the order in which the walk hands files to the matcher
  (`Inspected`), and the results object as a class. `Walk`, its per-entry
  callback `Visit` and the update `Add` change the class in place. They are
  proved to keep the invariant `Consistent` and to produce exactly the fold
  `RecordAll` of the per-file step `Record`.
- `Report` (`report.dfy`): the decisions of `printReport` and the exit code,
  plus worked scenarios.

Behaviour of the code worth noting:

- An error from `readdirSync` or `statSync` is not caught, so it ends the
  run (important-cop.js:44, 48). Only the file read in `investigateFile` is
  wrapped in `try`/`catch` (important-cop.js:11-32).
- Siblings are visited in the order `readdirSync` returns them. The model
  takes that order as input.
- The message for an unreadable file is written with `console.log`, to
  standard output.

## Model

| member | source | states |
|---|---|---|
| Text.Split | important-cop.js:13 | `split('\n')` yields at least one piece, and no piece contains the separator |
| Text.JoinSplit | important-cop.js:13 | joining the pieces of a split with the separator gives back the text, so no character is lost |
| Text.SplitJoin | important-cop.js:13 | splitting the join of separator-free pieces gives back the pieces: split and join are inverse |
| Text.Includes | important-cop.js:18 | `line.includes(pat)`: the pattern occurs at some position of the line; related to the match count by Text.IncludesIffMatches |
| Text.CountMatches | important-cop.js:23 | the length of `line.match(/pat/g)`: scanning left to right, each match consumes its characters and the search resumes after it; bounded by Text.CountBound, tied to `includes` by Text.IncludesIffMatches |
| Text.CountBound | important-cop.js:23 | the non-overlapping global match count times the marker length never exceeds the line length |
| Text.IncludesIffMatches | important-cop.js:18-23 | a line `includes` the marker iff the global match finds at least one occurrence, so every crime's severity is at least 1 |
| Text.CountAfterForeignPrefix | important-cop.js:23 | characters that cannot start the marker, put in front of a line, change no match count |
| Text.CountAfterSpace | important-cop.js:21-23 | white space put in front of a line changes no count of a marker free of white space |
| Text.CountBeforeSpace | important-cop.js:21-23 | white space put after a line changes no count of a marker free of white space |
| Text.CountSpaceAround | important-cop.js:21-23 | white space on both sides of a line changes no count of a marker free of white space |
| Text.CountAfterMatch | important-cop.js:23 | a marker at the front is counted once, and the search resumes after it |
| Text.Trim | important-cop.js:21 | `line.trim()`: leading and then trailing white space removed; its properties are Text.TrimSlice, Text.TrimEnds, Text.TrimIdempotent and Text.CountTrimmed |
| Text.TrimStartSpec | important-cop.js:21 | removing leading white space leaves a suffix of the input that does not start with white space, and only white space was removed |
| Text.TrimEndSpec | important-cop.js:21 | removing trailing white space leaves a prefix of the input that does not end with white space, and only white space was removed |
| Text.TrimSlice | important-cop.js:21 | a line is some white space, then its `trim()`, then some white space |
| Text.TrimEnds | important-cop.js:21 | neither end of a trimmed line is white space |
| Text.TrimIdempotent | important-cop.js:21 | trimming a trimmed line changes nothing |
| Text.CountTrimmed | important-cop.js:21-23 | trimming keeps the count of a white-space-free marker, so `code` holds as many markers as `severity` says |
| Text.EndsWithAfterSeparator | important-cop.js:47-52 | a joined path ends in `.css` iff the entry name does |
| Matcher.Lines | important-cop.js:12-13 | the lines of a file are at least one and join back to its text |
| Matcher.Severity | important-cop.js:23 | the length of `line.match(/!important/g)`, or 0 when nothing matches: the non-overlapping marker count of the untrimmed line; Matcher.SeveritiesCountMarkers and Matcher.ThreeMarkersSeverity state what it adds up to |
| Matcher.Matches | important-cop.js:16-26 | there are no more crimes than lines |
| Matcher.MatchesInRange | important-cop.js:16-20 | every crime's line number is between 1 and the number of lines |
| Matcher.Investigate | important-cop.js:10-33 | what `investigateFile` returns: the crimes of the lines of a readable file, or `[]` from the catch branch; Matcher.InvestigateFile computes it, Matcher.InvestigateNonEmptyIff and Matcher.UnreadableHasNoCrimes state its outcomes |
| Matcher.InvestigateFile | important-cop.js:10-33 | the loop that pushes crimes returns exactly `Investigate(content)`: the crimes of the lines, or nothing on a read failure |
| Matcher.DescribesLast | important-cop.js:18-24 | the crime pushed for the last line describes it: the line includes the marker, `code` is the line trimmed, and `severity` is at least 1 and equals the marker count of both the line and `code` |
| Matcher.DescribesExtends | important-cop.js:16-20 | a crime describing a line of the first lines of a file describes the same line of the whole file |
| Matcher.MatchesSoundAt | important-cop.js:18-24 | the k-th crime of a file describes the line it names |
| Matcher.MatchesSound | important-cop.js:18-24 | each crime names a line that includes the marker; its `code` is that line trimmed, and its `severity` is the marker count of the untrimmed line (equal to that of `code`) and at least 1 |
| Matcher.MatchesComplete | important-cop.js:16-25 | every line that includes the marker has a crime with its 1-based number |
| Matcher.MatchesIncreasing | important-cop.js:16-20 | crime line numbers strictly increase in output order |
| Matcher.CrimeCountIsMarkedLineCount | important-cop.js:18-24 | a file has exactly as many crimes as it has lines that include the marker |
| Matcher.SeveritiesCountMarkers | important-cop.js:18-24 | the severities add up to all markers of the file, while the crime count is at most that: crimes count lines, severity counts markers |
| Matcher.InvestigateSeverities | important-cop.js:18-23 | every crime `investigateFile` returns has severity at least 1 |
| Matcher.UnreadableHasNoCrimes | important-cop.js:29-32 | a file whose read fails contributes the empty list |
| Matcher.HasCrimesIffMarked | important-cop.js:16-28 | a readable file has crimes iff one of its lines includes the marker |
| Matcher.InvestigateNonEmptyIff | important-cop.js:10-33 | `investigateFile` returns crimes iff the file could be read and one of its lines includes the marker |
| Matcher.PlainThenMarker | important-cop.js:23 | text that cannot start a marker, followed by a marker, adds exactly one to the count |
| Matcher.ThreeMarkersSeverity | important-cop.js:23 | a line holding three markers among other text has severity 3 |
| Matcher.ThreeMarkersOneCrime | important-cop.js:18-24 | such a line is one crime, of severity 3 |
| Investigation.IsStylesheet | important-cop.js:52 | `item.endsWith('.css')` on the entry name; Text.EndsWithAfterSeparator carries it over to the joined path |
| Investigation.Inspected | important-cop.js:43-53 | the files `walk` hands to `investigateFile` for a listing, in listing order, entry by entry; characterised by Investigation.InspectedIff |
| Investigation.EntryInspected | important-cop.js:47-53 | for one entry: the files below a directory, whatever its name, or the file itself when its name ends in `.css`; characterised by Investigation.EntryInspectedIff |
| Investigation.Record | important-cop.js:54-64 | the aggregation step: a file with crimes is appended, adds its crime count to the total, and becomes the worst offender when none is set or on a strictly larger count; a file without crimes changes nothing; Investigation.RecordKeepsConsistent proves it keeps the invariant |
| Investigation.RecordAll | important-cop.js:46-67 | the step applied to inspected files one after another; Investigation.RecordAllFiles, Investigation.RecordAllTotal and Investigation.RecordAllKeepsConsistent state its result |
| Investigation.Scan | important-cop.js:36-72 | `investigateDirectory(root)`: all inspected files recorded into the empty results object; Investigation.ScanReport states its result |
| Investigation.EmptyConsistent | important-cop.js:37-41 | the fresh results object satisfies the invariant |
| Investigation.RecordNewWorst | important-cop.js:59-64 | a file with crimes, when no worst offender is set or it has strictly more crimes than the current one, becomes the first file with the most crimes |
| Investigation.RecordKeepsWorst | important-cop.js:59 | a file with no more crimes than the worst offender leaves it the first file with the most crimes, so the earlier file wins a tie |
| Investigation.RecordKeepsConsistent | important-cop.js:54-64 | recording one file's crimes keeps the invariant: only non-empty files are listed, the total matches, and the worst offender is the first file with the most crimes (strict `>` keeps the earlier file on a tie) |
| Investigation.RecordAllSingle | important-cop.js:53-65 | recording one inspected file applies the per-file step to the crimes `investigateFile` returns for it |
| Investigation.RecordAllKeepsConsistent | important-cop.js:46-67 | recording any sequence of files keeps the invariant |
| Investigation.RecordAllAppend | important-cop.js:46-67 | recording two runs of files in turn is recording their concatenation |
| Investigation.RecordAllFiles | important-cop.js:54-55 | recording appends to `files` exactly the inspected files that have crimes, in visiting order |
| Investigation.InspectionCrimes | important-cop.js:53-56 | one inspected file adds its number of marked lines, or 0 when unreadable |
| Investigation.RecordAllTotal | important-cop.js:54-56 | recording adds to `totalCrimes` the number of marked lines over all readable inspected files |
| Investigation.ScanReport | important-cop.js:36-72 | the results of a whole scan are consistent, list exactly the inspected files with crimes, and count every marked line once |
| Investigation.YieldsStep | important-cop.js:46-53 | some inspected file yields a record iff an earlier one does or the last one does |
| Investigation.KeptIff | important-cop.js:53-55 | a record is listed iff its crimes are non-empty and are what an inspected file at that path yields |
| Investigation.KeptSeverities | important-cop.js:23 | every crime of a listed file has severity at least 1 |
| Investigation.KeptHasMarked | important-cop.js:53-55 | when some file is listed, some inspected file was readable and has a marked line |
| Investigation.MarkedIsKept | important-cop.js:53-55 | a readable inspected file with a marked line makes the list non-empty |
| Investigation.KeptNonEmptyIff | important-cop.js:53-55 | the list of files is non-empty iff some inspected file was readable and has a marked line |
| Investigation.InspectedIff | important-cop.js:46-53 | the walk inspects exactly the non-directory entries below the root whose path ends in `.css` |
| Investigation.EntryInspectedIff | important-cop.js:50-53 | for one entry, exactly the files at or below it ending in `.css` are inspected; a directory named `x.css` is descended into, never inspected |
| Investigation.Results.constructor | important-cop.js:37-41 | the new results object is empty and consistent |
| Investigation.Results.Walk | important-cop.js:43-68 | `walk` keeps the invariant and leaves the object equal to recording, in order, every file the walk of the listing inspects |
| Investigation.Results.Visit | important-cop.js:46-66 | the callback for one entry descends into a directory, or inspects a `.css` file and records it, keeping the invariant |
| Investigation.Results.Add | important-cop.js:54-65 | for a file with crimes: it is stored under its path, its crimes are added to the total, and it replaces the worst offender when none is set or it has strictly more crimes; otherwise nothing changes; the invariant is kept |
| Investigation.InvestigateDirectory | important-cop.js:36-72 | `investigateDirectory` returns a fresh, consistent object equal to `Scan` of the listing |
| Report.Repeat | important-cop.js:97 | `repeat(n)` of one character has length n and consists of that character |
| Report.SeverityBar | important-cop.js:97 | the bar is all `!`, at most 5 long and at most the severity, and equals one of the two |
| Report.CrimeLines | important-cop.js:96-99 | one printed line per crime, in order, with its line number, code and severity bar |
| Report.Blocks | important-cop.js:94-100 | one printed block per recorded file, in insertion order |
| Report.Render | important-cop.js:75-104 | `printReport`: the all-clear message when `totalCrimes === 0`, otherwise the total, the number of files, the worst offender and one block per file; Report.AllClearIff and Report.ScanBars state its properties |
| Report.ExitCode | important-cop.js:114 | `totalCrimes > 0 ? 1 : 0`; Report.ExitCodeIff says when it is 1 |
| Report.AllClearIff | important-cop.js:79-91 | for consistent results, the all-clear branch, an empty file list, an unset worst offender and exit code 0 coincide; findings always name a worst offender and count the files |
| Report.TotalPositive | important-cop.js:54-56 | files that all have crimes have a positive total |
| Report.ScanSeverities | important-cop.js:23 | every crime a scan reports has severity at least 1 |
| Report.ScanBars | important-cop.js:94-99 | the report lists files in visiting order and crimes by line, and every bar has between 1 and 5 `!`: the severity, capped at 5 |
| Report.ExitOneHasWitness | important-cop.js:114 | an exit code of 1 implies a readable inspected stylesheet with a marked line |
| Report.WitnessMakesExitOne | important-cop.js:114 | a readable inspected stylesheet with a marked line makes the exit code 1 |
| Report.ExitCodeIff | important-cop.js:114 | the exit code is 1 iff some inspected stylesheet was readable and has a line with the marker |
| Report.InspectThree | important-cop.js:46-53 | three stylesheets of one directory are inspected in listing order |
| Report.RecordTwoFiveFive | important-cop.js:59-64 | recording files with 2, 5 and 5 crimes makes the second the worst offender, with 12 crimes in total |
| Report.FirstToReachMaximumWins | important-cop.js:59-64 | for files A, B, C with 2, 5, 5 crimes visited in that order, the worst offender is B, not C |
| Report.NamesDecide | important-cop.js:50-53 | a directory named `x.css` is walked into, and a `.txt` file is never read |
| Report.FirstOfTwoLines | important-cop.js:13-24 | a two-line file whose first line alone has a marker yields one crime, on line 1 |
| Report.InspectStylesheetOnly | important-cop.js:50-53 | of `a.css` and `b.txt`, only `a.css` is inspected |
| Report.OneStylesheetOneCrime | important-cop.js:43-67 | a directory with such an `a.css` and any `b.txt` yields total 1, lists only `a.css`, names it worst offender, and exits with 1 |

## Left out

- Filesystem access is not modelled: `readFileSync`, `readdirSync`, `statSync` and UTF-8 decoding. A directory is given as the list of its entries in listing order, and a file as its decoded text or as a read failure.
- Failures of `readdirSync`/`statSync` are not modelled. The code does not catch them, so they abort the run. The model's tree cannot fail.
- Symbolic links and directory cycles are not modelled. The tree is finite by construction.
- Investigation.Join: joins with `/` and does not normalise `.`, `..` or duplicate separators as `path.join` does.
- Investigation.Results.Walk: `files` is a sequence in insertion order, not a keyed object. Writing the same key twice would overwrite it, but `fullPath` never repeats: names within one directory are distinct and contain no separator. That distinctness is not proved. A path ending in `.css` is never an integer-like key, so JavaScript keeps insertion order when enumerating.
- Text.Trim: removes a fixed set of white space characters: space, tab, line feed, carriage return, vertical tab, form feed, U+00A0, U+2028, U+2029 and U+FEFF. The other Unicode space separators that JavaScript's `trim` also removes are not in the set.
- The console output is not modelled: its wording, emojis, headers, the remedy lines and the diagnostic printed for an unreadable file. `Report.Render` models which items are printed and in what order.
- `process.argv` defaulting to `.` and the call to `process.exit` are not modelled. `Report.ExitCode` models the exit-code expression.
- The comment at important-cop.js:58 speaks of a per-line ratio. The code compares plain crime counts, and so does the model.
