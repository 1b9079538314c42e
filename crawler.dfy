/**
 * The batch scan searchPatternsFromFile: load the patterns, stop when none
 * survives, walk the target directory, match every listed file, and build
 * the report: four header lines, then one line per result, joined by line
 * feeds. Writing the report to the output file is left to the caller.
 */
module Crawler {
  import opened Wrappers
  import opened Text
  import opened PatternLoader
  import opened TreeWalker
  import opened LineMatcher

  /** How a scan that does not throw ends: no pattern to look for, or a report to write. */
  datatype ScanOutcome = NoPatterns | Report(text: string)

  /** What makes a scan throw: an unreadable pattern file, or a walk that failed. */
  datatype CrawlError = PatternFileUnreadable | WalkFailed(cause: FsError)

  const PatternsLabel := "Patterns: "
  const DirectoryLabel := "Dossier scanné: "
  const CountLabel := "Nombre total de correspondances: "

  /** `readFileSync(path)`, or None where it throws. */
  function ReadFile(fs: FileSystem, path: Path): Option<string> {
    if path in fs.content then Some(fs.content[path]) else None
  }

  /** The results of the listed files, file by file in listing order. */
  function AllResults(fs: FileSystem, files: seq<Path>, patterns: seq<string>): seq<MatchResult> {
    if files == [] then []
    else
      var last := files[|files| - 1];
      AllResults(fs, files[..|files| - 1], patterns) + FileMatches(last, ReadFile(fs, last), patterns)
  }

  /** `${file}:${lineNumber} [${pattern}] ${lineContent}` */
  function FormatResult(m: MatchResult): string {
    m.file + ":" + NatToString(m.lineNumber) + " [" + m.pattern + "] " + m.lineContent
  }

  /** One formatted line per result, in order. */
  function FormatAll(results: seq<MatchResult>): (lines: seq<string>)
    ensures |lines| == |results|
  {
    seq(|results|, i requires 0 <= i < |results| => FormatResult(results[i]))
  }

  /** The four header lines: the patterns, the target directory, the total, and an empty line. */
  function Header(patterns: seq<string>, targetDir: Path, total: nat): seq<string> {
    [PatternsLabel + Join(patterns, " "), DirectoryLabel + targetDir, CountLabel + NatToString(total), ""]
  }

  /** The lines of the report, before they are joined. */
  function ReportLines(patterns: seq<string>, targetDir: Path, results: seq<MatchResult>): seq<string> {
    Header(patterns, targetDir, |results|) + FormatAll(results)
  }

  /** searchPatternsFromFile, from the text of the pattern file (None when reading it throws). */
  function Scan(patternFile: Option<string>, targetDir: Path, fs: FileSystem): Result<ScanOutcome, CrawlError> {
    match patternFile
    case None => Failure(PatternFileUnreadable)
    case Some(text) =>
      var patterns := ReadPatterns(text);
      if patterns == [] then Success(NoPatterns)
      else
        match ListFiles(fs, targetDir)
        case Failure(e) => Failure(WalkFailed(e))
        case Success(files) =>
          Success(Report(Join(ReportLines(patterns, targetDir, AllResults(fs, files, patterns)), "\n")))
  }

  /**
   * The report assembly of searchPatternsFromFile: header lines, then a
   * line per result, joined by line feeds.
   */
  method BuildReport(patterns: seq<string>, targetDir: Path, allResults: seq<MatchResult>)
    returns (report: string)
    ensures report == Join(ReportLines(patterns, targetDir, allResults), "\n")
  {
    var lines: seq<string> := [];
    lines := lines + [PatternsLabel + Join(patterns, " ")];
    lines := lines + [DirectoryLabel + targetDir];
    lines := lines + [CountLabel + NatToString(|allResults|)];
    lines := lines + [""];
    for k := 0 to |allResults|
      invariant lines == Header(patterns, targetDir, |allResults|) + FormatAll(allResults[..k])
    {
      var r := allResults[k];
      lines := lines + [r.file + ":" + NatToString(r.lineNumber) + " [" + r.pattern + "] " + r.lineContent];
      assert FormatAll(allResults[..k + 1]) == FormatAll(allResults[..k]) + [FormatResult(r)];
    }
    assert allResults[..|allResults|] == allResults;
    report := Join(lines, "\n");
  }

  /**
   * searchPatternsFromFile: returns the report to be written, or NoPatterns
   * when no pattern survives loading, in which case nothing is walked.
   */
  method SearchPatternsFromFile(patternFile: Option<string>, targetDir: Path, fs: FileSystem)
    returns (r: Result<ScanOutcome, CrawlError>)
    ensures r == Scan(patternFile, targetDir, fs)
  {
    if patternFile.None? {
      return Failure(PatternFileUnreadable);
    }
    var patterns := ReadPatterns(patternFile.value);
    if |patterns| == 0 {
      return Success(NoPatterns);
    }
    var walker := new Walker(fs);
    var listed := walker.ListFilesRecursively(targetDir);
    if listed.Failure? {
      return Failure(WalkFailed(listed.error));
    }
    var allFiles := listed.value;
    var allResults: seq<MatchResult> := [];
    for k := 0 to |allFiles|
      invariant allResults == AllResults(fs, allFiles[..k], patterns)
    {
      var file := allFiles[k];
      var fileResults := SearchPatternsInFile(file, ReadFile(fs, file), patterns);
      assert allFiles[..k + 1][..k] == allFiles[..k];
      allResults := allResults + fileResults;
    }
    assert allFiles[..|allFiles|] == allFiles;
    var report := BuildReport(patterns, targetDir, allResults);
    return Success(Report(report));
  }

  /**
   * A report is produced exactly when the pattern file is readable, some
   * pattern survives loading and the walk succeeds; with no surviving
   * pattern the scan stops before the filesystem is looked at.
   */
  lemma ReportProducedIff(patternFile: Option<string>, targetDir: Path, fs: FileSystem)
    ensures (Scan(patternFile, targetDir, fs).Success? && Scan(patternFile, targetDir, fs).value.Report?)
            <==> patternFile.Some? && ReadPatterns(patternFile.value) != [] && ListFiles(fs, targetDir).Success?
    ensures patternFile.Some? && ReadPatterns(patternFile.value) == [] ==>
              forall other: FileSystem, dir: Path :: Scan(patternFile, dir, other) == Success(NoPatterns)
  {
  }

  /**
   * A result of the scan is exactly a word match, in a line of a listed
   * file that could be read, of one of the patterns: the result carries
   * the file, the 1-based line number and that line.
   */
  lemma {:induction false} AllResultsExact(fs: FileSystem, files: seq<Path>, patterns: seq<string>, m: MatchResult)
    ensures m in AllResults(fs, files, patterns) <==>
              m.file in files && m.file in fs.content
              && 1 <= m.lineNumber <= |SplitLines(fs.content[m.file])|
              && m.lineContent == SplitLines(fs.content[m.file])[m.lineNumber - 1]
              && m.pattern in patterns && MatchesAsWord(m.lineContent, m.pattern)
  {
    if files != [] {
      var init := files[..|files| - 1];
      var last := files[|files| - 1];
      AllResultsExact(fs, init, patterns, m);
      assert files == init + [last];
      if last in fs.content {
        var lines := SplitLines(fs.content[last]);
        AllLineMatchesExact(last, lines, patterns, m);
        if 1 <= m.lineNumber <= |lines| {
          LineMatchesExact(last, m.lineNumber, lines[m.lineNumber - 1], patterns, m);
        }
      }
    }
  }

  lemma {:induction false} JoinKeepsOut(parts: seq<string>, sep: string, c: char)
    requires NoneContains(parts, c) && c !in sep
    ensures c !in Join(parts, sep)
  {
    if |parts| > 1 {
      JoinKeepsOut(parts[1..], sep, c);
      assert parts[0] + sep + Join(parts[1..], sep) == Join(parts, sep);
    }
  }

  /** No line feed anywhere in a result's fields. */
  predicate OneLine(m: MatchResult) {
    '\n' !in m.file && '\n' !in m.pattern && '\n' !in m.lineContent
  }

  /** No line of the report holds a line feed when no field does. */
  lemma ReportLinesOneLine(patterns: seq<string>, targetDir: Path, results: seq<MatchResult>)
    requires NoneContains(patterns, '\n') && '\n' !in targetDir
    requires forall k :: 0 <= k < |results| ==> OneLine(results[k])
    ensures NoneContains(ReportLines(patterns, targetDir, results), '\n')
  {
    var lines := ReportLines(patterns, targetDir, results);
    JoinKeepsOut(patterns, " ", '\n');
    forall i | 0 <= i < |lines| ensures '\n' !in lines[i] {
      if i >= 4 { assert lines[i] == FormatResult(results[i - 4]); }
    }
  }

  /**
   * Cut at its line feeds, the report gives back its lines: the space-joined
   * patterns, the target directory, the total, from which the number of
   * results reads back, an empty line, then each result formatted in order.
   * This holds when no field holds a line feed of its own.
   */
  lemma ReportReadsBack(patterns: seq<string>, targetDir: Path, results: seq<MatchResult>)
    requires NoneContains(patterns, '\n') && '\n' !in targetDir
    requires forall k :: 0 <= k < |results| ==> OneLine(results[k])
    ensures var lines := SplitAt(Join(ReportLines(patterns, targetDir, results), "\n"), '\n');
            |lines| == 4 + |results|
            && lines[0] == PatternsLabel + Join(patterns, " ")
            && lines[1] == DirectoryLabel + targetDir
            && lines[2] == CountLabel + NatToString(|results|)
            && ParseDecimal(lines[2][|CountLabel|..]) == |results|
            && lines[3] == ""
            && forall k :: 0 <= k < |results| ==> lines[4 + k] == FormatResult(results[k])
  {
    var lines := ReportLines(patterns, targetDir, results);
    ReportLinesOneLine(patterns, targetDir, results);
    SplitAtJoin(lines, '\n');
    assert lines[2][|CountLabel|..] == NatToString(|results|);
    ParseNatToString(|results|);
  }

  /** Loaded patterns hold no line feed: they hold no whitespace at all. */
  lemma PatternsOneLine(text: string)
    ensures NoneContains(ReadPatterns(text), '\n')
  {
    var patterns := ReadPatterns(text);
    forall k | 0 <= k < |patterns| ensures '\n' !in patterns[k] {
      assert NoWhitespace(patterns[k]);
    }
  }

  /** Results of line-feed-free paths and patterns hold no line feed. */
  lemma ResultsOneLine(fs: FileSystem, files: seq<Path>, patterns: seq<string>)
    requires NoneContains(files, '\n') && NoneContains(patterns, '\n')
    ensures forall k :: 0 <= k < |AllResults(fs, files, patterns)| ==> OneLine(AllResults(fs, files, patterns)[k])
  {
    var results := AllResults(fs, files, patterns);
    forall k | 0 <= k < |results| ensures OneLine(results[k]) {
      var m := results[k];
      AllResultsExact(fs, files, patterns, m);
      var lines := SplitLines(fs.content[m.file]);
      assert '\n' !in lines[m.lineNumber - 1];
    }
  }

  /**
   * A report of the scan, cut at its line feeds, is the header followed by
   * one formatted line per result, when the target directory and the listed
   * paths hold no line feed.
   */
  lemma ScanReportLines(text: string, targetDir: Path, fs: FileSystem, report: string)
    requires '\n' !in targetDir
    requires ListFiles(fs, targetDir).Success? ==> NoneContains(ListFiles(fs, targetDir).value, '\n')
    requires Scan(Some(text), targetDir, fs) == Success(Report(report))
    ensures ListFiles(fs, targetDir).Success?
    ensures SplitAt(report, '\n')
            == ReportLines(ReadPatterns(text), targetDir,
                           AllResults(fs, ListFiles(fs, targetDir).value, ReadPatterns(text)))
  {
    var patterns := ReadPatterns(text);
    var files := ListFiles(fs, targetDir).value;
    var results := AllResults(fs, files, patterns);
    PatternsOneLine(text);
    ResultsOneLine(fs, files, patterns);
    ReportLinesOneLine(patterns, targetDir, results);
    SplitAtJoin(ReportLines(patterns, targetDir, results), '\n');
  }

  /** A root holding one text file. */
  function ScanTree(): FileSystem {
    FileSystem(map["/r" := "/r"], map["/r" := [Entry("f.txt", RegularFile)]],
               map["/r/f.txt" := "use alpha here"])
  }

  /** The result the one matching line of `ScanTree` yields. */
  function ScanHit(): MatchResult {
    MatchResult("/r/f.txt", 1, "use alpha here", "alpha")
  }

  /**
   * A scan end to end: of the three words of the pattern file only `alpha`
   * survives, the tree holds one file, and its one line mentions `alpha` as
   * a word.
   */
  lemma ExampleScan()
    ensures Scan(Some("alpha beta!!! gamma-1"), "/r", ScanTree())
            == Success(Report("Patterns: alpha" + "\n" + ("Dossier scanné: /r" + "\n" + ("Nombre total de correspondances: 1"
                              + "\n" + ("" + "\n" + "/r/f.txt:1 [alpha] use alpha here")))))
  {
    ExampleReadPatterns();
    ExampleScanWalk();
    ExampleScanMatches();
    ExampleScanReport();
  }

  lemma ExampleScanWalk()
    ensures ListFiles(ScanTree(), "/r") == Success(["/r/f.txt"])
  {
    var fs := ScanTree();
    var v := {"/r"};
    var entries := fs.listing["/r"];
    assert |entries| == 1 && entries[0] == Entry("f.txt", RegularFile);
    assert JoinPath("/r", "f.txt") == "/r/f.txt";
    var r1 := WalkEntries(fs, "/r", 1, v);
    assert r1.Success? && r1.value.files == [] && r1.value.visited == v && r1.value.expanded == [];
    var r0 := WalkEntries(fs, "/r", 0, v);
    assert r0.Success? && r0.value.files == ["/r/f.txt"];
    assert fs.canonical["/r"] == "/r" && {} + {"/r"} == v;
    var w := WalkDir(fs, "/r", {});
    assert w.Success? && w.value.files == ["/r/f.txt"];
  }

  lemma ExampleScanMatches()
    ensures AllResults(ScanTree(), ["/r/f.txt"], ["alpha"]) == [ScanHit()]
  {
    var fs := ScanTree();
    assert ReadFile(fs, "/r/f.txt") == Some("use alpha here");
    ExampleScanFile();
    assert ["/r/f.txt"][..0] == [];
  }

  lemma ExampleScanFile()
    ensures FileMatches("/r/f.txt", Some("use alpha here"), ["alpha"]) == [ScanHit()]
  {
    var line := "use alpha here";
    ExampleScanLines(line);
    ExampleScanLine();
    assert [line][..0] == [];
    assert AllLineMatches("/r/f.txt", [line], ["alpha"]) == [] + [ScanHit()];
  }

  lemma ExampleScanLines(line: string)
    requires line == "use alpha here"
    ensures SplitLines(line) == [line]
  {
    SplitAtJoin([line], '\n');
    assert Join([line], "\n") == line;
    assert SplitAt(line, '\n') == [line];
  }

  lemma ExampleScanLine()
    ensures LineMatches("/r/f.txt", 1, "use alpha here", ["alpha"]) == [ScanHit()]
  {
    ExampleAlphaWord();
    var ps := ["alpha"];
    assert ps[..|ps| - 1] == [] && ps[|ps| - 1] == "alpha";
  }

  lemma ExampleAlphaWord()
    ensures MatchesAsWord("use alpha here", "alpha")
  {
    MatchInContext("use ", "alpha", " here");
    assert "use " + "alpha" + " here" == "use alpha here";
  }

  lemma ExampleScanReport()
    ensures Join(ReportLines(["alpha"], "/r", [ScanHit()]), "\n")
            == "Patterns: alpha" + "\n" + ("Dossier scanné: /r" + "\n" + ("Nombre total de correspondances: 1"
               + "\n" + ("" + "\n" + "/r/f.txt:1 [alpha] use alpha here")))
  {
    var m := ScanHit();
    assert NatToString(1) == "1";
    assert Join(["alpha"], " ") == "alpha";
    var f := FormatResult(m);
    assert f == "/r/f.txt:1 [alpha] use alpha here";
    assert FormatAll([m]) == [f];
    var l0, l1, l2 := "Patterns: alpha", "Dossier scanné: /r", "Nombre total de correspondances: 1";
    assert PatternsLabel + "alpha" == l0;
    assert DirectoryLabel + "/r" == l1;
    assert CountLabel + "1" == l2;
    assert Header(["alpha"], "/r", 1) == [l0, l1, l2, ""];
    var lines := ReportLines(["alpha"], "/r", [m]);
    assert lines == [l0, l1, l2, "", f];
    assert lines[3..] == ["", f] && lines[3..][1..] == [f];
    assert Join([f], "\n") == f;
    var j3 := Join(lines[3..], "\n");
    assert j3 == "" + "\n" + f;
    var j2 := Join(lines[2..], "\n");
    assert lines[2..][1..] == lines[3..];
    assert j2 == l2 + "\n" + j3;
    var j1 := Join(lines[1..], "\n");
    assert lines[1..][1..] == lines[2..];
    assert j1 == l1 + "\n" + j2;
    assert Join(lines, "\n") == l0 + "\n" + j1;
  }
}
