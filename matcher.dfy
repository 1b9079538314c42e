/**
 * Line matching: a file's text is cut into lines at `\n` or `\r\n`, and
 * every line is tested against every pattern, in order, for a literal
 * occurrence flanked by a non-alphanumeric character or a line edge.
 */
module LineMatcher {
  import opened Wrappers
  import opened Text

  /** One hit: the file, the 1-based line number, the whole line and the pattern. */
  datatype MatchResult = MatchResult(file: string, lineNumber: nat, lineContent: string, pattern: string)

  /** Drop one trailing carriage return, if there is one. */
  function DropCR(s: string): (r: string)
    ensures r == s || (s == r + "\r")
  {
    if |s| > 0 && s[|s| - 1] == '\r' then s[..|s| - 1] else s
  }

  /**
   * `content.split(/\r?\n/)`: the pieces between line feeds, each losing
   * the carriage return just before its line feed. The last piece is
   * followed by no line feed and keeps a trailing carriage return, and a
   * carriage return elsewhere stays inside its line.
   */
  function SplitLines(content: string): (lines: seq<string>)
    ensures |lines| == Count(content, '\n') + 1
    ensures NoneContains(lines, '\n')
  {
    var pieces := SplitAt(content, '\n');
    SplitAtShape(content, '\n');
    seq(|pieces|, i requires 0 <= i < |pieces| =>
      if i < |pieces| - 1 then DropCR(pieces[i]) else pieces[i])
  }

  /**
   * Lines joined with a line ending chosen per line: `crlf[i]` says whether
   * line `i` ends in CRLF or in a bare LF. The last line has no ending.
   */
  function JoinMixed(lines: seq<string>, crlf: seq<bool>): string
    requires |lines| >= 1 && |crlf| == |lines| - 1
  {
    if |lines| == 1 then lines[0]
    else lines[0] + (if crlf[0] then "\r\n" else "\n") + JoinMixed(lines[1..], crlf[1..])
  }

  /** The pieces between the line feeds of `JoinMixed(lines, crlf)`. */
  function Pieces(lines: seq<string>, crlf: seq<bool>): (r: seq<string>)
    requires |lines| >= 1 && |crlf| == |lines| - 1
    ensures |r| == |lines|
  {
    seq(|lines|, i requires 0 <= i < |lines| =>
      if i < |lines| - 1 && crlf[i] then lines[i] + "\r" else lines[i])
  }

  lemma {:induction false} JoinMixedPieces(lines: seq<string>, crlf: seq<bool>)
    requires |lines| >= 1 && |crlf| == |lines| - 1
    ensures JoinMixed(lines, crlf) == Join(Pieces(lines, crlf), "\n")
  {
    if |lines| > 1 {
      JoinMixedPieces(lines[1..], crlf[1..]);
      var p := Pieces(lines, crlf);
      assert p[1..] == Pieces(lines[1..], crlf[1..]);
      var rest := Join(p[1..], "\n");
      if crlf[0] {
        assert (lines[0] + "\r") + "\n" + rest == lines[0] + "\r\n" + rest;
      }
    }
  }

  /**
   * Lines holding no line feed, each ending in CRLF or LF as `crlf` says,
   * are cut back into the same lines, provided no line that ends in a bare
   * LF ends in a carriage return of its own (which `\r?\n` would consume).
   */
  lemma SplitLinesJoinMixed(lines: seq<string>, crlf: seq<bool>)
    requires |lines| >= 1 && |crlf| == |lines| - 1 && NoneContains(lines, '\n')
    requires forall i :: 0 <= i < |lines| - 1 && !crlf[i] ==> lines[i] == [] || lines[i][|lines[i]| - 1] != '\r'
    ensures SplitLines(JoinMixed(lines, crlf)) == lines
  {
    var p := Pieces(lines, crlf);
    JoinMixedPieces(lines, crlf);
    forall i | 0 <= i < |p| ensures '\n' !in p[i] {
      assert '\n' !in lines[i];
    }
    SplitAtJoin(p, '\n');
    var r := SplitLines(JoinMixed(lines, crlf));
    forall i | 0 <= i < |lines| ensures r[i] == lines[i] {
      if i < |lines| - 1 {
        assert DropCR(p[i]) == lines[i];
      }
    }
  }

  /** A file mixing CRLF and LF endings: `a\r\nb\nc` cuts into `a`, `b`, `c`. */
  lemma ExampleMixedEndings()
    ensures SplitLines("a\r\nb\nc") == ["a", "b", "c"]
  {
    var lines := ["a", "b", "c"];
    var crlf := [true, false];
    assert JoinMixed(lines[2..], crlf[2..]) == "c";
    assert JoinMixed(lines[1..], crlf[1..]) == "b\nc";
    assert JoinMixed(lines, crlf) == "a\r\nb\nc";
    forall i | 0 <= i < 3 ensures '\n' !in lines[i] { }
    SplitLinesJoinMixed(lines, crlf);
  }

  /**
   * `pattern` occurs in `line` at index `k`, and the characters just
   * before and just after it, where there are any, are not `[a-zA-Z0-9]`.
   */
  predicate WordAt(line: string, pattern: string, k: int) {
    0 <= k && k + |pattern| <= |line| && line[k..k + |pattern|] == pattern
    && (k == 0 || !IsAsciiAlnum(line[k - 1]))
    && (k + |pattern| == |line| || !IsAsciiAlnum(line[k + |pattern|]))
  }

  /**
   * The test `(^|[^a-zA-Z0-9])<pattern>([^a-zA-Z0-9]|$)` with the pattern
   * taken literally, for a non-empty pattern.
   */
  predicate MatchesAsWord(line: string, pattern: string) {
    |pattern| > 0 && exists k :: 0 <= k <= |line| - |pattern| && WordAt(line, pattern, k)
  }

  /** A pattern set off by non-alphanumeric characters or line edges matches. */
  lemma MatchInContext(before: string, pattern: string, after: string)
    requires |pattern| > 0
    requires before == [] || !IsAsciiAlnum(before[|before| - 1])
    requires after == [] || !IsAsciiAlnum(after[0])
    ensures MatchesAsWord(before + pattern + after, pattern)
  {
    var line := before + pattern + after;
    var k := |before|;
    assert line[k..k + |pattern|] == pattern;
    if k > 0 { assert line[k - 1] == before[|before| - 1]; }
    if k + |pattern| < |line| { assert line[k + |pattern|] == after[0]; }
    assert WordAt(line, pattern, k);
  }

  /** Every match is such an occurrence: the line splits around the pattern. */
  lemma MatchHasContext(line: string, pattern: string)
    requires MatchesAsWord(line, pattern)
    ensures exists k :: 0 <= k <= |line| - |pattern|
              && line == line[..k] + pattern + line[k + |pattern|..]
              && (k == 0 || !IsAsciiAlnum(line[k - 1]))
              && (k + |pattern| == |line| || !IsAsciiAlnum(line[k + |pattern|]))
  {
    var k :| 0 <= k <= |line| - |pattern| && WordAt(line, pattern, k);
    assert line == line[..k] + line[k..k + |pattern|] + line[k + |pattern|..];
  }

  /** Inside a run of letters and digits a pattern matches only the whole run. */
  lemma NoMatchInsideWord(line: string, pattern: string)
    requires forall i :: 0 <= i < |line| ==> IsAsciiAlnum(line[i])
    requires line != pattern
    ensures !MatchesAsWord(line, pattern)
  {
  }

  /** `foo` matches `a foo b` and `(foo)`, and matches neither `foobar` nor `xfoo`. */
  lemma ExampleWordBoundaries()
    ensures MatchesAsWord("a foo b", "foo")
    ensures MatchesAsWord("(foo)", "foo")
    ensures !MatchesAsWord("foobar", "foo")
    ensures !MatchesAsWord("xfoo", "foo")
  {
    MatchInContext("a ", "foo", " b");
    assert "a " + "foo" + " b" == "a foo b";
    MatchInContext("(", "foo", ")");
    assert "(" + "foo" + ")" == "(foo)";
    NoMatchInsideWord("foobar", "foo");
    NoMatchInsideWord("xfoo", "foo");
  }

  /** The results of one line, numbered `n`, in pattern order. */
  function LineMatches(file: string, n: nat, line: string, patterns: seq<string>): seq<MatchResult>
  {
    if patterns == [] then []
    else
      var p := patterns[|patterns| - 1];
      LineMatches(file, n, line, patterns[..|patterns| - 1])
      + (if MatchesAsWord(line, p) then [MatchResult(file, n, line, p)] else [])
  }

  /** The results of `lines`, numbered from 1, line by line. */
  function AllLineMatches(file: string, lines: seq<string>, patterns: seq<string>): seq<MatchResult>
  {
    if lines == [] then []
    else
      AllLineMatches(file, lines[..|lines| - 1], patterns)
      + LineMatches(file, |lines|, lines[|lines| - 1], patterns)
  }

  /** searchPatternsInFile on a file whose content is `content`, or None when reading it throws. */
  function FileMatches(file: string, content: Option<string>, patterns: seq<string>): seq<MatchResult>
  {
    match content
    case None => []
    case Some(text) => AllLineMatches(file, SplitLines(text), patterns)
  }

  /**
   * A line yields a result for pattern `p` exactly when `p` is one of the
   * patterns and matches the line as a word; the result carries the file,
   * the line number and the whole line.
   */
  lemma {:induction false} LineMatchesExact(file: string, n: nat, line: string, patterns: seq<string>, m: MatchResult)
    ensures m in LineMatches(file, n, line, patterns) <==>
              m.file == file && m.lineNumber == n && m.lineContent == line
              && m.pattern in patterns && MatchesAsWord(line, m.pattern)
  {
    if patterns != [] {
      var init := patterns[..|patterns| - 1];
      LineMatchesExact(file, n, line, init, m);
      assert patterns == init + [patterns[|patterns| - 1]];
    }
  }

  /** The results of a line follow pattern order: concatenated patterns give concatenated results. */
  lemma {:induction false} LineMatchesAppend(file: string, n: nat, line: string, ps: seq<string>, qs: seq<string>)
    ensures LineMatches(file, n, line, ps + qs) == LineMatches(file, n, line, ps) + LineMatches(file, n, line, qs)
  {
    if qs != [] {
      var init := qs[..|qs| - 1];
      LineMatchesAppend(file, n, line, ps, init);
      assert (ps + qs)[..|ps + qs| - 1] == ps + init;
      assert (ps + qs)[|ps + qs| - 1] == qs[|qs| - 1];
    } else {
      assert ps + qs == ps;
    }
  }

  /**
   * The results of `lines` are those of each line `i` numbered `i + 1`;
   * every result names a line that exists and carries that line.
   */
  lemma {:induction false} AllLineMatchesExact(file: string, lines: seq<string>, patterns: seq<string>, m: MatchResult)
    ensures m in AllLineMatches(file, lines, patterns) <==>
              1 <= m.lineNumber <= |lines|
              && m in LineMatches(file, m.lineNumber, lines[m.lineNumber - 1], patterns)
  {
    if lines != [] {
      var init := lines[..|lines| - 1];
      AllLineMatchesExact(file, init, patterns, m);
      var last := lines[|lines| - 1];
      LineMatchesExact(file, |lines|, last, patterns, m);
      if 1 <= m.lineNumber < |lines| {
        assert lines[m.lineNumber - 1] == init[m.lineNumber - 1];
        LineMatchesExact(file, m.lineNumber, lines[m.lineNumber - 1], patterns, m);
      }
    }
  }

  /** Line numbers never decrease along `rs`. */
  predicate SortedByLine(rs: seq<MatchResult>) {
    forall a, b :: 0 <= a < b < |rs| ==> rs[a].lineNumber <= rs[b].lineNumber
  }

  /** Results come in line order. */
  lemma {:induction false} AllLineMatchesOrdered(file: string, lines: seq<string>, patterns: seq<string>)
    ensures SortedByLine(AllLineMatches(file, lines, patterns))
    ensures forall m :: m in AllLineMatches(file, lines, patterns) ==> 1 <= m.lineNumber <= |lines|
  {
    if lines != [] {
      var init := lines[..|lines| - 1];
      AllLineMatchesOrdered(file, init, patterns);
      var front := AllLineMatches(file, init, patterns);
      var back := LineMatches(file, |lines|, lines[|lines| - 1], patterns);
      forall m | m in back ensures m.lineNumber == |lines| {
        LineMatchesExact(file, |lines|, lines[|lines| - 1], patterns, m);
      }
      var rs := front + back;
      assert |init| == |lines| - 1;
      forall a, b | 0 <= a < b < |rs| ensures rs[a].lineNumber <= rs[b].lineNumber {
        if b < |front| {
          assert rs[a] == front[a] && rs[b] == front[b];
          assert SortedByLine(front);
          assert front[a].lineNumber <= front[b].lineNumber;
        } else {
          assert rs[b] == back[b - |front|] && rs[b] in back;
          if a >= |front| {
            assert rs[a] == back[a - |front|] && rs[a] in back;
          } else {
            assert rs[a] == front[a] && rs[a] in front;
          }
        }
      }
      forall m | m in rs ensures 1 <= m.lineNumber <= |lines| {
        if m in front { } else { assert m in back; }
      }
    }
  }

  /** searchPatternsInFile(file, patterns) on the given content. */
  method SearchPatternsInFile(file: string, content: Option<string>, patterns: seq<string>)
    returns (results: seq<MatchResult>)
    ensures results == FileMatches(file, content, patterns)
  {
    results := [];
    if content.None? {
      return;
    }
    var lines := SplitLines(content.value);
    for i := 0 to |lines|
      invariant results == AllLineMatches(file, lines[..i], patterns)
    {
      var line := lines[i];
      ghost var done := results;
      for j := 0 to |patterns|
        invariant results == done + LineMatches(file, i + 1, line, patterns[..j])
      {
        var pattern := patterns[j];
        if |pattern| == 0 {
          // an empty pattern is skipped
        } else if MatchesAsWord(line, pattern) {
          results := results + [MatchResult(file, i + 1, line, pattern)];
        }
        assert patterns[..j + 1][..j] == patterns[..j];
      }
      assert patterns[..|patterns|] == patterns;
      assert lines[..i + 1][..i] == lines[..i];
    }
    assert lines[..|lines|] == lines;
  }
}
