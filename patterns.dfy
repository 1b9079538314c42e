/**
 * Pattern loading: the text of the pattern file is split on runs of
 * whitespace, each token is trimmed, and only the tokens that pass the
 * character-class filter are kept, in order and with duplicates.
 */
module PatternLoader {
  import opened Text

  /** True when `s` contains no whitespace character. */
  predicate NoWhitespace(s: string) {
    forall i :: 0 <= i < |s| ==> !IsJsWhitespace(s[i])
  }

  /**
   * `content.split(/\s+/)`: the pieces between maximal runs of whitespace.
   * Leading and trailing whitespace yield an empty first or last token.
   */
  function SplitWhitespace(s: string): (tokens: seq<string>)
    ensures |tokens| >= 1
    ensures forall i :: 0 <= i < |tokens| ==> NoWhitespace(tokens[i])
    ensures forall i :: 0 < i < |tokens| - 1 ==> tokens[i] != ""
    ensures s != [] && IsJsWhitespace(s[0]) ==> tokens[0] == ""
    ensures s != [] && !IsJsWhitespace(s[0]) ==> tokens[0] != "" && tokens[0][0] == s[0]
  {
    if s == [] then [""]
    else
      var rest := SplitWhitespace(s[1..]);
      if IsJsWhitespace(s[0]) then
        if |s| > 1 && IsJsWhitespace(s[1]) then rest else [""] + rest
      else
        [[s[0]] + rest[0]] + rest[1..]
  }

  /** The characters of `s` that are not whitespace, in order. */
  function NonWhitespace(s: string): string {
    if s == [] then ""
    else (if IsJsWhitespace(s[0]) then "" else [s[0]]) + NonWhitespace(s[1..])
  }

  /** The tokens laid end to end. */
  function Concat(tokens: seq<string>): string {
    if tokens == [] then "" else tokens[0] + Concat(tokens[1..])
  }

  /** Splitting drops the whitespace and nothing else. */
  lemma {:induction false} SplitWhitespaceKeepsText(s: string)
    ensures Concat(SplitWhitespace(s)) == NonWhitespace(s)
  {
    if s != [] {
      SplitWhitespaceKeepsText(s[1..]);
      var rest := SplitWhitespace(s[1..]);
      if IsJsWhitespace(s[0]) {
        if !(|s| > 1 && IsJsWhitespace(s[1])) {
          assert ([""] + rest)[1..] == rest;
        }
      } else {
        assert rest == [rest[0]] + rest[1..];
        assert Concat(rest) == rest[0] + Concat(rest[1..]);
        var tokens := [[s[0]] + rest[0]] + rest[1..];
        assert tokens[1..] == rest[1..];
        assert Concat(tokens) == [s[0]] + rest[0] + Concat(rest[1..]);
      }
    }
  }

  /** A whitespace-free prefix extends the first token of what follows it. */
  lemma {:induction false} SplitWhitespacePrefix(a: string, t: string)
    requires NoWhitespace(a)
    ensures SplitWhitespace(a + t) == [a + SplitWhitespace(t)[0]] + SplitWhitespace(t)[1..]
  {
    var p := SplitWhitespace(t);
    if a == [] {
      assert a + t == t && a + p[0] == p[0];
      assert [p[0]] + p[1..] == p;
    } else {
      SplitWhitespacePrefix(a[1..], t);
      assert (a + t)[1..] == a[1..] + t;
      var rest := SplitWhitespace(a[1..] + t);
      assert rest[0] == a[1..] + p[0] && rest[1..] == p[1..];
      assert !IsJsWhitespace((a + t)[0]);
      assert SplitWhitespace(a + t) == [[a[0]] + rest[0]] + rest[1..];
      assert [a[0]] + (a[1..] + p[0]) == a + p[0];
    }
  }

  /**
   * Splitting tokens joined by single spaces gives them back, provided they
   * hold no whitespace and only the first and last may be empty.
   */
  lemma {:induction false} SplitWhitespaceJoin(tokens: seq<string>)
    requires |tokens| >= 1
    requires forall i :: 0 <= i < |tokens| ==> NoWhitespace(tokens[i])
    requires forall i :: 0 < i < |tokens| - 1 ==> tokens[i] != ""
    ensures SplitWhitespace(Join(tokens, " ")) == tokens
  {
    if |tokens| == 1 {
      SplitWhitespacePrefix(tokens[0], "");
      assert tokens[0] + "" == tokens[0];
    } else {
      var tail := Join(tokens[1..], " ");
      SplitWhitespaceJoin(tokens[1..]);
      assert tokens[1..][0] == tokens[1];
      if |tokens| > 2 {
        assert tokens[1] != "";
        assert Join(tokens[1..], " ") == tokens[1] + " " + Join(tokens[2..], " ");
        assert tail[0] == tokens[1][0];
      } else {
        assert tail == tokens[1];
      }
      assert SplitWhitespace(" " + tail) == [""] + tokens[1..] by {
        assert (" " + tail)[1..] == tail;
        if |tail| > 0 {
          assert (" " + tail)[1] == tail[0];
          assert !IsJsWhitespace(tail[0]);
        }
      }
      assert tokens[0] + " " + tail == tokens[0] + (" " + tail);
      SplitWhitespacePrefix(tokens[0], " " + tail);
      assert tokens[0] + "" == tokens[0];
      assert [tokens[0]] + tokens[1..] == tokens;
    }
  }

  /** True when `s` is a non-empty run of whitespace. */
  predicate IsRun(s: string) {
    |s| > 0 && forall i :: 0 <= i < |s| ==> IsJsWhitespace(s[i])
  }

  /** Tokens with the run `runs[i]` of whitespace between token `i` and token `i + 1`. */
  function JoinRuns(tokens: seq<string>, runs: seq<string>): string
    requires |tokens| >= 1 && |runs| == |tokens| - 1
  {
    if |tokens| == 1 then tokens[0]
    else tokens[0] + runs[0] + JoinRuns(tokens[1..], runs[1..])
  }

  /** A run of whitespace before text that does not start with whitespace ends the current token. */
  lemma {:induction false} SplitWhitespaceRun(run: string, t: string)
    requires IsRun(run)
    requires t == [] || !IsJsWhitespace(t[0])
    ensures SplitWhitespace(run + t) == [""] + SplitWhitespace(t)
  {
    var s := run + t;
    assert s[0] == run[0] && s[1..] == run[1..] + t;
    if |run| > 1 {
      SplitWhitespaceRun(run[1..], t);
      assert s[1] == run[1];
    } else {
      assert s[1..] == t;
    }
  }

  /** A token, a run of whitespace, then text that does not start with whitespace: the token is cut off whole. */
  lemma SplitTokenRun(a: string, run: string, t: string)
    requires NoWhitespace(a) && IsRun(run)
    requires t == [] || !IsJsWhitespace(t[0])
    ensures SplitWhitespace(a + run + t) == [a] + SplitWhitespace(t)
  {
    var u := run + t;
    assert a + run + t == a + u;
    SplitWhitespaceRun(run, t);
    SplitWhitespacePrefix(a, u);
    var q := SplitWhitespace(u);
    assert q[0] == "" && q[1..] == SplitWhitespace(t);
    assert a + q[0] == a;
  }

  /** Joined tokens start with a token character unless the first token is empty and alone. */
  lemma JoinRunsStart(tokens: seq<string>, runs: seq<string>)
    requires |tokens| >= 1 && |runs| == |tokens| - 1
    requires NoWhitespace(tokens[0])
    requires |tokens| == 1 || tokens[0] != ""
    ensures var j := JoinRuns(tokens, runs); j == [] || !IsJsWhitespace(j[0])
  {
    if |tokens| > 1 {
      assert JoinRuns(tokens, runs)[0] == tokens[0][0];
    }
  }

  /**
   * Whitespace-free tokens separated by any runs of whitespace split back
   * into the same tokens, provided only the first and last may be empty.
   */
  lemma {:induction false} SplitWhitespaceJoinRuns(tokens: seq<string>, runs: seq<string>)
    requires |tokens| >= 1 && |runs| == |tokens| - 1
    requires forall i :: 0 <= i < |tokens| ==> NoWhitespace(tokens[i])
    requires forall i :: 0 < i < |tokens| - 1 ==> tokens[i] != ""
    requires forall i :: 0 <= i < |runs| ==> IsRun(runs[i])
    ensures SplitWhitespace(JoinRuns(tokens, runs)) == tokens
  {
    if |tokens| == 1 {
      SplitWhitespacePrefix(tokens[0], "");
      assert tokens[0] + "" == tokens[0];
    } else {
      var rest, gaps := tokens[1..], runs[1..];
      assert forall i :: 0 <= i < |rest| ==> rest[i] == tokens[i + 1];
      assert forall i :: 0 <= i < |gaps| ==> gaps[i] == runs[i + 1];
      SplitWhitespaceJoinRuns(rest, gaps);
      JoinRunsStart(rest, gaps);
      SplitTokenRun(tokens[0], runs[0], JoinRuns(rest, gaps));
      assert [tokens[0]] + rest == tokens;
    }
  }


  /**
   * One pattern per line, with a final line feed: the split ends in an
   * empty token, which the filter drops.
   */
  lemma ExampleOnePerLine()
    ensures SplitWhitespace("alpha\nbeta\n") == ["alpha", "beta", ""]
    ensures ReadPatterns("alpha\nbeta\n") == ["alpha", "beta"]
  {
    var content := "alpha\nbeta\n";
    var tokens := ["alpha", "beta", ""];
    OnePerLineSplit();
    assert SplitWhitespace(content) == tokens;
    TrimAllSplit(content);
    assert ReadPatterns(content) == KeepPatterns(tokens);
    OnePerLineFilter();
  }

  lemma OnePerLineFilter()
    ensures KeepPatterns(["alpha", "beta", ""]) == ["alpha", "beta"]
  {
    var tokens := ["alpha", "beta", ""];
    assert IsPattern("alpha") by {
      assert IsAsciiLetter("alpha"[0]);
      forall j | 0 <= j < 5 ensures IsPatternChar("alpha"[j]) { }
    }
    assert IsPattern("beta") by {
      assert IsAsciiLetter("beta"[0]);
      forall j | 0 <= j < 4 ensures IsPatternChar("beta"[j]) { }
    }
    assert tokens[1..][1..] == tokens[2..] && tokens[2..][1..] == [];
    assert KeepPatterns(tokens[2..]) == [];
    assert KeepPatterns(tokens[1..]) == ["beta"];
  }

  lemma OnePerLineSplit()
    ensures SplitWhitespace("alpha\nbeta\n") == ["alpha", "beta", ""]
  {
    var tokens := ["alpha", "beta", ""];
    var runs := ["\n", "\n"];
    assert JoinRuns(tokens[2..], runs[2..]) == "";
    assert JoinRuns(tokens[1..], runs[1..]) == "beta\n";
    assert JoinRuns(tokens, runs) == "alpha\nbeta\n";
    forall i | 0 <= i < 3 ensures NoWhitespace(tokens[i]) {
      forall j | 0 <= j < |tokens[i]| ensures !IsJsWhitespace(tokens[i][j]) { }
    }
    assert IsRun(runs[0]) && IsRun(runs[1]);
    SplitWhitespaceJoinRuns(tokens, runs);
  }

  /** `String.prototype.trim`: drop leading whitespace ... */
  function TrimStart(s: string): (r: string)
    ensures r == [] || !IsJsWhitespace(r[0])
  {
    if s != [] && IsJsWhitespace(s[0]) then TrimStart(s[1..]) else s
  }

  /** ... and trailing whitespace. */
  function TrimEnd(s: string): (r: string)
    ensures r == [] || !IsJsWhitespace(r[|r| - 1])
  {
    if s != [] && IsJsWhitespace(s[|s| - 1]) then TrimEnd(s[..|s| - 1]) else s
  }

  /** `p.trim()` */
  function Trim(s: string): string {
    TrimEnd(TrimStart(s))
  }

  /** `tokens.map(p => p.trim())` */
  function TrimAll(tokens: seq<string>): (r: seq<string>)
    ensures |r| == |tokens|
  {
    seq(|tokens|, i requires 0 <= i < |tokens| => Trim(tokens[i]))
  }

  /** Trimming leaves split tokens unchanged: they hold no whitespace. */
  lemma TrimAllSplit(s: string)
    ensures TrimAll(SplitWhitespace(s)) == SplitWhitespace(s)
  {
    var tokens := SplitWhitespace(s);
    forall i | 0 <= i < |tokens| ensures Trim(tokens[i]) == tokens[i] {
      var t := tokens[i];
      assert NoWhitespace(t);
      assert t != [] ==> !IsJsWhitespace(t[0]) && !IsJsWhitespace(t[|t| - 1]);
    }
  }

  /** A character a pattern may contain: `[a-zA-Z@/\-]`. */
  predicate IsPatternChar(c: char) {
    IsAsciiLetter(c) || c == '@' || c == '/' || c == '-'
  }

  /** `/[a-zA-Z]/.test(p)` */
  predicate HasLetter(p: string) {
    exists i :: 0 <= i < |p| && IsAsciiLetter(p[i])
  }

  /** `/^[a-zA-Z@/\-]+$/.test(p)` */
  predicate AllowedCharsOnly(p: string) {
    |p| > 0 && forall i :: 0 <= i < |p| ==> IsPatternChar(p[i])
  }

  /** The filter of readPatterns: at least one letter, and only allowed characters. */
  predicate IsPattern(p: string) {
    HasLetter(p) && AllowedCharsOnly(p)
  }

  /** `tokens.filter(IsPattern)` */
  function KeepPatterns(tokens: seq<string>): (kept: seq<string>)
    ensures |kept| <= |tokens|
    ensures forall k :: 0 <= k < |kept| ==> IsPattern(kept[k])
    ensures forall k :: 0 <= k < |kept| ==> kept[k] in tokens
  {
    if tokens == [] then []
    else (if IsPattern(tokens[0]) then [tokens[0]] else []) + KeepPatterns(tokens[1..])
  }

  /** readPatterns on the text of the pattern file. */
  function ReadPatterns(content: string): (patterns: seq<string>)
    ensures forall k :: 0 <= k < |patterns| ==> |patterns[k]| > 0 && HasLetter(patterns[k])
    ensures forall k, j :: 0 <= k < |patterns| && 0 <= j < |patterns[k]| ==>
              IsPatternChar(patterns[k][j]) && !IsAsciiDigit(patterns[k][j])
    ensures forall k :: 0 <= k < |patterns| ==> NoWhitespace(patterns[k])
  {
    TrimAllSplit(content);
    KeepPatterns(TrimAll(SplitWhitespace(content)))
  }

  /** The positions of `tokens` at or after `from` whose token passes the filter, in order. */
  function KeptPositions(tokens: seq<string>, from: nat): seq<nat>
    decreases |tokens| - from
  {
    if from >= |tokens| then []
    else (if IsPattern(tokens[from]) then [from] else []) + KeptPositions(tokens, from + 1)
  }

  /** `pos` increases strictly. */
  predicate Increasing(pos: seq<nat>) {
    forall k, l :: 0 <= k < l < |pos| ==> pos[k] < pos[l]
  }

  /** `kept` lists the tokens at positions `pos`, all at or after `from`. */
  predicate PicksAt(tokens: seq<string>, from: nat, pos: seq<nat>, kept: seq<string>) {
    |pos| == |kept|
    && forall k :: 0 <= k < |pos| ==> from <= pos[k] < |tokens| && kept[k] == tokens[pos[k]]
  }

  /** The positions at or after `from` listed in `pos` are exactly those of passing tokens. */
  predicate ExactlyPassing(tokens: seq<string>, from: nat, pos: seq<nat>) {
    forall i :: from <= i < |tokens| ==> (IsPattern(tokens[i]) <==> i in pos)
  }

  /** The kept tokens are the tokens at the listed positions. */
  lemma {:induction false} KeepPatternsPicks(tokens: seq<string>, from: nat)
    requires from <= |tokens|
    decreases |tokens| - from
    ensures PicksAt(tokens, from, KeptPositions(tokens, from), KeepPatterns(tokens[from..]))
  {
    if from < |tokens| {
      KeepPatternsPicks(tokens, from + 1);
      var rest := KeptPositions(tokens, from + 1);
      var restKept := KeepPatterns(tokens[from + 1..]);
      assert tokens[from..][1..] == tokens[from + 1..];
      assert tokens[from..][0] == tokens[from];
      if IsPattern(tokens[from]) {
        var pos := [from] + rest;
        var kept := [tokens[from]] + restKept;
        assert KeptPositions(tokens, from) == pos;
        assert KeepPatterns(tokens[from..]) == kept;
        forall k | 0 < k < |pos| ensures from <= pos[k] < |tokens| && kept[k] == tokens[pos[k]] {
          assert pos[k] == rest[k - 1] && kept[k] == restKept[k - 1];
        }
      } else {
        assert KeptPositions(tokens, from) == rest;
        assert KeepPatterns(tokens[from..]) == restKept;
      }
    }
  }

  /** The listed positions increase, and are exactly those of the passing tokens. */
  lemma {:induction false} KeptPositionsExact(tokens: seq<string>, from: nat)
    requires from <= |tokens|
    decreases |tokens| - from
    ensures forall k :: 0 <= k < |KeptPositions(tokens, from)| ==> KeptPositions(tokens, from)[k] >= from
    ensures Increasing(KeptPositions(tokens, from))
    ensures ExactlyPassing(tokens, from, KeptPositions(tokens, from))
  {
    if from < |tokens| {
      KeptPositionsExact(tokens, from + 1);
      var rest := KeptPositions(tokens, from + 1);
      if IsPattern(tokens[from]) {
        var pos := [from] + rest;
        assert KeptPositions(tokens, from) == pos;
        forall k, l | 0 <= k < l < |pos| ensures pos[k] < pos[l] {
          assert pos[l] == rest[l - 1];
          if k > 0 { assert pos[k] == rest[k - 1]; }
        }
        forall i | from <= i < |tokens| ensures IsPattern(tokens[i]) <==> i in pos {
          if i > from {
            assert IsPattern(tokens[i]) <==> i in rest;
          }
        }
      } else {
        assert KeptPositions(tokens, from) == rest;
        forall i | from <= i < |tokens| ensures IsPattern(tokens[i]) <==> i in rest {
          if i > from {
            assert IsPattern(tokens[i]) <==> i in rest;
          }
        }
      }
    }
  }

  /** readPatterns keeps exactly the passing tokens of the split, in order, duplicates included. */
  lemma ReadPatternsSelects(content: string)
    ensures PicksAt(SplitWhitespace(content), 0, KeptPositions(SplitWhitespace(content), 0), ReadPatterns(content))
    ensures Increasing(KeptPositions(SplitWhitespace(content), 0))
    ensures ExactlyPassing(SplitWhitespace(content), 0, KeptPositions(SplitWhitespace(content), 0))
  {
    var tokens := SplitWhitespace(content);
    TrimAllSplit(content);
    KeepPatternsPicks(tokens, 0);
    KeptPositionsExact(tokens, 0);
    assert tokens[0..] == tokens;
  }

  /**
   * The pattern file `alpha beta!!! gamma-1` loads as the single pattern
   * `alpha`: `beta!!!` holds `!`, and `gamma-1` holds a digit, which the
   * character class of the filter does not admit.
   */
  lemma ExampleReadPatterns()
    ensures ReadPatterns("alpha beta!!! gamma-1") == ["alpha"]
  {
    var tokens := ["alpha", "beta!!!", "gamma-1"];
    ExampleTokens();
    var content := "alpha beta!!! gamma-1";
    assert SplitWhitespace(content) == tokens;
    TrimAllSplit(content);
    assert ReadPatterns(content) == KeepPatterns(tokens);
    ExampleFilter();
  }

  lemma ExampleTokens()
    ensures SplitWhitespace("alpha beta!!! gamma-1") == ["alpha", "beta!!!", "gamma-1"]
  {
    var tokens := ["alpha", "beta!!!", "gamma-1"];
    assert Join(tokens, " ") == "alpha beta!!! gamma-1" by {
      assert Join(tokens[2..], " ") == "gamma-1";
      assert Join(tokens[1..], " ") == "beta!!! gamma-1";
    }
    forall i | 0 <= i < |tokens| ensures NoWhitespace(tokens[i]) {
      forall j | 0 <= j < |tokens[i]| ensures !IsJsWhitespace(tokens[i][j]) {
        assert tokens[i][j] as int >= 0x21 && tokens[i][j] as int <= 0x7A;
      }
    }
    SplitWhitespaceJoin(tokens);
  }

  lemma ExampleFilter()
    ensures KeepPatterns(["alpha", "beta!!!", "gamma-1"]) == ["alpha"]
  {
    var tokens := ["alpha", "beta!!!", "gamma-1"];
    assert IsPattern("alpha") by {
      assert IsAsciiLetter("alpha"[0]);
      forall j | 0 <= j < 5 ensures IsPatternChar("alpha"[j]) { }
    }
    assert !AllowedCharsOnly("beta!!!") by { assert !IsPatternChar("beta!!!"[4]); }
    assert !AllowedCharsOnly("gamma-1") by { assert !IsPatternChar("gamma-1"[6]); }
    assert tokens[1..][1..] == tokens[2..];
    assert KeepPatterns(tokens[2..]) == [];
    assert KeepPatterns(tokens[1..]) == [];
  }

  /** Whitespace alone, or nothing, loads no pattern. */
  lemma {:induction false} BlankPatternFile(content: string)
    requires forall i :: 0 <= i < |content| ==> IsJsWhitespace(content[i])
    ensures ReadPatterns(content) == []
  {
    SplitWhitespaceKeepsText(content);
    NonWhitespaceOfBlank(content);
    var tokens := SplitWhitespace(content);
    TrimAllSplit(content);
    ConcatEmpty(tokens);
    NoPatternAmongEmpty(tokens);
  }

  lemma {:induction false} NonWhitespaceOfBlank(s: string)
    requires forall i :: 0 <= i < |s| ==> IsJsWhitespace(s[i])
    ensures NonWhitespace(s) == ""
  {
    if s != [] { NonWhitespaceOfBlank(s[1..]); }
  }

  lemma {:induction false} ConcatEmpty(tokens: seq<string>)
    requires Concat(tokens) == ""
    ensures forall i :: 0 <= i < |tokens| ==> tokens[i] == ""
  {
    if tokens != [] {
      ConcatEmpty(tokens[1..]);
      forall i | 0 < i < |tokens| ensures tokens[i] == "" { assert tokens[i] == tokens[1..][i - 1]; }
    }
  }

  lemma {:induction false} NoPatternAmongEmpty(tokens: seq<string>)
    requires forall i :: 0 <= i < |tokens| ==> tokens[i] == ""
    ensures KeepPatterns(tokens) == []
  {
    if tokens != [] { NoPatternAmongEmpty(tokens[1..]); }
  }
}
