/**
 * Character classes and the string primitives the crawler relies on:
 * splitting on one separator character, joining with a separator, and
 * rendering a natural number in decimal (JavaScript template literals).
 */
module Text {

  /** `[a-zA-Z]` */
  predicate IsAsciiLetter(c: char) {
    'a' <= c <= 'z' || 'A' <= c <= 'Z'
  }

  /** `[0-9]` */
  predicate IsAsciiDigit(c: char) {
    '0' <= c <= '9'
  }

  /** `[a-zA-Z0-9]`: the characters that may not flank a word match. */
  predicate IsAsciiAlnum(c: char) {
    IsAsciiLetter(c) || IsAsciiDigit(c)
  }

  /**
   * ECMAScript `\s`: the WhiteSpace and LineTerminator code points
   * (tab, line feed, vertical tab, form feed, carriage return, space,
   * no-break space, the Unicode space separators, line and paragraph
   * separators, and the byte order mark). `String.prototype.trim` strips
   * the same set.
   */
  predicate IsJsWhitespace(c: char) {
    var n := c as int;
    (0x09 <= n <= 0x0D) || n == 0x20 || n == 0xA0 || n == 0x1680
    || (0x2000 <= n <= 0x200A) || n == 0x2028 || n == 0x2029
    || n == 0x202F || n == 0x205F || n == 0x3000 || n == 0xFEFF
  }

  /** Number of occurrences of `c` in `s`. */
  function Count(s: string, c: char): nat {
    if s == [] then 0 else (if s[0] == c then 1 else 0) + Count(s[1..], c)
  }

  /**
   * `s.split(sep)` for a one-character separator: the maximal pieces of `s`
   * that do not contain `sep`, including the empty pieces that adjacent,
   * leading or trailing separators produce.
   */
  function SplitAt(s: string, sep: char): (parts: seq<string>)
    ensures |parts| >= 1
  {
    if s == [] then [""]
    else
      var rest := SplitAt(s[1..], sep);
      if s[0] == sep then [""] + rest
      else [[s[0]] + rest[0]] + rest[1..]
  }

  /** `parts.join(sep)` */
  function Join(parts: seq<string>, sep: string): string {
    if |parts| == 0 then ""
    else if |parts| == 1 then parts[0]
    else parts[0] + sep + Join(parts[1..], sep)
  }

  /** True when no piece contains `c`. */
  predicate NoneContains(parts: seq<string>, c: char) {
    forall i :: 0 <= i < |parts| ==> c !in parts[i]
  }

  /** Splitting yields one more piece than there are separators, none containing the separator. */
  lemma {:induction false} SplitAtShape(s: string, sep: char)
    ensures |SplitAt(s, sep)| == Count(s, sep) + 1
    ensures NoneContains(SplitAt(s, sep), sep)
  {
    if s != [] {
      SplitAtShape(s[1..], sep);
      var rest := SplitAt(s[1..], sep);
      if s[0] != sep {
        var parts := SplitAt(s, sep);
        assert parts[0] == [s[0]] + rest[0];
        forall i | 0 <= i < |parts| ensures sep !in parts[i] {
          if i > 0 { assert parts[i] == rest[i]; }
        }
      }
    }
  }

  /** Joining the pieces back with the separator restores the string. */
  lemma {:induction false} JoinSplitAt(s: string, sep: char)
    ensures Join(SplitAt(s, sep), [sep]) == s
  {
    if s != [] {
      JoinSplitAt(s[1..], sep);
      var rest := SplitAt(s[1..], sep);
      if s[0] == sep {
        assert SplitAt(s, sep) == [""] + rest;
        assert ([""] + rest)[1..] == rest;
        assert s == [sep] + s[1..];
      } else {
        var parts := SplitAt(s, sep);
        assert parts[1..] == rest[1..];
        if |rest| == 1 {
          assert Join(parts, [sep]) == [s[0]] + rest[0];
        } else {
          assert Join(rest, [sep]) == rest[0] + [sep] + Join(rest[1..], [sep]);
          assert Join(parts, [sep]) == [s[0]] + rest[0] + [sep] + Join(rest[1..], [sep]);
        }
        assert s == [s[0]] + s[1..];
      }
    }
  }

  /** A leading non-separator character joins the first piece. */
  lemma SplitAtCons(c: char, s: string, sep: char)
    requires c != sep
    ensures SplitAt([c] + s, sep) == [[c] + SplitAt(s, sep)[0]] + SplitAt(s, sep)[1..]
  {
    assert ([c] + s)[0] == c && ([c] + s)[1..] == s;
  }

  /** A separator-free prefix extends the first piece of what follows it. */
  lemma {:induction false} SplitAtPrefix(a: string, t: string, sep: char)
    requires sep !in a
    ensures SplitAt(a + t, sep) == [a + SplitAt(t, sep)[0]] + SplitAt(t, sep)[1..]
  {
    var p := SplitAt(t, sep);
    if a == [] {
      assert a + t == t && a + p[0] == p[0];
      assert [p[0]] + p[1..] == p;
    } else {
      SplitAtPrefix(a[1..], t, sep);
      var rest := SplitAt(a[1..] + t, sep);
      assert a + t == [a[0]] + (a[1..] + t);
      SplitAtCons(a[0], a[1..] + t, sep);
      assert rest[0] == a[1..] + p[0] && rest[1..] == p[1..];
      assert [a[0]] + (a[1..] + p[0]) == a + p[0];
    }
  }

  /** Splitting a join of separator-free pieces gives the pieces back. */
  lemma {:induction false} SplitAtJoin(parts: seq<string>, sep: char)
    requires |parts| >= 1
    requires NoneContains(parts, sep)
    ensures SplitAt(Join(parts, [sep]), sep) == parts
  {
    if |parts| == 1 {
      SplitAtPrefix(parts[0], "", sep);
      assert parts[0] + "" == parts[0];
    } else {
      var tail := Join(parts[1..], [sep]);
      SplitAtJoin(parts[1..], sep);
      assert SplitAt([sep] + tail, sep) == [""] + parts[1..];
      assert parts[0] + [sep] + tail == parts[0] + ([sep] + tail);
      SplitAtPrefix(parts[0], [sep] + tail, sep);
      assert parts[0] + "" == parts[0];
      assert [parts[0]] + parts[1..] == parts;
    }
  }

  /** The decimal digit character for `d`. */
  function DigitChar(d: nat): (c: char)
    requires d < 10
    ensures IsAsciiDigit(c)
  {
    ('0' as int + d) as char
  }

  /** The value of a decimal digit character. */
  function DigitValue(c: char): nat
    requires IsAsciiDigit(c)
  {
    c as int - '0' as int
  }

  /** `${n}` for a non-negative integer: its decimal representation, no leading zeros. */
  function NatToString(n: nat): (s: string)
    ensures |s| >= 1
    ensures forall i :: 0 <= i < |s| ==> IsAsciiDigit(s[i])
    ensures |s| > 1 ==> s[0] != '0'
  {
    if n < 10 then [DigitChar(n)] else NatToString(n / 10) + [DigitChar(n % 10)]
  }

  /** The number a string of decimal digits denotes. */
  function ParseDecimal(s: string): nat
    requires forall i :: 0 <= i < |s| ==> IsAsciiDigit(s[i])
  {
    if s == [] then 0 else ParseDecimal(s[..|s| - 1]) * 10 + DigitValue(s[|s| - 1])
  }

  /** Reading the rendered count back gives the count. */
  lemma {:induction false} ParseNatToString(n: nat)
    ensures ParseDecimal(NatToString(n)) == n
  {
    var s := NatToString(n);
    if n >= 10 {
      ParseNatToString(n / 10);
      assert s[..|s| - 1] == NatToString(n / 10);
    }
  }
}
