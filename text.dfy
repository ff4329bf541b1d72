/**
 * The few Python string operations the server relies on, as total functions on
 * `seq<char>`: `str.isspace`/`str.strip`, `str.lower`/`str.upper` (for ASCII
 * letters), `str.startswith`/`str.endswith`, `str.splitlines`, `sep.join` and
 * `os.path.basename`.
 */
module Text {
  import opened Seqs

  /** The characters Python's `str.isspace` accepts, which `str.strip()` removes. */
  predicate IsSpace(c: char) {
    || c == ' '
    || ('\t' <= c <= '\r')
    || ('\U{001C}' <= c <= '\U{001F}')
    || c == '\U{0085}' || c == '\U{00A0}' || c == '\U{1680}'
    || ('\U{2000}' <= c <= '\U{200A}')
    || c == '\U{2028}' || c == '\U{2029}' || c == '\U{202F}' || c == '\U{205F}' || c == '\U{3000}'
  }

  /** Every character is white space (so `not s.strip()` holds in Python). */
  predicate IsBlank(s: string) {
    forall i | 0 <= i < |s| :: IsSpace(s[i])
  }

  /** `s.strip()`: `s` without its leading and trailing white space. */
  function Strip(s: string): (r: string)
    ensures r == [] <==> IsBlank(s)
    ensures r != [] ==> !IsSpace(r[0]) && !IsSpace(r[|r| - 1])
    ensures |r| <= |s|
    decreases |s|
  {
    if s != [] && IsSpace(s[0]) then
      var r := Strip(s[1..]);
      assert IsBlank(s[1..]) ==> IsBlank(s) by {
        if IsBlank(s[1..]) {
          forall i | 0 < i < |s| ensures IsSpace(s[i]) { assert s[i] == s[1..][i - 1]; }
        }
      }
      r
    else if s != [] && IsSpace(s[|s| - 1]) then
      Strip(s[..|s| - 1])
    else
      s
  }

  /** `r` is `s` with only white space cut off before and after it. */
  predicate TrimmedFrom(r: string, s: string) {
    exists i, j | 0 <= i <= j <= |s| :: r == s[i..j] && IsBlank(s[..i]) && IsBlank(s[j..])
  }

  lemma BlankCons(c: char, t: string)
    requires IsSpace(c) && IsBlank(t)
    ensures IsBlank([c] + t)
  {
    forall k | 0 <= k < |[c] + t| ensures IsSpace(([c] + t)[k]) {
      if k > 0 { assert ([c] + t)[k] == t[k - 1]; }
    }
  }

  lemma BlankSnoc(t: string, c: char)
    requires IsBlank(t) && IsSpace(c)
    ensures IsBlank(t + [c])
  {
    forall k | 0 <= k < |t + [c]| ensures IsSpace((t + [c])[k]) {
      if k < |t| { assert (t + [c])[k] == t[k]; }
    }
  }

  /** Cutting one leading space more keeps `r` trimmed from the longer string. */
  lemma TrimmedFromCons(r: string, c: char, t: string)
    requires IsSpace(c) && TrimmedFrom(r, t)
    ensures TrimmedFrom(r, [c] + t)
  {
    var i, j :| 0 <= i <= j <= |t| && r == t[i..j] && IsBlank(t[..i]) && IsBlank(t[j..]);
    var s := [c] + t;
    BlankCons(c, t[..i]);
    assert s[..i + 1] == [c] + t[..i];
    assert s[i + 1..j + 1] == t[i..j];
    assert s[j + 1..] == t[j..];
  }

  /** Cutting one trailing space more keeps `r` trimmed from the longer string. */
  lemma TrimmedFromSnoc(r: string, t: string, c: char)
    requires IsSpace(c) && TrimmedFrom(r, t)
    ensures TrimmedFrom(r, t + [c])
  {
    var i, j :| 0 <= i <= j <= |t| && r == t[i..j] && IsBlank(t[..i]) && IsBlank(t[j..]);
    var s := t + [c];
    BlankSnoc(t[j..], c);
    assert s[..i] == t[..i];
    assert s[i..j] == t[i..j];
    assert s[j..] == t[j..] + [c];
  }

  /** `s.strip()` is a slice of `s` with only white space cut off before and after it. */
  lemma {:induction false} StripIsInfix(s: string)
    ensures TrimmedFrom(Strip(s), s)
    decreases |s|
  {
    if s != [] && IsSpace(s[0]) {
      StripIsInfix(s[1..]);
      TrimmedFromCons(Strip(s[1..]), s[0], s[1..]);
      assert [s[0]] + s[1..] == s;
    } else if s != [] && IsSpace(s[|s| - 1]) {
      StripIsInfix(s[..|s| - 1]);
      TrimmedFromSnoc(Strip(s[..|s| - 1]), s[..|s| - 1], s[|s| - 1]);
      assert s[..|s| - 1] + [s[|s| - 1]] == s;
    } else {
      assert Strip(s) == s[0..|s|] && IsBlank(s[..0]) && IsBlank(s[|s|..]);
    }
  }

  function LowerChar(c: char): char {
    if 'A' <= c <= 'Z' then (c as int + 32) as char else c
  }

  function UpperChar(c: char): char {
    if 'a' <= c <= 'z' then (c as int - 32) as char else c
  }

  /** `s.lower()`, for the ASCII letters. */
  function Lower(s: string): (r: string)
    ensures |r| == |s|
    ensures forall i | 0 <= i < |s| :: r[i] == LowerChar(s[i])
  {
    seq(|s|, i requires 0 <= i < |s| => LowerChar(s[i]))
  }

  /** `s.upper()`, for the ASCII letters. */
  function Upper(s: string): (r: string)
    ensures |r| == |s|
    ensures forall i | 0 <= i < |s| :: r[i] == UpperChar(s[i])
  {
    seq(|s|, i requires 0 <= i < |s| => UpperChar(s[i]))
  }

  /** Lower-casing forgets the letter case a string was written in. */
  lemma LowerIgnoresCase(s: string)
    ensures Lower(Upper(s)) == Lower(s)
    ensures Lower(Lower(s)) == Lower(s)
  {
    assert forall i | 0 <= i < |s| :: LowerChar(UpperChar(s[i])) == LowerChar(s[i]);
  }

  predicate StartsWith(s: string, prefix: string) {
    |prefix| <= |s| && s[..|prefix|] == prefix
  }

  predicate EndsWith(s: string, suffix: string) {
    |suffix| <= |s| && s[|s| - |suffix|..] == suffix
  }

  /** The line boundaries of Python's `str.splitlines` ("\r\n" counts as one boundary). */
  predicate IsLineBreak(c: char) {
    || c == '\n' || c == '\r' || c == '\U{000B}' || c == '\U{000C}'
    || c == '\U{001C}' || c == '\U{001D}' || c == '\U{001E}'
    || c == '\U{0085}' || c == '\U{2028}' || c == '\U{2029}'
  }

  predicate NoLineBreak(s: string) {
    forall i | 0 <= i < |s| :: !IsLineBreak(s[i])
  }

  /** The index of the first line boundary of `s`, or `|s|` when there is none. */
  function LineEnd(s: string): (k: nat)
    ensures k <= |s|
    ensures NoLineBreak(s[..k])
    ensures k < |s| ==> IsLineBreak(s[k])
  {
    if s == [] || IsLineBreak(s[0]) then 0
    else
      var k := 1 + LineEnd(s[1..]);
      assert s[..k] == [s[0]] + s[1..][..k - 1];
      k
  }

  /** `s.splitlines()`: the lines of `s` without their boundaries; no empty last line. */
  function SplitLines(s: string): (lines: seq<string>)
    decreases |s|
  {
    if s == [] then []
    else
      var k := LineEnd(s);
      if k == |s| then [s]
      else
        var next := if s[k] == '\r' && k + 1 < |s| && s[k + 1] == '\n' then k + 2 else k + 1;
        [s[..k]] + SplitLines(s[next..])
  }

  /** `sep.join(parts)`. */
  function Join(parts: seq<string>, sep: string): string {
    if |parts| == 0 then ""
    else if |parts| == 1 then parts[0]
    else parts[0] + sep + Join(parts[1..], sep)
  }

  /** `os.path.basename(path)` with the POSIX separator: the text after the last "/". */
  function Basename(path: string): (name: string)
    ensures |name| <= |path| && name == path[|path| - |name|..]
    ensures '/' !in name
    ensures |name| < |path| ==> path[|path| - |name| - 1] == '/'
  {
    if path == [] || path[|path| - 1] == '/' then []
    else Basename(path[..|path| - 1]) + [path[|path| - 1]]
  }

  /** No line that `splitlines` produces contains a line boundary. */
  lemma {:induction false} SplitLinesHaveNoBreaks(s: string)
    ensures forall l <- SplitLines(s) :: NoLineBreak(l)
    decreases |s|
  {
    if s != [] {
      var k := LineEnd(s);
      if k < |s| {
        var next := if s[k] == '\r' && k + 1 < |s| && s[k + 1] == '\n' then k + 2 else k + 1;
        SplitLinesHaveNoBreaks(s[next..]);
      }
    }
  }

  /** A line without boundaries followed by "\n" is split off as the first line. */
  lemma SplitLinesStep(l: string, rest: string)
    requires NoLineBreak(l)
    ensures SplitLines(l + "\n" + rest) == [l] + SplitLines(rest)
  {
    var s := l + "\n" + rest;
    PiecesAround(l, '\n', rest);
    assert LineEnd(s) == |l| by {
      assert NoLineBreak(s[..|l|]);
    }
  }

  /**
   * Joining non-empty lines that hold no line boundary with "\n" and splitting
   * the result again gives back the same lines.
   */
  lemma {:induction false} SplitLinesOfJoin(lines: seq<string>)
    requires forall l <- lines :: l != [] && NoLineBreak(l)
    ensures SplitLines(Join(lines, "\n")) == lines
  {
    if |lines| == 1 {
      var l := lines[0];
      assert l in lines;
      assert NoLineBreak(l);
    } else if |lines| > 1 {
      var l := lines[0];
      assert l in lines;
      assert forall m <- lines[1..] :: m in lines;
      SplitLinesOfJoin(lines[1..]);
      SplitLinesStep(l, Join(lines[1..], "\n"));
      SplitLast(lines);
      assert lines == [l] + lines[1..];
    }
  }
}
