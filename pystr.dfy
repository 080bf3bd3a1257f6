/**
 * The Python `str` operations the collector and the loader are built on:
 * whitespace and line-break classes, `strip`, `split(',')`, `splitlines()`,
 * `startswith` and `lower()`. Each is given as a function with the
 * contract Python documents for it.
 */
module PyStr {

  /** `str.isspace()`; `re` uses the same class for `\s` on str patterns. */
  predicate IsSpace(c: char) {
    c == ' ' || ('\t' <= c <= '\r') || ('\U{1C}' <= c <= '\U{1F}')
    || c == '\U{85}' || c == '\U{A0}' || c == '\U{1680}'
    || ('\U{2000}' <= c <= '\U{200A}') || c == '\U{2028}' || c == '\U{2029}'
    || c == '\U{202F}' || c == '\U{205F}' || c == '\U{3000}'
  }

  /** The characters at which `str.splitlines()` ends a line. */
  predicate IsLineBreak(c: char) {
    ('\n' <= c <= '\r') || ('\U{1C}' <= c <= '\U{1E}')
    || c == '\U{85}' || c == '\U{2028}' || c == '\U{2029}'
  }

  /** The class `[0-9]` of `re`: ASCII digits only. */
  predicate IsDigit(c: char) {
    '0' <= c <= '9'
  }

  predicate LineFree(s: string) {
    forall k :: 0 <= k < |s| ==> !IsLineBreak(s[k])
  }

  predicate AllDigits(s: string) {
    forall k :: 0 <= k < |s| ==> IsDigit(s[k])
  }

  /** `s.startswith(prefix)` */
  predicate StartsWith(s: string, prefix: string) {
    |prefix| <= |s| && s[..|prefix|] == prefix
  }

  /** `str.lower()` on ASCII letters; every other character is kept. */
  function LowerChar(c: char): (d: char)
    ensures !('A' <= d <= 'Z')
    ensures !('A' <= c <= 'Z') ==> d == c
  {
    if 'A' <= c <= 'Z' then (c as int + 32) as char else c
  }

  function Lower(s: string): (r: string)
    ensures |r| == |s|
    ensures forall k :: 0 <= k < |s| ==> r[k] == LowerChar(s[k])
  {
    seq(|s|, k requires 0 <= k < |s| => LowerChar(s[k]))
  }

  /** `s.lstrip(chars)`, with the stripped characters given as a predicate. */
  function LStrip(s: string, drop: char -> bool): (r: string)
    ensures |r| <= |s| && r == s[|s| - |r|..]
    ensures r != [] ==> !drop(r[0])
    ensures forall k :: 0 <= k < |s| - |r| ==> drop(s[k])
  {
    if s != [] && drop(s[0]) then LStrip(s[1..], drop) else s
  }

  /** `s.rstrip(chars)` */
  function RStrip(s: string, drop: char -> bool): (r: string)
    ensures |r| <= |s| && r == s[..|r|]
    ensures r != [] ==> !drop(r[|r| - 1])
    ensures forall k :: |r| <= k < |s| ==> drop(s[k])
  {
    if s != [] && drop(s[|s| - 1]) then RStrip(s[..|s| - 1], drop) else s
  }

  /** How many characters `s.lstrip(chars)` removes. */
  function Leading(s: string, drop: char -> bool): (n: nat)
    ensures n <= |s|
  {
    |s| - |LStrip(s, drop)|
  }

  /**
   * `s.strip(chars)`: the longest run of `s` that neither starts nor ends
   * with a stripped character, all that is cut off on either side being
   * stripped characters.
   */
  function Strip(s: string, drop: char -> bool): (r: string)
    ensures Leading(s, drop) + |r| <= |s|
    ensures r == s[Leading(s, drop)..][..|r|]
    ensures forall k :: 0 <= k < Leading(s, drop) ==> drop(s[k])
    ensures forall k :: Leading(s, drop) + |r| <= k < |s| ==> drop(s[k])
    ensures r != [] ==> !drop(r[0]) && !drop(r[|r| - 1])
  {
    RStrip(LStrip(s, drop), drop)
  }

  /** `sep.join(parts)` */
  function Join(parts: seq<string>, sep: char): string
  {
    if parts == [] then ""
    else if |parts| == 1 then parts[0]
    else parts[0] + [sep] + Join(parts[1..], sep)
  }

  /** `s.split(sep)` for a one-character separator; `"".split(",") == [""]`. */
  function Split(s: string, sep: char): (parts: seq<string>)
    ensures |parts| >= 1
    ensures forall i :: 0 <= i < |parts| ==> sep !in parts[i]
    ensures Join(parts, sep) == s
  {
    if s == [] then [""]
    else
      var rest := Split(s[1..], sep);
      if s[0] == sep then
        assert Join([""] + rest, sep) == [sep] + Join(rest, sep) by {
          assert ([""] + rest)[1..] == rest;
        }
        [""] + rest
      else
        var parts := [[s[0]] + rest[0]] + rest[1..];
        JoinFirstPart(s[0], rest, sep);
        parts
  }

  lemma JoinFirstPart(c: char, parts: seq<string>, sep: char)
    requires |parts| >= 1
    ensures Join([[c] + parts[0]] + parts[1..], sep) == [c] + Join(parts, sep)
  {
    var ps := [[c] + parts[0]] + parts[1..];
    if |parts| > 1 {
      assert ps[1..] == parts[1..];
    }
  }

  /** Splitting a joined list gives back the list, when no part holds the separator. */
  lemma {:induction false} SplitJoin(parts: seq<string>, sep: char)
    requires |parts| >= 1
    requires forall i :: 0 <= i < |parts| ==> sep !in parts[i]
    ensures Split(Join(parts, sep), sep) == parts
  {
    if |parts| == 1 {
      SplitPlain(parts[0], sep);
    } else {
      SplitJoin(parts[1..], sep);
      SplitAfterPart(parts[0], Join(parts[1..], sep), sep);
      assert [parts[0]] + parts[1..] == parts;
    }
  }

  lemma {:induction false} SplitPlain(a: string, sep: char)
    requires sep !in a
    ensures Split(a, sep) == [a]
  {
    if a != [] {
      SplitPlain(a[1..], sep);
    }
  }

  lemma {:induction false} SplitAfterPart(a: string, b: string, sep: char)
    requires sep !in a
    ensures Split(a + [sep] + b, sep) == [a] + Split(b, sep)
  {
    var s := a + [sep] + b;
    if a == [] {
      assert s[1..] == b;
    } else {
      assert s[1..] == a[1..] + [sep] + b;
      SplitAfterPart(a[1..], b, sep);
      assert [a[0]] + a[1..] == a;
    }
  }

  /** Index of the first line break of `s`, or `|s|` when there is none. */
  function FirstBreak(s: string): (i: nat)
    ensures i <= |s| && LineFree(s[..i])
    ensures i < |s| ==> IsLineBreak(s[i])
  {
    if s == [] || IsLineBreak(s[0]) then 0
    else
      var i := 1 + FirstBreak(s[1..]);
      assert s[..i] == [s[0]] + s[1..][..i - 1];
      i
  }

  /**
   * `s.splitlines()`: the lines of `s` without their line breaks; "\r\n"
   * counts as one break, and a break at the very end opens no extra line.
   */
  function SplitLines(s: string): (lines: seq<string>)
    ensures forall i :: 0 <= i < |lines| ==> LineFree(lines[i])
    decreases |s|
  {
    if s == [] then []
    else
      var e := FirstBreak(s);
      if e == |s| then [s]
      else
        var width := if s[e] == '\r' && e + 1 < |s| && s[e + 1] == '\n' then 2 else 1;
        [s[..e]] + SplitLines(s[e + width..])
  }

  /** Lines each terminated by "\r\n", the way `csv.writer` terminates records. */
  function CrlfJoin(lines: seq<string>): string
  {
    if lines == [] then "" else lines[0] + "\r\n" + CrlfJoin(lines[1..])
  }

  lemma {:induction false} FirstBreakAfter(a: string, b: string)
    requires LineFree(a)
    ensures FirstBreak(a + b) == |a| + FirstBreak(b)
  {
    if a != [] {
      assert (a + b)[1..] == a[1..] + b;
      FirstBreakAfter(a[1..], b);
    } else {
      assert a + b == b;
    }
  }

  /** `splitlines()` takes apart what "\r\n"-terminated writing put together. */
  lemma {:induction false} SplitLinesOfCrlfJoin(lines: seq<string>)
    requires forall i :: 0 <= i < |lines| ==> LineFree(lines[i])
    ensures SplitLines(CrlfJoin(lines)) == lines
  {
    if lines != [] {
      var l := lines[0];
      var rest := CrlfJoin(lines[1..]);
      var s := CrlfJoin(lines);
      assert s == l + ("\r\n" + rest);
      FirstBreakAfter(l, "\r\n" + rest);
      assert FirstBreak(s) == |l|;
      assert s[|l|] == '\r' && s[|l| + 1] == '\n';
      assert s[..|l|] == l;
      assert s[|l| + 2..] == rest;
      SplitLinesOfCrlfJoin(lines[1..]);
      assert [l] + lines[1..] == lines;
    }
  }
}
