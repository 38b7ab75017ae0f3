/**
 * The string primitives the bot borrows from Python: whitespace as
 * str.isspace() sees it, strip/rstrip/lstrip, str.splitlines, str.join,
 * str.replace, substring tests, and decimal formatting of integers.
 */
module Text {
  import opened Wrappers

  /** A character of Python's `\s` class (str patterns) and of str.isspace(). */
  predicate IsSpace(c: char) {
    var n := c as int;
    (9 <= n <= 13) || (28 <= n <= 32) || n == 0x85 || n == 0xA0 || n == 0x1680
    || (0x2000 <= n <= 0x200A) || n == 0x2028 || n == 0x2029 || n == 0x202F
    || n == 0x205F || n == 0x3000
  }

  /** A line boundary of Python's str.splitlines(); "\r\n" counts as one boundary. */
  predicate IsLineBreak(c: char) {
    var n := c as int;
    (10 <= n <= 13) || (28 <= n <= 30) || n == 0x85 || n == 0x2028 || n == 0x2029
  }

  /** Lower-casing restricted to ASCII letters. */
  function AsciiLower(c: char): (r: char)
    ensures 'A' <= c <= 'Z' ==> 'a' <= r <= 'z' && r as int - c as int == 32
    ensures !('A' <= c <= 'Z') ==> r == c
  {
    if 'A' <= c <= 'Z' then (c as int + 32) as char else c
  }

  function Lower(s: string): (r: string)
    ensures |r| == |s|
    ensures forall i :: 0 <= i < |s| ==> r[i] == AsciiLower(s[i])
  {
    seq(|s|, i requires 0 <= i < |s| => AsciiLower(s[i]))
  }

  predicate OccursAt(s: string, pat: string, i: nat) {
    i + |pat| <= |s| && s[i..i + |pat|] == pat
  }

  /** Python's `pat in s`. */
  predicate Contains(s: string, pat: string) {
    exists i: nat :: i <= |s| && OccursAt(s, pat, i)
  }

  predicate StartsWith(s: string, p: string) {
    |p| <= |s| && s[..|p|] == p
  }

  predicate EndsWith(s: string, p: string) {
    |p| <= |s| && s[|s| - |p|..] == p
  }

  /** No whitespace at either end: what str.strip() leaves. */
  predicate Stripped(s: string) {
    s == [] || (!IsSpace(s[0]) && !IsSpace(s[|s| - 1]))
  }

  /** A run made of whitespace only (possibly empty). */
  predicate SpaceRun(w: string) {
    forall i :: 0 <= i < |w| ==> IsSpace(w[i])
  }

  /** str.rstrip(): the longest prefix after which only whitespace follows. */
  function RStrip(s: string): (r: string)
    ensures |r| <= |s| && r == s[..|r|]
    ensures forall i :: |r| <= i < |s| ==> IsSpace(s[i])
    ensures r == [] || !IsSpace(r[|r| - 1])
    decreases |s|
  {
    if s != [] && IsSpace(s[|s| - 1]) then RStrip(s[..|s| - 1]) else s
  }

  /** str.lstrip(): the longest suffix before which only whitespace comes. */
  function LStrip(s: string): (r: string)
    ensures |r| <= |s| && r == s[|s| - |r|..]
    ensures forall i :: 0 <= i < |s| - |r| ==> IsSpace(s[i])
    ensures r == [] || !IsSpace(r[0])
    ensures s != [] && IsSpace(s[0]) ==> |r| < |s|
    decreases |s|
  {
    if s != [] && IsSpace(s[0]) then
      var r := LStrip(s[1..]);
      assert s[|s| - |r|..] == s[1..][|s[1..]| - |r|..];
      assert forall i :: 0 < i < |s| ==> s[i] == s[1..][i - 1];
      r
    else s
  }

  /** str.strip(). */
  function Strip(s: string): (r: string)
    ensures |r| <= |s|
    ensures Stripped(r)
    ensures forall c :: c in r ==> c in s
    ensures Stripped(s) ==> r == s
  {
    LStrip(RStrip(s))
  }

  /** What str.strip() keeps is one contiguous slice of its argument. */
  lemma StripSlice(s: string) returns (a: nat, b: nat)
    ensures a <= b <= |s| && Strip(s) == s[a..b]
    ensures forall i :: 0 <= i < a ==> IsSpace(s[i])
    ensures forall i :: b <= i < |s| ==> IsSpace(s[i])
  {
    var t := RStrip(s);
    var u := LStrip(t);
    b := |t|;
    a := |t| - |u|;
    assert t == s[..b];
    assert u == t[a..];
    assert s[a..b] == t[a..];
    forall i | 0 <= i < a
      ensures IsSpace(s[i])
    {
      assert s[i] == t[i];
    }
  }

  /** str.join(xs) with separator `sep`. */
  function Join(sep: string, xs: seq<string>): string
    decreases |xs|
  {
    if |xs| == 0 then ""
    else if |xs| == 1 then xs[0]
    else xs[0] + sep + Join(sep, xs[1..])
  }

  lemma {:induction false} JoinAppend(sep: string, xs: seq<string>, y: string)
    requires |xs| > 0
    ensures Join(sep, xs + [y]) == Join(sep, xs) + sep + y
    decreases |xs|
  {
    if |xs| > 1 {
      assert (xs + [y])[1..] == xs[1..] + [y];
      JoinAppend(sep, xs[1..], y);
    } else {
      assert (xs + [y])[1..] == [y];
    }
  }

  lemma {:induction false} JoinPrepend(sep: string, x: string, xs: seq<string>)
    requires |xs| > 0
    ensures Join(sep, [x] + xs) == x + sep + Join(sep, xs)
  {
    assert ([x] + xs)[1..] == xs;
  }

  lemma JoinSplitFirst(sep: string, xs: seq<string>)
    requires |xs| > 1
    ensures Join(sep, xs) == xs[0] + (sep + Join(sep, xs[1..]))
  {
  }

  /** A join of non-empty parts starts with the first part's first character and ends with the last part's last one. */
  lemma {:induction false} JoinEnds(sep: string, xs: seq<string>)
    requires |xs| > 0
    requires forall i :: 0 <= i < |xs| ==> xs[i] != []
    ensures var r := Join(sep, xs); r != [] && r[0] == xs[0][0] && r[|r| - 1] == xs[|xs| - 1][|xs[|xs| - 1]| - 1]
    decreases |xs|
  {
    if |xs| > 1 {
      JoinEnds(sep, xs[1..]);
    }
  }

  /** Index of the first line boundary of `s`, or |s| when it has none. */
  function FirstBreak(s: string): (i: nat)
    ensures i <= |s|
    ensures forall k :: 0 <= k < i ==> !IsLineBreak(s[k])
    ensures i < |s| ==> IsLineBreak(s[i])
    decreases |s|
  {
    if s == [] || IsLineBreak(s[0]) then 0 else 1 + FirstBreak(s[1..])
  }

  /** A string holding no line boundary. */
  predicate NoLineBreak(s: string) {
    forall i :: 0 <= i < |s| ==> !IsLineBreak(s[i])
  }

  /**
   * str.splitlines(): the pieces between line boundaries, "\r\n" being one
   * boundary; "" gives no line and a final boundary opens no empty last line.
   */
  function SplitLines(s: string): (lines: seq<string>)
    ensures s == [] <==> lines == []
    decreases |s|
  {
    if s == [] then []
    else
      var i := FirstBreak(s);
      if i == |s| then [s]
      else [s[..i]] + SplitLines(s[LineEnd(s, i)..])
  }

  /** Where the line after the boundary at `i` starts: "\r\n" is skipped as one boundary. */
  function LineEnd(s: string, i: nat): (j: nat)
    requires i < |s|
    ensures i < j <= |s|
  {
    if s[i] == '\r' && i + 1 < |s| && s[i + 1] == '\n' then i + 2 else i + 1
  }

  /** The lines str.splitlines() gives hold no boundary and only characters of the string; with "\n" as the only boundary, joining them gives the string back. */
  lemma SplitLinesShape(s: string)
    ensures forall i :: 0 <= i < |SplitLines(s)| ==> NoLineBreak(SplitLines(s)[i])
    ensures forall i :: 0 <= i < |SplitLines(s)| ==> CharsIn(SplitLines(s)[i], s)
    ensures OnlyNewlines(s) && (s == [] || s[|s| - 1] != '\n') ==> Join("\n", SplitLines(s)) == s
  {
    SplitLinesNoBreak(s);
    SplitLinesChars(s);
    if OnlyNewlines(s) && (s == [] || s[|s| - 1] != '\n') {
      SplitLinesRejoin(s);
    }
  }

  lemma {:induction false} SplitLinesNoBreak(s: string)
    ensures forall i :: 0 <= i < |SplitLines(s)| ==> NoLineBreak(SplitLines(s)[i])
    decreases |s|
  {
    if s != [] {
      var i := FirstBreak(s);
      if i < |s| {
        var j := LineEnd(s, i);
        SplitLinesNoBreak(s[j..]);
        assert SplitLines(s) == [s[..i]] + SplitLines(s[j..]);
        assert NoLineBreak(s[..i]) by {
          forall k | 0 <= k < i
            ensures !IsLineBreak(s[..i][k])
          {
            assert s[..i][k] == s[k];
          }
        }
      } else {
        assert SplitLines(s) == [s];
      }
    }
  }

  lemma {:induction false} SplitLinesChars(s: string)
    ensures forall i :: 0 <= i < |SplitLines(s)| ==> CharsIn(SplitLines(s)[i], s)
    decreases |s|
  {
    if s != [] {
      var i := FirstBreak(s);
      if i < |s| {
        var j := LineEnd(s, i);
        var rest := SplitLines(s[j..]);
        SplitLinesChars(s[j..]);
        SliceChars(s, 0, i);
        SliceChars(s, j, |s|);
        assert forall k :: 0 <= k < |rest| ==> CharsIn(rest[k], s);
        assert SplitLines(s) == [s[..i]] + rest;
      } else {
        assert SplitLines(s) == [s];
        assert CharsIn(s, s);
      }
    }
  }

  /** Only "\n" separates lines: no other line boundary occurs. */
  predicate OnlyNewlines(s: string) {
    forall i :: 0 <= i < |s| && IsLineBreak(s[i]) ==> s[i] == '\n'
  }

  /** Splitting text whose only boundaries are "\n", and which does not end in one, and joining with "\n" gives it back. */
  lemma {:induction false} SplitLinesRejoin(s: string)
    requires OnlyNewlines(s)
    requires s == [] || s[|s| - 1] != '\n'
    ensures Join("\n", SplitLines(s)) == s
    decreases |s|
  {
    if s != [] {
      var i := FirstBreak(s);
      if i < |s| {
        var rest := s[i + 1..];
        SplitAtNewline(s, i);
        CutAtNewline(s, i);
        assert s[|s| - 1] == rest[|rest| - 1];
        OnlyNewlinesSuffix(s, i + 1);
        SplitLinesRejoin(rest);
        JoinPrepend("\n", s[..i], SplitLines(rest));
      }
    }
  }

  /** At a "\n" boundary found first, str.splitlines() takes the line before it and goes on after it. */
  lemma SplitAtNewline(s: string, i: nat)
    requires i < |s| && s[i] == '\n' && FirstBreak(s) == i
    ensures SplitLines(s) == [s[..i]] + SplitLines(s[i + 1..])
  {
    assert LineEnd(s, i) == i + 1;
  }

  lemma CutAtNewline(s: string, i: nat)
    requires i < |s| && s[i] == '\n'
    ensures s == s[..i] + "\n" + s[i + 1..]
  {
    assert s == s[..i] + [s[i]] + s[i + 1..];
  }

  lemma OnlyNewlinesSuffix(s: string, j: nat)
    requires OnlyNewlines(s) && j <= |s|
    ensures OnlyNewlines(s[j..])
  {
    forall k | 0 <= k < |s[j..]| && IsLineBreak(s[j..][k])
      ensures s[j..][k] == '\n'
    {
      assert s[j..][k] == s[j + k];
    }
  }

  lemma FirstBreakAfterLine(a: string, b: string)
    requires NoLineBreak(a)
    ensures FirstBreak(a + "\n" + b) == |a|
  {
    var s := a + "\n" + b;
    assert forall k :: 0 <= k < |a| ==> s[k] == a[k];
    assert s[|a|] == '\n';
  }

  /** A line followed by "\n" is the first line str.splitlines() gives; the rest is split on its own. */
  lemma SplitAfterLine(a: string, b: string)
    requires NoLineBreak(a)
    ensures SplitLines(a + "\n" + b) == [a] + SplitLines(b)
  {
    var s := a + "\n" + b;
    FirstBreakAfterLine(a, b);
    SplitAtNewline(s, |a|);
    assert s[..|a|] == a;
    assert s[|a| + 1..] == b;
  }

  lemma NoLineBreakLine(a: string)
    requires a != [] && NoLineBreak(a)
    ensures SplitLines(a) == [a]
  {
    assert FirstBreak(a) == |a|;
  }

  /** Joining lines free of boundaries with "\n" and splitting the result gives the lines back, when the last is not empty. */
  lemma {:induction false} JoinSplitLines(lines: seq<string>)
    requires |lines| > 0 && lines[|lines| - 1] != []
    requires forall i :: 0 <= i < |lines| ==> NoLineBreak(lines[i])
    ensures SplitLines(Join("\n", lines)) == lines
    decreases |lines|
  {
    if |lines| == 1 {
      NoLineBreakLine(lines[0]);
    } else {
      var a, rest := lines[0], lines[1..];
      assert rest[|rest| - 1] == lines[|lines| - 1];
      JoinSplitLines(rest);
      calc {
        SplitLines(Join("\n", lines));
        { assert [a] + rest == lines; JoinPrepend("\n", a, rest); }
        SplitLines(a + "\n" + Join("\n", rest));
        { SplitAfterLine(a, Join("\n", rest)); }
        [a] + SplitLines(Join("\n", rest));
        [a] + rest;
        lines;
      }
    }
  }

  /** Every character of `t` occurs in `s`. */
  predicate CharsIn(t: string, s: string) {
    forall c :: c in t ==> c in s
  }

  /** Every character of a slice is a character of the whole. */
  lemma SliceChars(s: string, a: nat, b: nat)
    requires a <= b <= |s|
    ensures CharsIn(s[a..b], s)
  {
    forall c | c in s[a..b]
      ensures c in s
    {
      var k :| 0 <= k < b - a && s[a..b][k] == c;
      assert s[a + k] == c;
    }
  }

  /** Index of the first `c` in `s`, or |s| when there is none. */
  function IndexOf(s: string, c: char): (i: nat)
    ensures i <= |s|
    ensures c !in s[..i]
    ensures i < |s| ==> s[i] == c
    decreases |s|
  {
    if s == [] then 0
    else if s[0] == c then 0
    else
      assert s[..1 + IndexOf(s[1..], c)] == [s[0]] + s[1..][..IndexOf(s[1..], c)];
      1 + IndexOf(s[1..], c)
  }

  lemma {:induction false} IndexOfFirst(s: string, c: char, k: nat)
    requires k < |s| && s[k] == c && c !in s[..k]
    ensures IndexOf(s, c) == k
    decreases k
  {
    if k > 0 {
      assert s[0] in s[..k];
      assert s[1..][..k - 1] == s[1..k];
      assert s[1..k] == s[..k][1..];
      IndexOfFirst(s[1..], c, k - 1);
    }
  }

  /** The parts of `s` between occurrences of `sep`, as str.split(sep) gives them. */
  function SplitOn(s: string, sep: char): (parts: seq<string>)
    ensures |parts| >= 1
    decreases |s|
  {
    var i := IndexOf(s, sep);
    if i == |s| then [s] else [s[..i]] + SplitOn(s[i + 1..], sep)
  }

  lemma SplitOnWithout(s: string, sep: char)
    requires sep !in s
    ensures SplitOn(s, sep) == [s]
  {
    assert s[..|s|] == s;
  }

  lemma {:induction false} SplitOnFirst(a: string, sep: char, b: string)
    requires sep !in a
    ensures SplitOn(a + [sep] + b, sep) == [a] + SplitOn(b, sep)
  {
    var s := a + [sep] + b;
    var i := IndexOf(s, sep);
    assert s[..|a|] == a;
    IndexOfFirst(s, sep, |a|);
    assert s[i + 1..] == b;
  }

  /** str.replace(pat, repl): every occurrence of `pat`, scanned left to right without overlap. */
  function ReplaceAll(s: string, pat: string, repl: string): (r: string)
    requires |pat| > 0
    ensures |repl| == |pat| ==> |r| == |s|
    ensures |repl| >= |pat| ==> |r| >= |s|
    decreases |s|
  {
    if |s| < |pat| then s
    else if s[..|pat|] == pat then repl + ReplaceAll(s[|pat|..], pat, repl)
    else [s[0]] + ReplaceAll(s[1..], pat, repl)
  }

  /** str.replace leaves a string in which `pat` does not occur as it is. */
  lemma {:induction false} ReplaceAllAbsent(s: string, pat: string, repl: string)
    requires |pat| > 0
    requires !Contains(s, pat)
    ensures ReplaceAll(s, pat, repl) == s
    decreases |s|
  {
    if |s| >= |pat| {
      assert !OccursAt(s, pat, 0);
      if Contains(s[1..], pat) {
        var i: nat :| i <= |s[1..]| && OccursAt(s[1..], pat, i);
        assert s[i + 1..i + 1 + |pat|] == s[1..][i..i + |pat|];
        assert OccursAt(s, pat, i + 1);
      }
      ReplaceAllAbsent(s[1..], pat, repl);
    }
  }

  /** str.replace rewrites an occurrence at the very start and goes on after it. */
  lemma ReplaceAllAtStart(pat: string, repl: string, rest: string)
    requires |pat| > 0
    ensures ReplaceAll(pat + rest, pat, repl) == repl + ReplaceAll(rest, pat, repl)
  {
    assert (pat + rest)[..|pat|] == pat;
    assert (pat + rest)[|pat|..] == rest;
  }

  /** str.replace copies text in which no occurrence of `pat` starts, then goes on with the rest. */
  lemma {:induction false} ReplaceAllPrefix(a: string, b: string, pat: string, repl: string)
    requires |pat| > 0
    requires forall i :: 0 <= i < |a| ==> !OccursAt(a + b, pat, i)
    ensures ReplaceAll(a + b, pat, repl) == a + ReplaceAll(b, pat, repl)
    decreases |a|
  {
    if a == [] {
      assert a + b == b;
    } else {
      var s := a + b;
      assert !OccursAt(s, pat, 0);
      NoOccurrenceShift(a, b, pat);
      calc {
        ReplaceAll(s, pat, repl);
      == { ReplaceAllSkip(s, pat, repl); }
        [s[0]] + ReplaceAll(s[1..], pat, repl);
      == { assert s[0] == a[0] && s[1..] == a[1..] + b; }
        [a[0]] + ReplaceAll(a[1..] + b, pat, repl);
      == { ReplaceAllPrefix(a[1..], b, pat, repl); }
        [a[0]] + (a[1..] + ReplaceAll(b, pat, repl));
      == { assert a == [a[0]] + a[1..]; }
        a + ReplaceAll(b, pat, repl);
      }
    }
  }

  /** Where no occurrence of `pat` starts, str.replace copies the character. */
  lemma ReplaceAllSkip(s: string, pat: string, repl: string)
    requires |pat| > 0 && s != [] && !OccursAt(s, pat, 0)
    ensures ReplaceAll(s, pat, repl) == [s[0]] + ReplaceAll(s[1..], pat, repl)
  {
    if |s| < |pat| {
      assert ReplaceAll(s[1..], pat, repl) == s[1..];
      assert s == [s[0]] + s[1..];
    }
  }

  lemma NoOccurrenceShift(a: string, b: string, pat: string)
    requires a != []
    requires forall i :: 0 <= i < |a| ==> !OccursAt(a + b, pat, i)
    ensures forall i :: 0 <= i < |a| - 1 ==> !OccursAt(a[1..] + b, pat, i)
  {
    var s, t := a + b, a[1..] + b;
    forall i | 0 <= i < |a| - 1
      ensures !OccursAt(t, pat, i)
    {
      assert !OccursAt(s, pat, i + 1);
      if i + |pat| <= |t| {
        assert t[i..i + |pat|] == s[i + 1..i + 1 + |pat|];
      }
    }
  }

  /** The decimal digit for d. */
  function Digit(d: nat): (c: char)
    requires d < 10
    ensures '0' <= c <= '9' && c as int - '0' as int == d
  {
    ('0' as int + d) as char
  }

  predicate AllDigits(s: string) {
    forall i :: 0 <= i < |s| ==> '0' <= s[i] <= '9'
  }

  /** `str(n)` / f"{n}" for a non-negative integer: decimal, no leading zero. */
  function NatToString(n: nat): (r: string)
    ensures |r| >= 1 && AllDigits(r)
    ensures n < 10 <==> |r| == 1
    ensures |r| == 1 || r[0] != '0'
    decreases n
  {
    if n < 10 then [Digit(n)] else NatToString(n / 10) + [Digit(n % 10)]
  }

  /** The value of a string of decimal digits. */
  function DigitsValue(s: string): nat
    requires AllDigits(s)
    decreases |s|
  {
    if s == [] then 0 else DigitsValue(s[..|s| - 1]) * 10 + (s[|s| - 1] as int - '0' as int)
  }

  /** int(s) for an unsigned decimal literal; None for anything else. */
  function ParseDecimal(s: string): Option<nat> {
    if s != [] && AllDigits(s) then Some(DigitsValue(s)) else None
  }

  /** Decimal formatting is inverted by decimal parsing. */
  lemma {:induction false} NatToStringRoundTrip(n: nat)
    ensures ParseDecimal(NatToString(n)) == Some(n)
    ensures DigitsValue(NatToString(n)) == n
    decreases n
  {
    var s := NatToString(n);
    if n >= 10 {
      NatToStringRoundTrip(n / 10);
      assert s[..|s| - 1] == NatToString(n / 10);
      assert DigitsValue(s) == (n / 10) * 10 + n % 10;
    } else {
      assert s[..|s| - 1] == [];
    }
  }

  /** f"{n:02d}": at least two digits, padded on the left with '0'. */
  function Pad2(n: nat): (r: string)
    ensures AllDigits(r)
    ensures n < 100 ==> |r| == 2
  {
    if n < 10 then "0" + NatToString(n) else NatToString(n)
  }

  /** A zero-padded field reads back as the number it was made from. */
  lemma {:induction false} Pad2RoundTrip(n: nat)
    ensures ParseDecimal(Pad2(n)) == Some(n)
  {
    NatToStringRoundTrip(n);
    if n < 10 {
      var s := Pad2(n);
      assert s[..|s| - 1] == "0";
      assert DigitsValue("0") == 0;
    }
  }
}
