/**
 * clean_chant_text: the hymn bodies on the troparia page mark a new poetic
 * line with "/"; the cleaner turns each marker into a line break, right-trims
 * every line and trims the whole block.
 */
module Chant {
  import opened Text

  // re.sub(r"\s*/\s*", "\n", s), as a left-to-right scan. A match can start only
  // where the whitespace run beginning there is followed by "/", and it goes on
  // over the whitespace after the "/". So whitespace is held back in `held` until
  // the next other character shows whether it belongs to a match: a "/" drops it
  // and emits "\n", anything else emits it unchanged. After a "/", `skip`
  // swallows the whitespace that follows.
  function Scan(s: string, held: string, skip: bool): (r: string)
    requires '/' !in held
    ensures '/' !in r
    decreases |s|
  {
    if s == [] then held
    else if IsSpace(s[0]) then
      if skip then Scan(s[1..], held, true) else Scan(s[1..], held + [s[0]], false)
    else if s[0] == '/' then "\n" + Scan(s[1..], [], true)
    else held + [s[0]] + Scan(s[1..], [], false)
  }

  /** The first step of clean_chant_text: every "/" marker, with the whitespace around it, becomes one "\n". */
  function BreakAtSlashes(s: string): (r: string)
    ensures '/' !in r
  {
    Scan(s, [], false)
  }

  /** line.rstrip() for every line. */
  function TrimLines(lines: seq<string>): (r: seq<string>)
    ensures |r| == |lines|
    ensures forall i :: 0 <= i < |r| ==> r[i] == RStrip(lines[i])
    decreases |lines|
  {
    if lines == [] then [] else [RStrip(lines[0])] + TrimLines(lines[1..])
  }

  /** No line ends in whitespace: what comes before each "\n" is another "\n" or not whitespace. */
  predicate LinesTrimmed(s: string) {
    forall k :: 0 < k < |s| && s[k] == '\n' ==> s[k - 1] == '\n' || !IsSpace(s[k - 1])
  }

  /** The shape of a cleaned chant: what clean_chant_text returns, and all it returns. */
  predicate IsCleanChant(s: string) {
    '/' !in s && OnlyNewlines(s) && Stripped(s) && LinesTrimmed(s)
  }

  /** clean_chant_text(text). */
  function CleanChantText(text: string): (r: string)
    ensures '/' !in r
    ensures OnlyNewlines(r)
    ensures Stripped(r)
    ensures LinesTrimmed(r)
  {
    var broken := BreakAtSlashes(text);
    var split := SplitLines(broken);
    SplitLinesShape(broken);
    SlashFreeLines(split, broken);
    TrimmedLinesShape(split);
    var lines := TrimLines(split);
    JoinedLinesShape(lines);
    var joined := Join("\n", lines);
    StrippedSliceShape(joined);
    Strip(joined)
  }

  /** Lines cut from a text without "/" hold no "/". */
  lemma SlashFreeLines(lines: seq<string>, source: string)
    requires '/' !in source
    requires forall i :: 0 <= i < |lines| ==> CharsIn(lines[i], source)
    ensures forall i :: 0 <= i < |lines| ==> '/' !in lines[i]
  {
    forall i | 0 <= i < |lines|
      ensures '/' !in lines[i]
    {
      assert CharsIn(lines[i], source);
    }
  }

  /** Right-trimming keeps lines free of breaks and of "/", and leaves no trailing whitespace. */
  lemma TrimmedLinesShape(lines: seq<string>)
    requires forall i :: 0 <= i < |lines| ==> NoLineBreak(lines[i]) && '/' !in lines[i]
    ensures var t := TrimLines(lines);
      && (forall i :: 0 <= i < |t| ==> NoLineBreak(t[i]) && '/' !in t[i])
      && (forall i :: 0 <= i < |t| ==> t[i] == [] || !IsSpace(t[i][|t[i]| - 1]))
  {
    var t := TrimLines(lines);
    forall i | 0 <= i < |t|
      ensures NoLineBreak(t[i]) && '/' !in t[i]
      ensures t[i] == [] || !IsSpace(t[i][|t[i]| - 1])
    {
      RStripShape(lines[i]);
    }
  }

  lemma RStripShape(line: string)
    requires NoLineBreak(line) && '/' !in line
    ensures NoLineBreak(RStrip(line)) && '/' !in RStrip(line)
  {
    var r := RStrip(line);
    assert forall k :: 0 <= k < |r| ==> r[k] == line[k];
    SliceChars(line, 0, |r|);
  }

  /** Joining break-free, right-trimmed lines with "\n" gives a block whose lines are trimmed. */
  lemma {:induction false} JoinedLinesShape(lines: seq<string>)
    requires forall i :: 0 <= i < |lines| ==> NoLineBreak(lines[i]) && '/' !in lines[i]
    requires forall i :: 0 <= i < |lines| ==> lines[i] == [] || !IsSpace(lines[i][|lines[i]| - 1])
    ensures var j := Join("\n", lines); '/' !in j && OnlyNewlines(j) && LinesTrimmed(j)
    decreases |lines|
  {
    if |lines| > 1 {
      var rest := lines[1..];
      JoinedLinesShape(rest);
      JoinPrepend("\n", lines[0], rest);
      var a, tail := lines[0], Join("\n", rest);
      var j := a + "\n" + tail;
      assert [a] + rest == lines;
      assert '/' !in a && NoLineBreak(a);
      assert '/' !in j;
      assert OnlyNewlines(j) by {
        forall k | 0 <= k < |j| && IsLineBreak(j[k])
          ensures j[k] == '\n'
        {
          if k > |a| {
            assert j[k] == tail[k - |a| - 1];
          }
        }
      }
      assert LinesTrimmed(j) by {
        forall k | 0 < k < |j| && j[k] == '\n'
          ensures j[k - 1] == '\n' || !IsSpace(j[k - 1])
        {
          if k == |a| {
            assert j[k - 1] == a[|a| - 1];
          } else if k > |a| + 1 {
            assert j[k] == tail[k - |a| - 1] && j[k - 1] == tail[k - |a| - 2];
          }
        }
      }
    }
  }

  /** The line-shape properties hold of every slice of a string that has them. */
  lemma SliceShape(s: string, a: nat, b: nat)
    requires a <= b <= |s|
    ensures '/' !in s ==> '/' !in s[a..b]
    ensures OnlyNewlines(s) ==> OnlyNewlines(s[a..b])
    ensures LinesTrimmed(s) ==> LinesTrimmed(s[a..b])
  {
    var t := s[a..b];
    assert forall k :: 0 <= k < |t| ==> t[k] == s[a + k];
    SliceChars(s, a, b);
  }

  /** The line-shape properties survive str.strip(). */
  lemma StrippedSliceShape(s: string)
    ensures '/' !in s ==> '/' !in Strip(s)
    ensures OnlyNewlines(s) ==> OnlyNewlines(Strip(s))
    ensures LinesTrimmed(s) ==> LinesTrimmed(Strip(s))
  {
    var a, b := StripSlice(s);
    SliceShape(s, a, b);
  }

  lemma {:induction false} ScanWithoutSlash(s: string, held: string)
    requires '/' !in s && '/' !in held
    ensures Scan(s, held, false) == held + s
    decreases |s|
  {
    if s != [] {
      var c, rest := s[0], s[1..];
      assert s == [c] + rest;
      if IsSpace(c) {
        ScanWithoutSlash(rest, held + [c]);
      } else {
        ScanWithoutSlash(rest, []);
        assert [] + rest == rest;
      }
    }
  }

  /** Text without "/" passes through the marker step unchanged. */
  lemma BreakAtSlashesWithoutSlash(s: string)
    requires '/' !in s
    ensures BreakAtSlashes(s) == s
  {
    ScanWithoutSlash(s, []);
    assert [] + s == s;
  }

  /** Splitting a cleaned block into lines, right-trimming them and joining them back changes nothing. */
  lemma {:induction false} RejoinTrimmedLines(y: string)
    requires OnlyNewlines(y) && LinesTrimmed(y)
    requires y == [] || !IsSpace(y[|y| - 1])
    ensures Join("\n", TrimLines(SplitLines(y))) == y
    decreases |y|
  {
    if y != [] {
      var i := FirstBreak(y);
      if i == |y| {
        assert SplitLines(y) == [y];
      } else {
        assert y[i] == '\n' && i < |y| - 1;
        var rest := y[i + 1..];
        assert OnlyNewlines(rest) && LinesTrimmed(rest) && !IsSpace(rest[|rest| - 1]) by {
          SliceShape(y, i + 1, |y|);
        }
        RejoinTrimmedLines(rest);
        assert i > 0 ==> !IsLineBreak(y[i - 1]);
        RejoinFirstLine(y, i);
      }
    }
  }

  /** One step of RejoinTrimmedLines: the first line comes back in front of the rest. */
  lemma RejoinFirstLine(y: string, i: nat)
    requires i == FirstBreak(y) && i < |y| - 1 && y[i] == '\n'
    requires i == 0 || !IsSpace(y[i - 1])
    requires Join("\n", TrimLines(SplitLines(y[i + 1..]))) == y[i + 1..]
    ensures Join("\n", TrimLines(SplitLines(y))) == y
  {
    var line, rest := y[..i], y[i + 1..];
    var lines := SplitLines(rest);
    SplitAtNewline(y, i);
    TrimLinesCons(line, lines);
    assert RStrip(line) == line;
    JoinPrepend("\n", line, TrimLines(lines));
    CutAtNewline(y, i);
  }

  lemma TrimLinesCons(line: string, lines: seq<string>)
    ensures TrimLines([line] + lines) == [RStrip(line)] + TrimLines(lines)
  {
    assert ([line] + lines)[1..] == lines;
  }

  /** A block already in the cleaned shape is left as it is. */
  lemma CleanChantTextKeepsClean(y: string)
    requires IsCleanChant(y)
    ensures CleanChantText(y) == y
  {
    BreakAtSlashesWithoutSlash(y);
    RejoinTrimmedLines(y);
  }

  /** Cleaning is idempotent. */
  lemma CleanChantTextIdempotent(text: string)
    ensures CleanChantText(CleanChantText(text)) == CleanChantText(text)
  {
    CleanChantTextKeepsClean(CleanChantText(text));
  }

  /** Text that holds no "/" and ends in a non-space character is emitted as it stands, after what was held back. */
  lemma {:induction false} ScanPrefix(a: string, s: string, held: string)
    requires '/' !in a && '/' !in held
    requires a != [] && !IsSpace(a[|a| - 1])
    ensures Scan(a + s, held, false) == held + a + Scan(s, [], false)
    decreases |a|
  {
    var x, c, rest := a + s, a[0], a[1..];
    assert x[0] == c && x[1..] == rest + s;
    if IsSpace(c) {
      calc {
        Scan(x, held, false);
      ==
        Scan(rest + s, held + [c], false);
      == { ScanPrefix(rest, s, held + [c]); }
        held + [c] + rest + Scan(s, [], false);
      == { assert [c] + rest == a; }
        held + a + Scan(s, [], false);
      }
    } else if rest == [] {
      calc {
        Scan(x, held, false);
      ==
        held + [c] + Scan(rest + s, [], false);
      == { assert rest + s == s && [c] == a; }
        held + a + Scan(s, [], false);
      }
    } else {
      calc {
        Scan(x, held, false);
      ==
        held + [c] + Scan(rest + s, [], false);
      == { ScanPrefix(rest, s, []); assert [] + rest == rest; }
        held + [c] + (rest + Scan(s, [], false));
      == { assert [c] + rest == a; }
        held + a + Scan(s, [], false);
      }
    }
  }

  /** Text that holds no "/" and ends in a non-space character passes through unchanged. */
  lemma BreakAtSlashesPrefix(a: string, s: string)
    requires '/' !in a
    requires a == [] || !IsSpace(a[|a| - 1])
    ensures BreakAtSlashes(a + s) == a + BreakAtSlashes(s)
  {
    if a == [] {
      assert a + s == s && a + BreakAtSlashes(s) == BreakAtSlashes(s);
    } else {
      ScanPrefix(a, s, []);
      assert [] + a == a;
    }
  }

  /** Whitespace that is not followed by "/" yet is held back. */
  lemma {:induction false} ScanHoldSpaces(w: string, s: string, held: string)
    requires SpaceRun(w) && '/' !in held
    ensures '/' !in held + w
    ensures Scan(w + s, held, false) == Scan(s, held + w, false)
    decreases |w|
  {
    assert forall i :: 0 <= i < |w| ==> w[i] != '/';
    if w == [] {
      assert w + s == s && held + w == held;
    } else {
      assert (w + s)[0] == w[0] && (w + s)[1..] == w[1..] + s;
      ScanHoldSpaces(w[1..], s, held + [w[0]]);
      assert held + [w[0]] + w[1..] == held + w;
    }
  }

  /** After a "/", the whitespace that follows is swallowed. */
  lemma {:induction false} ScanSkipSpaces(w: string, s: string)
    requires SpaceRun(w)
    ensures Scan(w + s, [], true) == Scan(s, [], true)
    decreases |w|
  {
    if w == [] {
      assert w + s == s;
    } else {
      assert (w + s)[0] == w[0] && (w + s)[1..] == w[1..] + s;
      ScanSkipSpaces(w[1..], s);
    }
  }

  /**
   * A marker "/" with any whitespace on either side becomes exactly one line
   * break, when what follows does not start with whitespace.
   */
  lemma BreakAtSlashesMarker(w1: string, w2: string, s: string)
    requires SpaceRun(w1) && SpaceRun(w2)
    requires s == [] || !IsSpace(s[0])
    ensures BreakAtSlashes(w1 + "/" + w2 + s) == "\n" + BreakAtSlashes(s)
  {
    var x := "/" + (w2 + s);
    assert x[0] == '/' && x[1..] == w2 + s;
    calc {
      Scan(w1 + "/" + w2 + s, [], false);
    == { assert w1 + "/" + w2 + s == w1 + x; }
      Scan(w1 + x, [], false);
    == { ScanHoldSpaces(w1, x, []); }
      Scan(x, [] + w1, false);
      "\n" + Scan(w2 + s, [], true);
    == { ScanSkipSpaces(w2, s); }
      "\n" + Scan(s, [], true);
      "\n" + Scan(s, [], false);
    }
  }

  /** A line of a cleaned chant: not empty, trimmed, and free of "/" and of line breaks. */
  predicate CleanLine(line: string) {
    line != [] && '/' !in line && NoLineBreak(line) && Stripped(line)
  }

  /** Whitespace on both sides of every marker. */
  predicate SpaceGaps(gaps: seq<(string, string)>) {
    forall i :: 0 <= i < |gaps| ==> SpaceRun(gaps[i].0) && SpaceRun(gaps[i].1)
  }

  /** The lines with a "/" marker between each two, `gaps[i]` being the whitespace around the i-th marker. */
  function Marked(lines: seq<string>, gaps: seq<(string, string)>): (r: string)
    requires |lines| > 0 && |gaps| == |lines| - 1
    ensures StartsWith(r, lines[0])
    decreases |lines|
  {
    if |lines| == 1 then lines[0]
    else
      var r := lines[0] + (gaps[0].0 + "/" + gaps[0].1 + Marked(lines[1..], gaps[1..]));
      assert r[..|lines[0]|] == lines[0];
      r
  }

  /** Clean lines separated by "/" markers, whitespace around them or not, come apart into the same lines joined with "\n". */
  lemma {:induction false} BreakAtSlashesMarkedLines(lines: seq<string>, gaps: seq<(string, string)>)
    requires |lines| > 0 && |gaps| == |lines| - 1
    requires forall i :: 0 <= i < |lines| ==> CleanLine(lines[i])
    requires SpaceGaps(gaps)
    ensures BreakAtSlashes(Marked(lines, gaps)) == Join("\n", lines)
    decreases |lines|
  {
    if |lines| == 1 {
      BreakAtSlashesWithoutSlash(lines[0]);
    } else {
      var a, rest := lines[0], lines[1..];
      var w1, w2 := gaps[0].0, gaps[0].1;
      var m := Marked(rest, gaps[1..]);
      assert CleanLine(a);
      assert BreakAtSlashes(a + (w1 + "/" + w2 + m)) == a + BreakAtSlashes(w1 + "/" + w2 + m) by {
        BreakAtSlashesPrefix(a, w1 + "/" + w2 + m);
      }
      assert BreakAtSlashes(w1 + "/" + w2 + m) == "\n" + BreakAtSlashes(m) by {
        assert CleanLine(rest[0]);
        assert m[0] == m[..|rest[0]|][0] == rest[0][0];
        BreakAtSlashesMarker(w1, w2, m);
      }
      assert BreakAtSlashes(m) == Join("\n", rest) by {
        assert SpaceGaps(gaps[1..]) by {
          forall i | 0 <= i < |gaps[1..]|
            ensures SpaceRun(gaps[1..][i].0) && SpaceRun(gaps[1..][i].1)
          {
            assert gaps[1..][i] == gaps[i + 1];
          }
        }
        BreakAtSlashesMarkedLines(rest, gaps[1..]);
      }
      assert Join("\n", lines) == a + ("\n" + Join("\n", rest)) by {
        JoinSplitFirst("\n", lines);
      }
    }
  }

  /** Joined clean lines already have the cleaned shape. */
  lemma JoinedCleanLines(lines: seq<string>)
    requires |lines| > 0
    requires forall i :: 0 <= i < |lines| ==> CleanLine(lines[i])
    ensures IsCleanChant(Join("\n", lines))
  {
    JoinedLinesShape(lines);
    JoinEnds("\n", lines);
  }

  /** Cleaning text whose lines are separated by "/" markers gives those lines, one per row. */
  lemma CleanChantTextMarkedLines(lines: seq<string>, gaps: seq<(string, string)>)
    requires |lines| > 0 && |gaps| == |lines| - 1
    requires forall i :: 0 <= i < |lines| ==> CleanLine(lines[i])
    requires SpaceGaps(gaps)
    ensures CleanChantText(Marked(lines, gaps)) == Join("\n", lines)
  {
    var y := Join("\n", lines);
    assert BreakAtSlashes(Marked(lines, gaps)) == BreakAtSlashes(y) by {
      BreakAtSlashesMarkedLines(lines, gaps);
      assert '/' !in y by { JoinedCleanLines(lines); }
      BreakAtSlashesWithoutSlash(y);
    }
    assert CleanChantText(y) == y by {
      JoinedCleanLines(lines);
      CleanChantTextKeepsClean(y);
    }
  }

  /** The marker example: three lines separated by " / " come out as three lines. */
  lemma CleanChantTextExample()
    ensures CleanChantText("Line one / Line two / Line three") == "Line one\nLine two\nLine three"
  {
    var lines, gaps := ExampleLines(), [(" ", " "), (" ", " ")];
    assert SpaceGaps(gaps) by {
      assert IsSpace(' ');
    }
    ExampleMarked(lines, gaps);
    ExampleBroken(lines);
    CleanChantTextMarkedLines(lines, gaps);
  }

  function ExampleLines(): (lines: seq<string>)
    ensures |lines| > 0
    ensures forall i :: 0 <= i < |lines| ==> CleanLine(lines[i])
  {
    var lines := ["Line one", "Line two", "Line three"];
    assert CleanLine(lines[0]) && CleanLine(lines[1]) && CleanLine(lines[2]);
    lines
  }

  lemma ExampleMarked(lines: seq<string>, gaps: seq<(string, string)>)
    requires lines == ExampleLines() && gaps == [(" ", " "), (" ", " ")]
    ensures Marked(lines, gaps) == "Line one / Line two / Line three"
  {
    var sep := " " + "/" + " ";
    assert sep == " / ";
    assert gaps[0] == (" ", " ") && gaps[1..][0] == (" ", " ");
    assert Marked(lines[1..][1..], gaps[1..][1..]) == "Line three" by {
      assert lines[1..][1..] == ["Line three"];
    }
    var m1 := "Line two" + (" / " + "Line three");
    assert Marked(lines[1..], gaps[1..]) == m1;
    assert Marked(lines, gaps) == "Line one" + (" / " + m1);
    ExampleMarkedText();
  }

  lemma ExampleMarkedText()
    ensures "Line one" + (" / " + ("Line two" + (" / " + "Line three"))) == "Line one / Line two / Line three"
  {
  }

  lemma ExampleBroken(lines: seq<string>)
    requires lines == ExampleLines()
    ensures Join("\n", lines) == "Line one\nLine two\nLine three"
  {
    assert Join("\n", lines[2..]) == "Line three";
    assert Join("\n", lines[1..]) == "Line two" + "\n" + "Line three";
  }
}
