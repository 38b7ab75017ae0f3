/**
 * The day's listing page: its URL, and what the bot keeps of each saint
 * <article> on it (get_all_saints and parse_saint_article). The HTML lookups
 * are not modelled; an article arrives as the strings they would return.
 */
module Listing {
  import opened Wrappers
  import opened Text
  import opened Calendar
  import opened Site

  // ---------------------------------------------------------------- names

  /** Whitespace appears only as single plain spaces. */
  predicate SingleSpaced(s: string) {
    forall i :: 0 <= i < |s| && IsSpace(s[i]) ==> s[i] == ' ' && (i + 1 == |s| || !IsSpace(s[i + 1]))
  }

  /** The only whitespace character is the plain space. */
  predicate PlainSpaces(s: string) {
    forall i :: 0 <= i < |s| && IsSpace(s[i]) ==> s[i] == ' '
  }

  // re.sub(r"\s+", " ", s) as a left-to-right scan: `inRun` is set while the
  // scan is inside a whitespace run whose single space is already emitted.
  function Collapse(s: string, inRun: bool): (r: string)
    ensures SingleSpaced(r)
    ensures inRun ==> r == [] || !IsSpace(r[0])
    decreases |s|
  {
    if s == [] then []
    else if IsSpace(s[0]) then
      if inRun then Collapse(s[1..], true) else " " + Collapse(s[1..], true)
    else [s[0]] + Collapse(s[1..], false)
  }

  /** re.sub(r"\s+", " ", s). */
  function CollapseSpaces(s: string): (r: string)
    ensures SingleSpaced(r)
  {
    Collapse(s, false)
  }

  /** The characters of `s` that are not whitespace, in order. */
  function DropSpaces(s: string): (r: string)
    decreases |s|
  {
    if s == [] then [] else (if IsSpace(s[0]) then [] else [s[0]]) + DropSpaces(s[1..])
  }

  lemma DropSpacesCons(c: char, s: string)
    ensures DropSpaces([c] + s) == (if IsSpace(c) then [] else [c]) + DropSpaces(s)
  {
    assert ([c] + s)[1..] == s;
  }

  /** Collapsing changes whitespace only: every other character survives, in order. */
  lemma {:induction false} CollapseKeepsText(s: string, inRun: bool)
    ensures DropSpaces(Collapse(s, inRun)) == DropSpaces(s)
    decreases |s|
  {
    if s != [] {
      var c, rest := s[0], s[1..];
      CollapseKeepsText(rest, IsSpace(c));
      if IsSpace(c) && !inRun {
        DropSpacesCons(' ', Collapse(rest, true));
      } else if !IsSpace(c) {
        DropSpacesCons(c, Collapse(rest, false));
      }
    }
  }

  /** Text that is already single-spaced is left alone. */
  lemma {:induction false} CollapseSingleSpaced(s: string, inRun: bool)
    requires SingleSpaced(s)
    requires inRun ==> s == [] || !IsSpace(s[0])
    ensures Collapse(s, inRun) == s
    decreases |s|
  {
    if s != [] {
      var rest := s[1..];
      assert SingleSpaced(rest) by {
        forall i | 0 <= i < |rest| && IsSpace(rest[i])
          ensures rest[i] == ' ' && (i + 1 == |rest| || !IsSpace(rest[i + 1]))
        {
          assert rest[i] == s[i + 1];
        }
      }
      CollapseSingleSpaced(rest, IsSpace(s[0]));
    }
  }

  /** Collapsing twice is collapsing once. */
  lemma CollapseSpacesIdempotent(s: string)
    ensures CollapseSpaces(CollapseSpaces(s)) == CollapseSpaces(s)
  {
    CollapseSingleSpaced(CollapseSpaces(s), false);
  }

  // re.sub(r"<!--.*?-->", "", s): where the shortest comment opened at the front
  // of `s` ends. The lazy `.*?` first tries to close at `j`; only when "-->" is
  // not there does it take one more character, and `.` does not take "\n".
  function CommentEnd(s: string, j: nat): (e: Option<nat>)
    requires j <= |s|
    ensures e.Some? ==> j + 3 <= e.value <= |s|
    decreases |s| - j
  {
    if j + 3 > |s| then None
    else if s[j..j + 3] == "-->" then Some(j + 3)
    else if s[j] == '\n' then None
    else CommentEnd(s, j + 1)
  }

  predicate OpensComment(s: string) {
    |s| >= 4 && s[..4] == "<!--" && CommentEnd(s, 4).Some?
  }

  /** re.sub(r"<!--.*?-->", "", s): each complete comment, scanned left to right, is removed. */
  function StripComments(s: string): (r: string)
    ensures |r| <= |s|
    ensures PlainSpaces(s) ==> PlainSpaces(r)
    decreases |s|
  {
    if s == [] then []
    else if OpensComment(s) then
      var e := CommentEnd(s, 4).value;
      assert PlainSpaces(s) ==> PlainSpaces(s[e..]) by {
        forall i | 0 <= i < |s[e..]|
          ensures s[e..][i] == s[e + i]
        {
        }
      }
      StripComments(s[e..])
    else
      assert PlainSpaces(s) ==> PlainSpaces(s[1..]) by {
        forall i | 0 <= i < |s[1..]|
          ensures s[1..][i] == s[i + 1]
        {
        }
      }
      [s[0]] + StripComments(s[1..])
  }

  /** Text in which no comment can open is left as it is. */
  lemma {:induction false} StripCommentsPrefix(a: string, b: string)
    requires '<' !in a
    ensures StripComments(a + b) == a + StripComments(b)
    decreases |a|
  {
    if a != [] {
      var s := a + b;
      assert s[0] == a[0] && s[1..] == a[1..] + b;
      assert !OpensComment(s) by {
        assert |s| >= 4 ==> s[..4][0] == a[0];
      }
      StripCommentsPrefix(a[1..], b);
      assert a == [a[0]] + a[1..];
    } else {
      assert a + b == b;
    }
  }

  /** A string without "<" has no comment to remove. */
  lemma StripCommentsNone(s: string)
    requires '<' !in s
    ensures StripComments(s) == s
  {
    StripCommentsPrefix(s, []);
    assert s + [] == s;
  }

  /** A comment whose inside holds no "-" and no line break is removed whole, with nothing else. */
  lemma StripCommentsComment(inside: string, b: string)
    requires '-' !in inside && '\n' !in inside
    ensures StripComments("<!--" + inside + "-->" + b) == StripComments(b)
  {
    var s := "<!--" + inside + "-->" + b;
    var e := 4 + |inside| + 3;
    assert s[..4] == "<!--";
    CommentEndScan(s, inside, b, 0);
    assert s[e..] == b;
    StripCommentsAt(s, e);
  }

  lemma StripCommentsAt(s: string, e: nat)
    requires |s| >= 4 && s[..4] == "<!--" && CommentEnd(s, 4) == Some(e)
    ensures e <= |s| && StripComments(s) == StripComments(s[e..])
  {
  }

  lemma {:induction false} CommentEndScan(s: string, inside: string, b: string, k: nat)
    requires s == "<!--" + inside + "-->" + b
    requires '-' !in inside && '\n' !in inside
    requires k <= |inside|
    ensures CommentEnd(s, 4 + k) == Some(4 + |inside| + 3)
    decreases |inside| - k
  {
    if k < |inside| {
      assert s[4 + k] == inside[k];
      assert s[4 + k..4 + k + 3][0] == inside[k];
      CommentEndScan(s, inside, b, k + 1);
    } else {
      assert s[4 + k..4 + k + 3] == "-->";
    }
  }

  /**
   * The saint's name from the heading text: whitespace runs collapsed to one
   * space, then comments removed, then the ends trimmed. A missing heading
   * gives the empty name.
   */
  function NormalizeName(heading: Option<string>): (name: string)
    ensures heading.None? ==> name == ""
    ensures Stripped(name)
    ensures PlainSpaces(name)
  {
    var collapsed := if heading.Some? then CollapseSpaces(heading.value) else "";
    var uncommented := StripComments(collapsed);
    var name := Strip(uncommented);
    StripKeepsPlainSpaces(uncommented);
    name
  }

  lemma StripKeepsPlainSpaces(s: string)
    requires PlainSpaces(s)
    ensures PlainSpaces(Strip(s))
  {
    var a, b := StripSlice(s);
    var t := s[a..b];
    forall i | 0 <= i < |t| && IsSpace(t[i])
      ensures t[i] == ' '
    {
      assert t[i] == s[a + i];
    }
  }

  /** Without comments, the name is the heading's words separated by single spaces. */
  lemma NameWithoutComments(h: string)
    requires '<' !in h
    ensures NormalizeName(Some(h)) == Strip(CollapseSpaces(h))
    ensures SingleSpaced(NormalizeName(Some(h)))
  {
    var c := CollapseSpaces(h);
    assert '<' !in c by {
      CollapseNoNewChars(h, false);
    }
    StripCommentsNone(c);
    var a, b := StripSlice(c);
    SingleSpacedSlice(c, a, b);
  }

  lemma SingleSpacedSlice(s: string, a: nat, b: nat)
    requires a <= b <= |s| && SingleSpaced(s)
    ensures SingleSpaced(s[a..b])
  {
    var t := s[a..b];
    forall i | 0 <= i < |t| && IsSpace(t[i])
      ensures t[i] == ' ' && (i + 1 == |t| || !IsSpace(t[i + 1]))
    {
      assert t[i] == s[a + i];
      assert i + 1 < |t| ==> t[i + 1] == s[a + i + 1];
    }
  }

  /** Collapsing brings in no character other than the space. */
  lemma {:induction false} CollapseNoNewChars(s: string, inRun: bool)
    ensures forall c :: c in Collapse(s, inRun) ==> c == ' ' || c in s
    decreases |s|
  {
    if s != [] {
      CollapseNoNewChars(s[1..], IsSpace(s[0]));
      assert forall c :: c in s[1..] ==> c in s;
    }
  }

  /** A phrase: words separated by single spaces, no whitespace at either end, no "<". */
  predicate Phrase(p: string) {
    p != [] && SingleSpaced(p) && Stripped(p) && '<' !in p
  }

  /** What a comment may hold in the two name lemmas below: no "-", no whitespace. */
  predicate CommentBody(inside: string) {
    '-' !in inside && forall i :: 0 <= i < |inside| ==> !IsSpace(inside[i])
  }

  /** A single-spaced prefix ending in a non-space character is copied by the collapse. */
  lemma {:induction false} CollapsePrefix(a: string, rest: string, inRun: bool)
    requires a != [] && SingleSpaced(a) && !IsSpace(a[|a| - 1])
    requires inRun ==> !IsSpace(a[0])
    ensures Collapse(a + rest, inRun) == a + Collapse(rest, false)
    decreases |a|
  {
    var s := a + rest;
    assert s[0] == a[0] && s[1..] == a[1..] + rest;
    if |a| == 1 {
      assert a[1..] + rest == rest;
    } else {
      assert SingleSpaced(a[1..]) by {
        forall i | 0 <= i < |a[1..]| && IsSpace(a[1..][i])
          ensures a[1..][i] == ' ' && (i + 1 == |a[1..]| || !IsSpace(a[1..][i + 1]))
        {
          assert a[1..][i] == a[i + 1];
        }
      }
      CollapsePrefix(a[1..], rest, IsSpace(a[0]));
      assert a == [a[0]] + a[1..];
    }
  }

  /** A run of whitespace up to a non-space character (or the end) becomes exactly one space. */
  lemma CollapseRun(w: string, rest: string)
    requires w != [] && SpaceRun(w)
    requires rest == [] || !IsSpace(rest[0])
    ensures Collapse(w + rest, false) == " " + Collapse(rest, false)
  {
    assert (w + rest)[1..] == w[1..] + rest;
    CollapseInRun(w[1..], rest);
  }

  /** Inside a run, further whitespace adds nothing. */
  lemma {:induction false} CollapseInRun(w: string, rest: string)
    requires SpaceRun(w)
    requires rest == [] || !IsSpace(rest[0])
    ensures Collapse(w + rest, true) == Collapse(rest, false)
    decreases |w|
  {
    if w == [] {
      assert w + rest == rest;
    } else {
      assert (w + rest)[1..] == w[1..] + rest;
      CollapseInRun(w[1..], rest);
    }
  }

  lemma CommentSingleSpaced(inside: string)
    requires CommentBody(inside)
    ensures var c := "<!--" + inside + "-->"; SingleSpaced(c) && !IsSpace(c[0]) && !IsSpace(c[|c| - 1])
  {
    var c := "<!--" + inside + "-->";
    forall i | 0 <= i < |c|
      ensures !IsSpace(c[i])
    {
      if 4 <= i < 4 + |inside| {
        assert c[i] == inside[i - 4];
      }
    }
  }

  /**
   * Comment removal comes after whitespace collapsing, so the spaces on both
   * sides of a comment both stay: "a <!--x--> b" gives "a  b".
   */
  lemma NameCommentBetweenSpaces(p: string, inside: string, q: string)
    requires Phrase(p) && Phrase(q) && CommentBody(inside)
    ensures NormalizeName(Some(p + " " + ("<!--" + inside + "-->") + " " + q)) == p + "  " + q
  {
    var h := p + " " + ("<!--" + inside + "-->") + " " + q;
    CollapseBetweenSpaces(p, inside, q);
    StripBetweenSpaces(p, inside, q);
    NameFromParts(h, p + "  " + q);
  }

  lemma CollapseBetweenSpaces(p: string, inside: string, q: string)
    requires Phrase(p) && Phrase(q) && CommentBody(inside)
    ensures var h := p + " " + ("<!--" + inside + "-->") + " " + q; CollapseSpaces(h) == h
  {
    var c := "<!--" + inside + "-->";
    var r1 := " " + q;
    var r2 := c + r1;
    var r3 := " " + r2;
    assert p + " " + c + " " + q == p + r3;
    assert SingleSpaced(c) && !IsSpace(c[|c| - 1]) && r2[0] == '<' by {
      CommentSingleSpaced(inside);
    }
    calc {
      Collapse(p + r3, false);
    == { CollapsePrefix(p, r3, false); }
      p + Collapse(r3, false);
    == { CollapseRun(" ", r2); }
      p + (" " + Collapse(r2, false));
    == { CollapsePrefix(c, r1, false); }
      p + (" " + (c + Collapse(r1, false)));
    == { CollapseRun(" ", q); }
      p + (" " + (c + (" " + Collapse(q, false))));
    == { CollapsePhrase(q); }
      p + r3;
    }
  }

  lemma CollapsePhrase(q: string)
    requires Phrase(q)
    ensures Collapse(q, false) == q
  {
    CollapseSingleSpaced(q, false);
  }


  lemma StripBetweenSpaces(p: string, inside: string, q: string)
    requires Phrase(p) && Phrase(q) && CommentBody(inside)
    ensures StripComments(p + " " + ("<!--" + inside + "-->") + " " + q) == p + "  " + q
  {
    var c := "<!--" + inside + "-->";
    var a := p + " ";
    var r1 := " " + q;
    assert p + " " + c + " " + q == a + ("<!--" + inside + "-->" + r1);
    assert '<' !in a;
    calc {
      StripComments(a + ("<!--" + inside + "-->" + r1));
    == { StripCommentsPrefix(a, "<!--" + inside + "-->" + r1); }
      a + StripComments("<!--" + inside + "-->" + r1);
    == { StripCommentsComment(inside, r1); }
      a + StripComments(r1);
    == { StripCommentsNone(r1); }
      a + r1;
    }
    assert a + r1 == p + "  " + q;
  }


  /** A heading that collapsing leaves alone and whose comments leave a trimmed name gives that name. */
  lemma NameFromParts(h: string, name: string)
    requires CollapseSpaces(h) == h && StripComments(h) == name && Stripped(name)
    ensures NormalizeName(Some(h)) == name
  {
  }

  /** A comment glued to the next word leaves the space before it: "Holy Apostle <!--12345-->John" gives "Holy Apostle John". */
  lemma NameCommentGlued(p: string, inside: string, q: string)
    requires Phrase(p) && Phrase(q) && CommentBody(inside)
    ensures NormalizeName(Some(p + " " + ("<!--" + inside + "-->") + q)) == p + " " + q
  {
    var h := p + " " + ("<!--" + inside + "-->") + q;
    CollapseGlued(p, inside, q);
    StripGlued(p, inside, q);
    NameFromParts(h, p + " " + q);
  }

  lemma CollapseGlued(p: string, inside: string, q: string)
    requires Phrase(p) && Phrase(q) && CommentBody(inside)
    ensures var h := p + " " + ("<!--" + inside + "-->") + q; CollapseSpaces(h) == h
  {
    var c := "<!--" + inside + "-->";
    var r2 := c + q;
    var r3 := " " + r2;
    assert p + " " + c + q == p + r3;
    assert SingleSpaced(c) && !IsSpace(c[|c| - 1]) && r2[0] == '<' by {
      CommentSingleSpaced(inside);
    }
    calc {
      Collapse(p + r3, false);
    == { CollapsePrefix(p, r3, false); }
      p + Collapse(r3, false);
    == { CollapseRun(" ", r2); }
      p + (" " + Collapse(r2, false));
    == { CollapsePrefix(c, q, false); }
      p + (" " + (c + Collapse(q, false)));
    == { CollapsePhrase(q); }
      p + r3;
    }
  }


  lemma StripGlued(p: string, inside: string, q: string)
    requires Phrase(p) && Phrase(q) && CommentBody(inside)
    ensures StripComments(p + " " + ("<!--" + inside + "-->") + q) == p + " " + q
  {
    var a := p + " ";
    assert p + " " + ("<!--" + inside + "-->") + q == a + ("<!--" + inside + "-->" + q);
    assert '<' !in a;
    calc {
      StripComments(a + ("<!--" + inside + "-->" + q));
    == { StripCommentsPrefix(a, "<!--" + inside + "-->" + q); }
      a + StripComments("<!--" + inside + "-->" + q);
    == { StripCommentsComment(inside, q); }
      a + StripComments(q);
    == { StripCommentsNone(q); }
      a + q;
    }
  }


  // ---------------------------------------------------------------- icons

  // Length of a match of "/icons/(xsm|sm|md)/" at the front of `s`, 0 when none.
  function SizeMatch(s: string): (n: nat)
    ensures n == 0 || n == 10 || n == 11
    ensures n > 0 ==> n <= |s| && s[0] == '/' && s[1] == 'i'
    ensures n > 0 ==> StartsWith(s, "/icons/") && (s[7] == 'x' || s[7] == 's' || s[7] == 'm')
  {
    if StartsWith(s, "/icons/xsm/") then
      assert s[..7] == s[..11][..7] && s[7] == s[..11][7];
      11
    else if StartsWith(s, "/icons/sm/") || StartsWith(s, "/icons/md/") then
      assert s[..7] == s[..10][..7] && s[7] == s[..10][7];
      10
    else 0
  }

  /** re.sub(r"/icons/(xsm|sm|md)/", "/icons/lg/", s). */
  function UpgradeSizes(s: string): (r: string)
    ensures r == [] <==> s == []
    ensures r != [] ==> r[0] == s[0]
    decreases |s|
  {
    if s == [] then []
    else if SizeMatch(s) > 0 then "/icons/lg/" + UpgradeSizes(s[SizeMatch(s)..])
    else [s[0]] + UpgradeSizes(s[1..])
  }

  /** Text in which no size segment starts is copied as it is, and the scan goes on with what follows it. */
  lemma {:induction false} UpgradeSizesPrefix(a: string, b: string)
    requires forall i :: 0 <= i < |a| ==> SizeMatch((a + b)[i..]) == 0
    ensures UpgradeSizes(a + b) == a + UpgradeSizes(b)
    decreases |a|
  {
    if a != [] {
      var s := a + b;
      assert s[0..] == s;
      assert s[0] == a[0] && s[1..] == a[1..] + b;
      forall i | 0 <= i < |a[1..]|
        ensures SizeMatch((a[1..] + b)[i..]) == 0
      {
        assert (a[1..] + b)[i..] == s[i + 1..];
      }
      UpgradeSizesPrefix(a[1..], b);
      assert a == [a[0]] + a[1..];
    } else {
      assert a + b == b;
    }
  }

  /** A source without "/" has no size segment. */
  lemma UpgradeSizesNone(s: string)
    requires '/' !in s
    ensures UpgradeSizes(s) == s
  {
    assert s + [] == s;
    forall i | 0 <= i < |s|
      ensures SizeMatch((s + [])[i..]) == 0
    {
      assert s[i] in s;
    }
    UpgradeSizesPrefix(s, []);
  }

  /**
   * In `x + "//" + host + b`, with no "/" in `x` or in `host` and `b` opening
   * with "/i", no size segment starts before `b`.
   */
  lemma NoSizeBeforePath(x: string, host: string, b: string)
    requires '/' !in x && '/' !in host && StartsWith(b, "/i")
    ensures var s := x + "//" + host + b; forall i :: 0 <= i < |x| + 2 + |host| ==> SizeMatch(s[i..]) == 0
  {
    var s := x + "//" + host + b;
    forall i | 0 <= i < |x| + 2 + |host|
      ensures SizeMatch(s[i..]) == 0
    {
      var t := s[i..];
      if i < |x| {
        assert t[0] == x[i] && x[i] in x;
      } else if i == |x| {
        assert t[1] == '/';
      } else if i == |x| + 1 {
        HostNoSize(host, b, t);
      } else {
        assert t[0] == host[i - |x| - 2] && host[i - |x| - 2] in host;
      }
    }
  }

  lemma HostNoSize(host: string, b: string, t: string)
    requires '/' !in host && StartsWith(b, "/i")
    requires t == "/" + host + b
    ensures SizeMatch(t) == 0
  {
    var p := "/icons/";
    if |host| >= 6 {
      assert t[6] == host[5] && host[5] in host;
      assert !StartsWith(t, p) by { assert |t| >= 7 ==> t[..7][6] == t[6]; }
    } else if |host| == 5 {
      assert t[7] == b[1];
    } else {
      assert t[|host| + 1] == b[0];
      assert !StartsWith(t, p) by { assert |t| >= 7 ==> t[..7][|host| + 1] == t[|host| + 1]; }
    }
  }

  /** A size segment at the front becomes the large one, and the scan goes on after it. */
  lemma UpgradeSizesSegment(seg: string, rest: string)
    requires seg == "/icons/xsm/" || seg == "/icons/sm/" || seg == "/icons/md/"
    ensures UpgradeSizes(seg + rest) == "/icons/lg/" + UpgradeSizes(rest)
  {
    var s := seg + rest;
    assert s[..|seg|] == seg;
    assert s[|seg|..] == rest;
    assert s[7] == seg[7];
    if seg == "/icons/xsm/" {
      assert StartsWith(s, "/icons/xsm/");
    } else if seg == "/icons/sm/" {
      assert !StartsWith(s, "/icons/xsm/") by { assert s[7] == 's'; }
      assert StartsWith(s, "/icons/sm/");
    } else {
      assert !StartsWith(s, "/icons/xsm/") by { assert s[7] == 'm'; }
      assert StartsWith(s, "/icons/md/");
    }
  }

  /** The upgrade keeps any "/"-free prefix, and brings in none that was not there. */
  lemma {:induction false} UpgradeStartsLike(src: string, p: string)
    requires '/' !in p
    ensures StartsWith(UpgradeSizes(src), p) <==> StartsWith(src, p)
    decreases |p|
  {
    if p != [] && src != [] {
      var u := UpgradeSizes(src);
      if SizeMatch(src) > 0 {
        assert u[0] == '/';
        assert !StartsWith(u, p) by { assert |u| >= |p| ==> u[..|p|][0] == '/'; }
        assert !StartsWith(src, p) by { assert |src| >= |p| ==> src[..|p|][0] == '/'; }
      } else {
        var tail := UpgradeSizes(src[1..]);
        assert u == [src[0]] + tail;
        UpgradeStartsLike(src[1..], p[1..]);
        assert StartsWith(u, p) <==> u[0] == p[0] && StartsWith(tail, p[1..]) by {
          if |u| >= |p| {
            assert u[..|p|] == [u[0]] + tail[..|p| - 1];
            assert p == [p[0]] + p[1..];
          }
        }
        assert StartsWith(src, p) <==> src[0] == p[0] && StartsWith(src[1..], p[1..]) by {
          if |src| >= |p| {
            assert src[..|p|] == [src[0]] + src[1..][..|p| - 1];
            assert p == [p[0]] + p[1..];
          }
        }
      }
    }
  }

  /** The upgraded source starts with "//" exactly when the source does. */
  lemma UpgradeDoubleSlash(src: string)
    ensures StartsWith(UpgradeSizes(src), "//") <==> StartsWith(src, "//")
  {
    if src != [] {
      var u := UpgradeSizes(src);
      if SizeMatch(src) > 0 {
        assert u[..2] == "/i";
        assert src[..2] == "/i";
      } else if |src| >= 2 {
        var tail := UpgradeSizes(src[1..]);
        assert u == [src[0]] + tail;
        assert u[..2] == [src[0], tail[0]];
        assert src[..2] == [src[0], src[1]];
      }
    }
  }

  const IMAGE_HOST: string := "https://images.oca.org"

  /**
   * The icon URL from the thumbnail's `src`: size segments upgraded to the
   * large one, then made absolute. A missing or empty `src` gives "".
   */
  function NormalizeIcon(src: Option<string>): (url: string)
    ensures url == "" <==> src.None? || src.value == ""
    ensures url != "" ==> StartsWith(url, "http") && EndsWith(url, UpgradeSizes(src.value))
  {
    if src.None? || src.value == "" then ""
    else
      var u := UpgradeSizes(src.value);
      var url := if StartsWith(u, "http") then u else if StartsWith(u, "//") then "https:" + u else IMAGE_HOST + u;
      assert EndsWith(url, u) by {
        assert url[|url| - |u|..] == u;
      }
      assert StartsWith(url, "http") by {
        if !StartsWith(u, "http") {
          assert url[..4] == "http";
        }
      }
      url
  }

  /** An absolute source keeps its scheme; only the size segments change. */
  lemma IconAlreadyAbsolute(src: string)
    requires StartsWith(src, "http")
    ensures NormalizeIcon(Some(src)) == UpgradeSizes(src)
  {
    UpgradeStartsLike(src, "http");
  }

  /** A protocol-relative source gets "https:" in front. */
  lemma IconProtocolRelative(src: string)
    requires StartsWith(src, "//")
    ensures NormalizeIcon(Some(src)) == "https:" + UpgradeSizes(src)
  {
    UpgradeDoubleSlash(src);
    var u := UpgradeSizes(src);
    assert !StartsWith(u, "http") by { assert u[0] == '/'; }
  }

  /** Any other non-empty source is a path on the image host. */
  lemma IconHostRelative(src: string)
    requires src != [] && !StartsWith(src, "http") && !StartsWith(src, "//")
    ensures NormalizeIcon(Some(src)) == IMAGE_HOST + UpgradeSizes(src)
  {
    UpgradeStartsLike(src, "http");
    UpgradeDoubleSlash(src);
  }

  /**
   * A protocol-relative thumbnail on any host: "https:" is put in front and
   * the size segment after the host becomes "/icons/lg/".
   */
  lemma IconProtocolRelativeOnHost(host: string, seg: string, rest: string)
    requires '/' !in host
    requires seg == "/icons/xsm/" || seg == "/icons/sm/" || seg == "/icons/md/"
    ensures NormalizeIcon(Some("//" + host + seg + rest)) == "https://" + host + "/icons/lg/" + UpgradeSizes(rest)
  {
    var src := "//" + host + seg + rest;
    var u := UpgradeSizes(rest);
    assert NormalizeIcon(Some(src)) == "https:" + UpgradeSizes(src) by {
      StartsWithPrefix("//", host + seg + rest);
      IconProtocolRelative(src);
    }
    assert UpgradeSizes(src) == "//" + host + "/icons/lg/" + u by {
      UpgradeOnHost("//", host, seg, rest);
    }
    HttpsInFront(host, u);
  }

  /** An absolute thumbnail URL on any host keeps its host; its size segment becomes "/icons/lg/". */
  lemma IconAbsoluteOnHost(host: string, seg: string, rest: string)
    requires '/' !in host
    requires seg == "/icons/xsm/" || seg == "/icons/sm/" || seg == "/icons/md/"
    ensures NormalizeIcon(Some("https://" + host + seg + rest)) == "https://" + host + "/icons/lg/" + UpgradeSizes(rest)
  {
    var src := "https://" + host + seg + rest;
    assert NormalizeIcon(Some(src)) == UpgradeSizes(src) by {
      StartsWithPrefix("http", "s://" + host + seg + rest);
      assert "http" + ("s://" + host + seg + rest) == src;
      IconAlreadyAbsolute(src);
    }
    assert UpgradeSizes(src) == "https://" + host + "/icons/lg/" + UpgradeSizes(rest) by {
      UpgradeOnHost("https://", host, seg, rest);
    }
  }

  lemma StartsWithPrefix(p: string, s: string)
    ensures StartsWith(p + s, p)
  {
    assert (p + s)[..|p|] == p;
  }

  lemma HttpsInFront(host: string, u: string)
    ensures "https:" + ("//" + host + "/icons/lg/" + u) == "https://" + host + "/icons/lg/" + u
  {
    assert "https:" + ("//" + host) == "https://" + host;
  }

  lemma SchemeHostNoSize(scheme: string, host: string, seg: string, rest: string)
    requires scheme == "//" || scheme == "https://"
    requires '/' !in host
    requires seg == "/icons/xsm/" || seg == "/icons/sm/" || seg == "/icons/md/"
    ensures forall i :: 0 <= i < |scheme + host| ==> SizeMatch((scheme + host + (seg + rest))[i..]) == 0
  {
    var x := if scheme == "//" then "" else "https:";
    assert '/' !in x && scheme == x + "//";
    assert StartsWith(seg + rest, "/i") by { assert (seg + rest)[..2] == seg[..2]; }
    NoSizeBeforePath(x, host, seg + rest);
  }

  lemma UpgradeOnHost(scheme: string, host: string, seg: string, rest: string)
    requires scheme == "//" || scheme == "https://"
    requires '/' !in host
    requires seg == "/icons/xsm/" || seg == "/icons/sm/" || seg == "/icons/md/"
    ensures UpgradeSizes(scheme + host + seg + rest) == scheme + host + "/icons/lg/" + UpgradeSizes(rest)
  {
    var a := scheme + host;
    SchemeHostNoSize(scheme, host, seg, rest);
    calc {
      UpgradeSizes(a + seg + rest);
    == { assert a + seg + rest == a + (seg + rest); }
      UpgradeSizes(a + (seg + rest));
    == { UpgradeSizesPrefix(a, seg + rest); }
      a + UpgradeSizes(seg + rest);
    == { UpgradeSizesSegment(seg, rest); }
      a + ("/icons/lg/" + UpgradeSizes(rest));
      a + "/icons/lg/" + UpgradeSizes(rest);
    }
  }

  /**
   * A protocol-relative thumbnail naming its file right after the size
   * segment, such as "//images.example.org/icons/sm/foo.jpg", becomes
   * "https://images.example.org/icons/lg/foo.jpg".
   */
  lemma IconProtocolRelativeFile(host: string, file: string)
    requires '/' !in host && '/' !in file
    ensures NormalizeIcon(Some("//" + host + "/icons/sm/" + file)) == "https://" + host + "/icons/lg/" + file
  {
    UpgradeSizesNone(file);
    IconProtocolRelativeOnHost(host, "/icons/sm/", file);
  }

  // ---------------------------------------------------------------- articles

  /**
   * A saint <article> on the listing page, as the lookups see it: the text of
   * its name heading, the href of its life link, the src of its thumbnail
   * image; None where the element or attribute is missing.
   */
  datatype SaintArticle = SaintArticle(heading: Option<string>, lifeLink: Option<string>, imageSrc: Option<string>)

  /** (saint_name, slug_path, icon_url). */
  datatype SaintEntry = SaintEntry(name: string, slug: string, icon: string)

  /** parse_saint_article. */
  function ParseSaintArticle(a: SaintArticle): (e: SaintEntry)
    ensures a.heading.None? ==> e.name == ""
    ensures Stripped(e.name)
    ensures a.lifeLink.None? ==> e.slug == ""
    ensures a.lifeLink.Some? ==> e.slug == a.lifeLink.value
    ensures e.icon == "" <==> a.imageSrc.None? || a.imageSrc.value == ""
    ensures e.icon != "" ==> StartsWith(e.icon, "http")
  {
    SaintEntry(NormalizeName(a.heading), a.lifeLink.GetOr(""), NormalizeIcon(a.imageSrc))
  }

  // ---------------------------------------------------------------- listing

  const LIVES_PATH: string := "/saints/lives/"

  function ListingPrefix(): string {
    BASE_URL + LIVES_PATH
  }

  /** The listing page of a day: year as is, month and day as two digits. */
  function ListingUrl(d: Date): (url: string)
    requires ValidDate(d)
    ensures StartsWith(url, ListingPrefix())
    ensures |url| == |ListingPrefix()| + |NatToString(d.year)| + 6
  {
    var url := ListingPrefix() + NatToString(d.year) + "/" + Pad2(d.month) + "/" + Pad2(d.day);
    assert url[..|ListingPrefix()|] == ListingPrefix();
    url
  }

  /** Reads a listing URL back into its date; None when it is not one. */
  function ParseListingUrl(url: string): (d: Option<Date>) {
    if !StartsWith(url, ListingPrefix()) then None
    else
      var parts := SplitOn(url[|ListingPrefix()|..], '/');
      if |parts| != 3 then None
      else match (ParseDecimal(parts[0]), ParseDecimal(parts[1]), ParseDecimal(parts[2]))
        case (Some(y), Some(m), Some(day)) => Some(Date(y, m, day))
        case _ => None
  }

  /** The listing URL names its day unambiguously. */
  lemma ListingUrlRoundTrip(d: Date)
    requires ValidDate(d)
    ensures ParseListingUrl(ListingUrl(d)) == Some(d)
  {
    var y, m, day := NatToString(d.year), Pad2(d.month), Pad2(d.day);
    var tail := y + "/" + m + "/" + day;
    ListingUrlTail(d);
    SplitDateFields(y, m, day);
    NatToStringRoundTrip(d.year);
    Pad2RoundTrip(d.month);
    Pad2RoundTrip(d.day);
  }

  lemma ListingUrlTail(d: Date)
    requires ValidDate(d)
    ensures var url := ListingUrl(d);
      url[|ListingPrefix()|..] == NatToString(d.year) + "/" + Pad2(d.month) + "/" + Pad2(d.day)
  {
    var tail := NatToString(d.year) + "/" + Pad2(d.month) + "/" + Pad2(d.day);
    assert ListingUrl(d) == ListingPrefix() + tail;
  }

  lemma SplitDateFields(y: string, m: string, day: string)
    requires AllDigits(y) && AllDigits(m) && AllDigits(day)
    ensures SplitOn(y + "/" + m + "/" + day, '/') == [y, m, day]
  {
    NoSlashInDigits(y);
    NoSlashInDigits(m);
    NoSlashInDigits(day);
    assert y + "/" + m + "/" + day == y + ['/'] + (m + ['/'] + day);
    SplitOnFirst(y, '/', m + ['/'] + day);
    SplitOnFirst(m, '/', day);
    SplitOnWithout(day, '/');
  }

  lemma NoSlashInDigits(s: string)
    requires AllDigits(s)
    ensures '/' !in s
  {
  }

  /** Different days have different listing pages. */
  lemma ListingUrlInjective(d1: Date, d2: Date)
    requires ValidDate(d1) && ValidDate(d2)
    requires ListingUrl(d1) == ListingUrl(d2)
    ensures d1 == d2
  {
    ListingUrlRoundTrip(d1);
    ListingUrlRoundTrip(d2);
  }

  datatype ListingError = NoSaintFound(url: string)

  /**
   * get_all_saints: every saint article of the day's listing, parsed in page
   * order; a listing without saint articles is an error naming the URL.
   */
  function GetAllSaints(d: Date, articles: seq<SaintArticle>): (r: Result<seq<SaintEntry>, ListingError>)
    requires ValidDate(d)
    ensures r.Failure? <==> articles == []
    ensures r.Failure? ==> r.error == NoSaintFound(ListingUrl(d))
    ensures r.Success? ==> |r.value| == |articles|
    ensures r.Success? ==> forall i :: 0 <= i < |articles| ==> r.value[i] == ParseSaintArticle(articles[i])
  {
    if articles == [] then Failure(NoSaintFound(ListingUrl(d)))
    else Success(seq(|articles|, i requires 0 <= i < |articles| => ParseSaintArticle(articles[i])))
  }
}
