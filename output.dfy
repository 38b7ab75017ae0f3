/**
 * format_output: the Markdown post for one saint. The post is a list of lines
 * joined by "\n": the heading, then an icon, a troparion and a kontakion
 * section for each of those that is non-empty, then the hashtags.
 */
module Output {
  import opened Wrappers
  import opened Text
  import opened Calendar
  import opened Site

  /** The section titles; each holds two U+1F3B6 (multiple musical notes) signs. */
  const TROPARION_LABEL: string := "\U{1F3B6}troparion\U{1F3B6}"
  const KONTAKION_LABEL: string := "\U{1F3B6}kontakion\U{1F3B6}"

  /** The day as the heading shows it: two-digit day, a space, the English month name ("07 January"). */
  function DayString(day: Date): (s: string)
    requires ValidDate(day)
    ensures |s| > 3 && s[2] == ' '
  {
    Pad2(day.day) + " " + MonthName(day.month)
  }

  /** Reads a DayString back into its day and month numbers. */
  function ParseDayString(s: string): (r: Option<(nat, nat)>)
    ensures r.Some? ==> 1 <= r.value.1 <= 12
  {
    if |s| < 3 || s[2] != ' ' then None
    else match (ParseDecimal(s[..2]), MonthNumber(s[3..]))
      case (Some(d), Some(m)) => Some((d, m))
      case _ => None
  }

  /** The day and the month can be read back from the heading's day text. */
  lemma DayStringRoundTrip(day: Date)
    requires ValidDate(day)
    ensures ParseDayString(DayString(day)) == Some((day.day, day.month))
  {
    var s := DayString(day);
    assert s[..2] == Pad2(day.day);
    assert s[3..] == MonthName(day.month);
    Pad2RoundTrip(day.day);
    MonthNameRoundTrip(day.month);
  }

  /** `## [name - DD Month](life URL)`: a Markdown heading linking to the saint's life. */
  function HeadingLine(name: string, slug: string, day: Date): (line: string)
    requires ValidDate(day)
    ensures StartsWith(line, "## [" + name + " - ")
    ensures EndsWith(line, "](" + BASE_URL + slug + ")")
    ensures |line| == |"## [" + name + " - "| + 3 + |MonthName(day.month)| + |"](" + BASE_URL + slug + ")"|
    ensures line[|"## [" + name + " - "|..|line| - |"](" + BASE_URL + slug + ")"|] == DayString(day)
  {
    var head := "## [" + name + " - ";
    var tail := "](" + BASE_URL + slug + ")";
    var dayText := DayString(day);
    var line := head + dayText + tail;
    assert line[..|head|] == head;
    assert line[|line| - |tail|..] == tail;
    assert line[|head|..|line| - |tail|] == dayText;
    line
  }

  /** `![name](icon)`: the Markdown image of the icon. */
  function IconLine(name: string, icon: string): (line: string)
    ensures StartsWith(line, "![" + name + "](")
    ensures EndsWith(line, icon + ")")
    ensures |line| == |"![" + name + "]("| + |icon| + 1
  {
    var head := "![" + name + "](";
    var line := head + icon + ")";
    assert line[..|head|] == head;
    assert line[|line| - |icon + ")"|..] == icon + ")";
    line
  }

  /** What a post shows: its heading line, its icon line if any, and the hymn texts ("" when absent). */
  datatype PostFields = PostFields(heading: string, iconLine: Option<string>, troparion: string, kontakion: string)

  function IconSection(iconLine: Option<string>): seq<string> {
    if iconLine.Some? then [iconLine.value, ""] else []
  }

  function HymnSection(title: string, text: string): seq<string> {
    if text != "" then [title, "", text, ""] else []
  }

  /** The lines of a post, in the order the formatter emits them. */
  function Sections(f: PostFields): (lines: seq<string>)
    ensures |lines| >= 3 && lines[0] == f.heading && lines[1] == "" && lines[|lines| - 1] == TAGS
  {
    [f.heading, ""] + IconSection(f.iconLine) + HymnSection(TROPARION_LABEL, f.troparion)
      + HymnSection(KONTAKION_LABEL, f.kontakion) + [TAGS]
  }

  /** The fields format_output puts in the post of a saint. */
  function FieldsOf(name: string, slug: string, icon: string, troparion: string, kontakion: string, day: Date): PostFields
    requires ValidDate(day)
  {
    PostFields(HeadingLine(name, slug, day), if icon != "" then Some(IconLine(name, icon)) else None, troparion, kontakion)
  }

  function PostLines(name: string, slug: string, icon: string, troparion: string, kontakion: string, day: Date): seq<string>
    requires ValidDate(day)
  {
    Sections(FieldsOf(name, slug, icon, troparion, kontakion, day))
  }

  lemma HeadingLineText(name: string, slug: string, day: Date)
    requires ValidDate(day)
    ensures HeadingLine(name, slug, day)
      == "## [" + name + " - " + (Pad2(day.day) + " " + MonthName(day.month)) + "](" + (BASE_URL + slug) + ")"
  {
    var h, d := "## [" + name + " - ", Pad2(day.day) + " " + MonthName(day.month);
    assert "](" + (BASE_URL + slug) == "](" + BASE_URL + slug;
    assert h + d + "](" + (BASE_URL + slug) + ")" == h + d + ("](" + BASE_URL + slug + ")");
  }

  /** format_output: builds the line list step by step and joins it with "\n". */
  method FormatOutput(name: string, slug: string, icon: string, troparion: string, kontakion: string, day: Date)
    returns (post: string)
    requires ValidDate(day)
    ensures post == Join("\n", PostLines(name, slug, icon, troparion, kontakion, day))
  {
    var lifeUrl := BASE_URL + slug;
    var dayStr := Pad2(day.day) + " " + MonthName(day.month);
    var lines := ["## [" + name + " - " + dayStr + "](" + lifeUrl + ")", ""];
    if icon != "" {
      lines := lines + ["![" + name + "](" + icon + ")", ""];
    }
    if troparion != "" {
      lines := lines + [TROPARION_LABEL, "", troparion, ""];
    }
    if kontakion != "" {
      lines := lines + [KONTAKION_LABEL, "", kontakion, ""];
    }
    lines := lines + [TAGS];
    HeadingLineText(name, slug, day);
    assert lines == PostLines(name, slug, icon, troparion, kontakion, day);
    post := Join("\n", lines);
  }

  /** A section of a hymn under `title` with non-empty text. */
  predicate IsHymnSection(s: seq<string>, title: string) {
    |s| == 4 && s[0] == title && s[1] == "" && s[2] != "" && s[3] == ""
  }

  /** The troparion and kontakion texts of the hymn sections, if the lines are such sections. */
  function ParseHymns(rest: seq<string>): Option<(string, string)> {
    if rest == [] then Some(("", ""))
    else if IsHymnSection(rest, TROPARION_LABEL) then Some((rest[2], ""))
    else if IsHymnSection(rest, KONTAKION_LABEL) then Some(("", rest[2]))
    else if |rest| == 8 && IsHymnSection(rest[..4], TROPARION_LABEL) && IsHymnSection(rest[4..], KONTAKION_LABEL) then
      Some((rest[2], rest[6]))
    else None
  }

  /**
   * Reads the fields back from the lines of a post. The icon section is the
   * only one of two lines, so the count of the lines between the heading and
   * the tags tells whether it is there; the labels tell the hymns apart.
   */
  function ParseSections(lines: seq<string>): (r: Option<PostFields>)
    ensures r.Some? ==> |lines| >= 3 && r.value.heading == lines[0]
  {
    if |lines| < 3 || lines[1] != "" || lines[|lines| - 1] != TAGS then None
    else ParseBody(lines[0], lines[2..|lines| - 1])
  }

  /** The fields of a post with the given heading, from the lines between the heading's blank line and the tags. */
  function ParseBody(heading: string, body: seq<string>): (r: Option<PostFields>)
    ensures r.Some? ==> r.value.heading == heading
  {
    if |body| % 4 == 2 then
      if body[1] != "" then None
      else match ParseHymns(body[2..])
        case Some((t, k)) => Some(PostFields(heading, Some(body[0]), t, k))
        case None => None
    else match ParseHymns(body)
      case Some((t, k)) => Some(PostFields(heading, None, t, k))
      case None => None
  }

  lemma LabelsDiffer()
    ensures TROPARION_LABEL != KONTAKION_LABEL
  {
    assert TROPARION_LABEL[1] != KONTAKION_LABEL[1];
  }

  lemma ParseHymnsRoundTrip(t: string, k: string)
    ensures ParseHymns(HymnSection(TROPARION_LABEL, t) + HymnSection(KONTAKION_LABEL, k)) == Some((t, k))
  {
    LabelsDiffer();
    var rest := HymnSection(TROPARION_LABEL, t) + HymnSection(KONTAKION_LABEL, k);
    if t != "" && k != "" {
      assert rest[..4] == HymnSection(TROPARION_LABEL, t);
      assert rest[4..] == HymnSection(KONTAKION_LABEL, k);
    }
  }

  lemma ParseBodyRoundTrip(f: PostFields)
    ensures ParseBody(f.heading, IconSection(f.iconLine) + HymnSection(TROPARION_LABEL, f.troparion)
      + HymnSection(KONTAKION_LABEL, f.kontakion)) == Some(f)
  {
    var hymns := HymnSection(TROPARION_LABEL, f.troparion) + HymnSection(KONTAKION_LABEL, f.kontakion);
    var body := IconSection(f.iconLine) + hymns;
    assert body == IconSection(f.iconLine) + HymnSection(TROPARION_LABEL, f.troparion)
      + HymnSection(KONTAKION_LABEL, f.kontakion);
    assert |hymns| == 0 || |hymns| == 4 || |hymns| == 8;
    ParseHymnsRoundTrip(f.troparion, f.kontakion);
    if f.iconLine.Some? {
      assert body == [f.iconLine.value, ""] + hymns;
      assert |body| % 4 == 2 && body[1] == "";
      assert body[2..] == hymns;
    } else {
      assert body == hymns;
      assert |body| % 4 == 0;
    }
  }

  /** Parsing the lines of a post gives back its fields. */
  lemma ParseSectionsRoundTrip(f: PostFields)
    ensures ParseSections(Sections(f)) == Some(f)
  {
    var lines := Sections(f);
    var body := IconSection(f.iconLine) + HymnSection(TROPARION_LABEL, f.troparion)
      + HymnSection(KONTAKION_LABEL, f.kontakion);
    assert lines == [f.heading, ""] + body + [TAGS];
    assert lines[2..|lines| - 1] == body;
    ParseBodyRoundTrip(f);
  }

  lemma ParseHymnsSound(rest: seq<string>)
    requires ParseHymns(rest).Some?
    ensures var (t, k) := ParseHymns(rest).value;
      HymnSection(TROPARION_LABEL, t) + HymnSection(KONTAKION_LABEL, k) == rest
  {
    LabelsDiffer();
    if |rest| == 8 && !IsHymnSection(rest, TROPARION_LABEL) && !IsHymnSection(rest, KONTAKION_LABEL) {
      assert rest == rest[..4] + rest[4..];
    }
  }

  lemma ParseBodySound(heading: string, body: seq<string>)
    requires ParseBody(heading, body).Some?
    ensures var f := ParseBody(heading, body).value;
      IconSection(f.iconLine) + HymnSection(TROPARION_LABEL, f.troparion) + HymnSection(KONTAKION_LABEL, f.kontakion) == body
  {
    if |body| % 4 == 2 {
      ParseHymnsSound(body[2..]);
      assert body == [body[0], ""] + body[2..];
    } else {
      ParseHymnsSound(body);
    }
  }

  /** Lines that parse are exactly the lines of the post with the parsed fields. */
  lemma ParseSectionsSound(lines: seq<string>)
    requires ParseSections(lines).Some?
    ensures Sections(ParseSections(lines).value) == lines
  {
    var body := lines[2..|lines| - 1];
    var f := ParseSections(lines).value;
    assert f == ParseBody(lines[0], body).value;
    ParseBodySound(lines[0], body);
    var i, t, k := IconSection(f.iconLine), HymnSection(TROPARION_LABEL, f.troparion), HymnSection(KONTAKION_LABEL, f.kontakion);
    assert i + t + k == body;
    calc {
      Sections(f);
      [f.heading, ""] + i + t + k + [TAGS];
      { assert [f.heading, ""] + i + t + k == [f.heading, ""] + (i + t + k); }
      [lines[0], ""] + body + [TAGS];
      lines;
    }
  }

  /**
   * In the post of a saint the icon section is there exactly when the icon URL
   * is non-empty, and the hymn sections hold exactly the troparion and the
   * kontakion given, each there exactly when its text is non-empty.
   */
  lemma PostSections(name: string, slug: string, icon: string, troparion: string, kontakion: string, day: Date)
    requires ValidDate(day)
    ensures var f := ParseSections(PostLines(name, slug, icon, troparion, kontakion, day));
      f.Some? && f.value.heading == HeadingLine(name, slug, day) &&
      (f.value.iconLine.Some? <==> icon != "") &&
      (icon != "" ==> f.value.iconLine == Some(IconLine(name, icon))) &&
      f.value.troparion == troparion && f.value.kontakion == kontakion
  {
    ParseSectionsRoundTrip(FieldsOf(name, slug, icon, troparion, kontakion, day));
  }

  /** The post opens with the heading and a blank line. */
  lemma PostStart(name: string, slug: string, icon: string, troparion: string, kontakion: string, day: Date)
    requires ValidDate(day)
    ensures StartsWith(Join("\n", PostLines(name, slug, icon, troparion, kontakion, day)), HeadingLine(name, slug, day) + "\n\n")
  {
    var lines := PostLines(name, slug, icon, troparion, kontakion, day);
    var opening := HeadingLine(name, slug, day) + "\n\n";
    var rest := Join("\n", lines[2..]);
    calc {
      Join("\n", lines);
      { JoinSplitFirst("\n", lines); }
      lines[0] + ("\n" + Join("\n", lines[1..]));
      { JoinSplitFirst("\n", lines[1..]); assert lines[1..][1..] == lines[2..]; }
      lines[0] + ("\n" + ("" + ("\n" + rest)));
      opening + rest;
    }
    assert (opening + rest)[..|opening|] == opening;
  }

  /** The post ends with the tags, after a line break, and not with a line break. */
  lemma PostEnd(name: string, slug: string, icon: string, troparion: string, kontakion: string, day: Date)
    requires ValidDate(day)
    ensures var post := Join("\n", PostLines(name, slug, icon, troparion, kontakion, day));
      EndsWith(post, "\n" + TAGS) && post[|post| - 1] != '\n'
  {
    var lines := PostLines(name, slug, icon, troparion, kontakion, day);
    var front := lines[..|lines| - 1];
    assert lines == front + [TAGS];
    var post := Join("\n", front) + "\n" + TAGS;
    JoinAppend("\n", front, TAGS);
    assert post[|post| - |"\n" + TAGS|..] == "\n" + TAGS;
    assert post[|post| - 1] == TAGS[|TAGS| - 1];
  }
}
