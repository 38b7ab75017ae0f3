# daily_saint_bot in Dafny

A model of the string-processing core of `bot.py`, the script that turns the
saint of the day on oca.org into a Markdown post. The model covers:

- the listing URL of a day;
- the cleaning of a saint's name and icon URL, and the parse of one saint
  `<article>` of the listing;
- the hymn-page URL, the chant-text cleaner and the loop that picks the
  troparion and the kontakion;
- the post formatter;
- the choice of the top or a random saint, and the run from listing to post.

The HTML pages are not parsed here. A saint article arrives as three optional
strings: the heading text, the life link and the icon `src`. A hymn article
arrives as an optional heading and an optional first paragraph.

Modules, one per file:

| module | file | what it holds |
|---|---|---|
| `Wrappers` | wrappers.dfy | `Option` and `Result` |
| `Site` | site.dfy | `BASE_URL` and the hashtag line `TAGS` |
| `Text` | text.dfy | the Python string operations the script uses |
| `Calendar` | calendar.dfy | dates and the English month names |
| `Chant` | chant.dfy | `clean_chant_text` |
| `Listing` | listing.dfy | names, icons, `parse_saint_article`, `get_all_saints` |
| `Hymns` | hymns.dfy | `get_troparia` |
| `Output` | output.dfy | `format_output` |
| `Driver` | driver.dfy | the saint choice and the flow of `main` |

The `Text` operations follow Python:

- `\s` and `str.strip` use the characters `str.isspace` accepts (`Text.IsSpace`).
- `str.splitlines` splits at every line boundary Python knows, with `"\r\n"` as one boundary.
- `re.sub` replaces non-overlapping matches from left to right.

Choices made in the model:

- `re.sub(r"\s*/\s*", "\n", text)` is a left-to-right scan, `Chant.Scan`. It drops whitespace after a slash and holds back whitespace before one.
- `<!--.*?-->` is lazy, and its `.` does not match `"\n"` (`Listing.CommentEnd`).
- The loop in `get_troparia` is the method `Hymns.PickHymns`. It is proved against the first-match search functions `FirstTroparion` and `FirstKontakion`. These work over a per-article view `HymnView`: which hymn names the heading holds, and the cleaned text.
- `format_output` is the method `Output.FormatOutput`. It builds the line list as the script does. It is proved against `PostLines`.
- A parser, `ParseSections`, reads a post's fields back from those lines. This gives the presence and order of the sections.

Comments inside a name heading are handled in two steps, and the result
depends on what reaches the regular expressions. Take the heading
`Holy Apostle <!--12345-->John`:

- If the HTML parser reads the comment as a comment node, `get_text(strip=True)`
  skips it and glues the stripped text pieces around it. The text is then
  `Holy ApostleJohn` before any regular expression runs. That gluing is not
  modelled.
- If the comment reaches the regular expressions as literal text (an escaped
  comment, for instance), bot.py:29-30 collapse whitespace before removing the
  comment. The space before the comment stays, and the result is
  `Holy Apostle John`. The model covers this case, in
  `Listing.NameCommentGlued`.

## Model

| member | source | states |
|---|---|---|
| Text.Lower | bot.py:82 | same length; each ASCII capital becomes its small letter, every other character is kept |
| Text.RStrip | bot.py:64 | `str.rstrip`: the result is a prefix, only whitespace was cut, and it does not end in whitespace |
| Text.Strip | bot.py:65 | `str.strip`: no whitespace at either end, no new characters, and stripped text is unchanged (completed by StripSlice) |
| Text.StripSlice | bot.py:65 | `str.strip` keeps one slice `s[a..b]` of its argument, and everything outside the slice is whitespace |
| Text.SplitLines | bot.py:64 | `str.splitlines` gives no line exactly for the empty text |
| Text.SplitLinesShape | bot.py:64 | `str.splitlines`: no line holds a line boundary, every character of a line comes from the text, and with `"\n"` as the only boundary and no final one, joining the lines with `"\n"` gives the text back |
| Text.SplitLinesRejoin | bot.py:64 | `"\n".join(s.splitlines())` is `s` when `"\n"` is the only boundary and `s` does not end in one |
| Text.JoinSplitLines | bot.py:64 | lines without boundaries, the last non-empty, joined with `"\n"` split back into the same lines |
| Text.JoinAppend | bot.py:112-114 | `sep.join(xs + [y])` is `sep.join(xs) + sep + y` |
| Text.JoinPrepend | bot.py:64 | `sep.join([x] + xs)` is `x + sep + sep.join(xs)` |
| Text.ReplaceAll | bot.py:70 | `str.replace` keeps the length when the replacement is as long as the pattern, and never shortens when it is longer |
| Text.ReplaceAllPrefix | bot.py:70 | text in which no occurrence of the pattern starts is copied, and the replacing goes on after it |
| Text.ReplaceAllAbsent | bot.py:70 | `str.replace` leaves a text without the pattern unchanged |
| Text.ReplaceAllAtStart | bot.py:70 | `str.replace` turns a leading occurrence into the replacement and goes on after it |
| Text.NatToString | bot.py:48 | `{day.year}`: decimal digits, one digit exactly below 10, no leading zero |
| Text.Pad2 | bot.py:48 | `{:02d}`: decimal digits, exactly two of them below 100 |
| Text.Pad2RoundTrip | bot.py:48 | a two-digit field reads back as its number |
| Text.NatToStringRoundTrip | bot.py:48 | the decimal year reads back as its number |
| Calendar.DaysInMonth | bot.py:46 | 28 to 31 days; 28 exactly for February of a common year, 29 exactly for February of a leap year, 30 exactly for April, June, September and November |
| Calendar.MonthName | bot.py:96 | `%B` is one of the twelve English month names, capitalised |
| Calendar.MonthNumber | bot.py:96 | a name read back gives a month 1..12 |
| Calendar.MonthNamesDistinct | bot.py:96 | no two months share a name |
| Calendar.MonthNameRoundTrip | bot.py:96 | the month name gives back its month |
| Chant.BreakAtSlashes | bot.py:62 | no `/` is left after the slash substitution |
| Chant.BreakAtSlashesWithoutSlash | bot.py:62 | text without a slash is unchanged by it |
| Chant.BreakAtSlashesPrefix | bot.py:62 | slash-free text that does not end in whitespace passes through unchanged, and the rest is processed after it |
| Chant.BreakAtSlashesMarker | bot.py:62 | a `/` with any whitespace runs on both sides, in front of non-whitespace, becomes exactly one `"\n"` |
| Chant.BreakAtSlashesMarkedLines | bot.py:62 | clean lines separated by `/` markers with any whitespace around them come out joined with `"\n"` |
| Chant.TrimLines | bot.py:64 | one result line per line, each one `rstrip`ped |
| Chant.RejoinTrimmedLines | bot.py:64 | split, right-trim and join give back a text already in that shape |
| Chant.CleanChantText | bot.py:59-65 | the cleaned text has no `/` and no line boundary but `"\n"`; it has no whitespace at either end, and no line ends in whitespace |
| Chant.CleanChantTextKeepsClean | bot.py:59-65 | a text of that shape is returned unchanged |
| Chant.CleanChantTextIdempotent | bot.py:59-65 | cleaning twice is cleaning once |
| Chant.CleanChantTextMarkedLines | bot.py:59-65 | clean lines written with `/` markers, with any whitespace around each, become the same lines separated by line breaks |
| Chant.CleanChantTextExample | bot.py:61-62 | `"Line one / Line two / Line three"` becomes `"Line one\nLine two\nLine three"` |
| Listing.Collapse | bot.py:29 | after the whitespace collapse every whitespace character is one space, never followed by whitespace |
| Listing.CollapseSpaces | bot.py:29 | `re.sub(r"\s+", " ", …)` leaves single plain spaces only |
| Listing.CollapseKeepsText | bot.py:29 | the non-whitespace characters are kept, in order |
| Listing.CollapseNoNewChars | bot.py:29 | the only character the collapse can add is the space |
| Listing.CollapseRun | bot.py:29 | any run of whitespace up to a non-space character or the end becomes exactly one space |
| Listing.CollapseSingleSpaced | bot.py:29 | already single-spaced text is unchanged |
| Listing.CollapseSpacesIdempotent | bot.py:29 | collapsing twice is collapsing once |
| Listing.StripComments | bot.py:30 | comment removal never lengthens the text and keeps it free of non-space whitespace |
| Listing.StripCommentsPrefix | bot.py:30 | text before the first `<` is kept as it is |
| Listing.StripCommentsNone | bot.py:30 | text without `<` is unchanged |
| Listing.StripCommentsComment | bot.py:30 | a leading complete `<!--…-->` is removed and nothing else changes |
| Listing.NormalizeName | bot.py:28-30 | a missing heading gives `""`; the name has no whitespace at either end and no whitespace but the space |
| Listing.NameWithoutComments | bot.py:29-30 | without comments the name is the collapsed, stripped heading, single-spaced |
| Listing.NameCommentBetweenSpaces | bot.py:29-30 | `"a <!--x--> b"` gives `"a  b"`: the comment goes, both spaces stay |
| Listing.NameCommentGlued | bot.py:29-30 | `"a <!--x-->b"` gives `"a b"` |
| Listing.UpgradeSizes | bot.py:39 | the rewrite is empty exactly for empty input and keeps the first character |
| Listing.UpgradeSizesPrefix | bot.py:39 | text at no position of which a size segment starts is kept, and the rewriting goes on after it |
| Listing.UpgradeSizesNone | bot.py:39 | a source without `/` is unchanged |
| Listing.UpgradeSizesSegment | bot.py:39 | each of `/icons/xsm/`, `/icons/sm/`, `/icons/md/` becomes `/icons/lg/` and the scan goes on after it |
| Listing.UpgradeStartsLike | bot.py:39-40 | the rewrite starts with a slash-free prefix (such as `http`) exactly when the source does |
| Listing.UpgradeDoubleSlash | bot.py:39-41 | the rewrite starts with `//` exactly when the source does |
| Listing.NormalizeIcon | bot.py:37-41 | `""` exactly for a missing or empty `src`; otherwise it starts with `http` and ends with the rewritten source |
| Listing.IconAlreadyAbsolute | bot.py:40 | an `http…` source gets no prefix |
| Listing.IconProtocolRelative | bot.py:41 | a `//…` source gets `https:` |
| Listing.IconHostRelative | bot.py:41 | any other source gets `https://images.oca.org` |
| Listing.IconProtocolRelativeOnHost | bot.py:38-41 | `//host` + a size segment + rest becomes `https://host/icons/lg/` + the rewritten rest |
| Listing.IconAbsoluteOnHost | bot.py:38-40 | `https://host` + a size segment + rest keeps its host and gets `/icons/lg/` |
| Listing.IconProtocolRelativeFile | bot.py:38-41 | `//host/icons/sm/file` (such as `//images.example.org/icons/sm/foo.jpg`) becomes `https://host/icons/lg/file` |
| Listing.ParseSaintArticle | bot.py:26-43 | the name is stripped and `""` without a heading; the slug is the link or `""`; the icon is `""` exactly without a `src`, and otherwise starts with `http` |
| Listing.ListingUrl | bot.py:48 | the URL starts with the lives listing prefix; its length is the prefix, the year and two two-digit fields |
| Listing.ListingUrlRoundTrip | bot.py:48 | the date reads back from its listing URL |
| Listing.ListingUrlInjective | bot.py:48 | different days have different listing URLs |
| Listing.GetAllSaints | bot.py:46-56 | an error naming the listing URL exactly when there is no saint article; otherwise one parsed entry per article, in page order |
| Hymns.TropariaPath | bot.py:70 | the path never gets shorter, and a path without `/saints/lives/` is kept |
| Hymns.HymnPageUrl | bot.py:70-71 | the URL is the site's base URL followed by exactly the troparia path |
| Hymns.TropariaPathOfLife | bot.py:70 | a path whose one `/saints/lives/` comes after a prefix in which none starts becomes that prefix, `/saints/troparia/` and the same rest |
| Hymns.TropariaPathRelative | bot.py:70 | `/saints/lives/` + rest becomes `/saints/troparia/` + rest |
| Hymns.TropariaPathAbsolute | bot.py:70 | `https://host/saints/lives/` + rest keeps its host and becomes `https://host/saints/troparia/` + rest |
| Hymns.BodyText | bot.py:83-84 | an article without a paragraph has text `""` |
| Hymns.BodyTextClean | bot.py:84 | every article's text is a cleaned chant |
| Hymns.View | bot.py:79-84 | an article without a heading names neither hymn |
| Hymns.PickHymns | bot.py:74-91 | the loop returns the first troparion and the first kontakion in the sense of the lemmas below |
| Hymns.FirstTroparionFound | bot.py:86-87 | the troparion is the text of the first article whose heading says "troparion" and whose text is non-empty |
| Hymns.FirstTroparionEmpty | bot.py:86-87 | the troparion is `""` exactly when no article is such a hit |
| Hymns.FirstKontakionFound | bot.py:88-89 | the kontakion is the text of the first kontakion hit, where the `elif` hands an article naming both hymns to the troparion while that is empty |
| Hymns.FirstKontakionEmpty | bot.py:88-89 | the kontakion is `""` exactly when no article is a kontakion hit |
| Hymns.BothWordsFillTroparion | bot.py:86-89 | on any page, an article whose heading names both hymns, met while the troparion is still empty, fills the troparion and is never the kontakion pick |
| Hymns.PickedTextsClean | bot.py:84-89 | both picked texts are cleaned chants |
| Hymns.NoHeadingsNoHymns | bot.py:79-81 | with no headings both picks are `""` |
| Hymns.HeadlessArticleSkipped | bot.py:79-81 | an article without a heading, at any position of the page, changes neither pick: the picks with it equal the picks without it |
| Output.DayString | bot.py:96 | two digits, a space, then the month name |
| Output.DayStringRoundTrip | bot.py:96 | the day and the month read back from that text |
| Output.HeadingLine | bot.py:95-99 | `## [name - `, then exactly the day text `DD Month`, then `](https://www.oca.org` + slug + `)`, and nothing else |
| Output.IconLine | bot.py:104 | `![name](`, then the icon URL, then `)`, and nothing else |
| Output.Sections | bot.py:98-112 | the heading first, then a blank line, and the tags last |
| Output.FormatOutput | bot.py:94-114 | the post is the `"\n"`-join of `PostLines` |
| Output.ParseSectionsRoundTrip | bot.py:98-112 | parsing the lines of a post gives back its fields |
| Output.ParseSectionsSound | bot.py:98-112 | lines that parse are exactly the post of the parsed fields |
| Output.PostSections | bot.py:103-110 | the icon section is there exactly when the icon URL is non-empty; the sections hold exactly the given troparion and kontakion, each there exactly when its text is non-empty, in that order |
| Output.PostStart | bot.py:98-114 | the post starts with the heading line and a blank line |
| Output.PostEnd | bot.py:112-114 | the post ends with `"\n"` and the tags, and not with a line break |
| Driver.ChosenIndex | bot.py:151-155 | the index is in range; with the random flag and several saints it is not the top one, otherwise it is 0 |
| Driver.RandomReachesEveryOtherSaint | bot.py:151-152 | every saint but the top one is the random choice for exactly one pick |
| Driver.DailyPost | bot.py:149-163 | an error naming the listing URL exactly for an empty listing; otherwise the formatted post of the chosen saint, with the hymns picked from its hymn page |

## Left out

- `fetch_page`: the HTTP requests, their timeout and the status check. The pages' contents are inputs.
- The BeautifulSoup lookups: `find`, `find_all`, the `saint` class filter, `get_text(strip=True)`. So is the regular expression that picks the life link. The model receives their results as optional strings and sequences of records.
- `parse_date`, `date.today()` and `argparse`: the day is a parameter, and every `date` value satisfies `Calendar.ValidDate`.
- `random.choice`: the pick is a parameter within the range `random.choice(saints[1:])` draws from.
- The messages on stderr, `print` and `sys.exit`. The exit of `get_all_saints` on an empty listing is the `Failure` result.
- The output file. It holds the post followed by one extra `"\n"`; writing it is not modelled.
- Calendar.MonthName: `strftime('%B')` depends on the locale; the model uses the English names of the C locale.
- Text.Lower: lower-cases ASCII letters only. Python's `str.lower` maps all of Unicode, and a few non-ASCII letters become ASCII ones: the Kelvin sign U+212A becomes `k`. A heading spelled with such a letter is not matched by the model.
- Listing.StripCommentsComment: proved only for comments whose inner text holds no `-` and no line break. The general lazy match is what `StripComments` computes, but no lemma describes it.
- Listing.NameCommentBetweenSpaces: proved for single-spaced phrases around a comment without whitespace or `-`, not for every heading.
- Listing.NameCommentGlued: same restriction as NameCommentBetweenSpaces. It holds for a comment that reaches the regular expressions as text; `get_text(strip=True)` drops real comment nodes and glues the stripped text pieces around them, and that gluing is not modelled.
- Text.Strip: its own contract does not pin the result; Text.StripSlice adds that it is one slice of the argument with only whitespace outside it.
- Text.Join: carries no contract of its own; what the post and the chant cleaner need of it is stated by JoinAppend, JoinPrepend, JoinSplitLines and SplitLinesRejoin.
- Listing.IconProtocolRelativeFile: stated for any host and any file name without `/`; the literal `images.example.org` instance is that lemma with those arguments.
