/**
 * get_troparia: the hymn page of a saint and the choice of its troparion and
 * kontakion. The page lookups are not modelled; each hymn <article> arrives
 * as the text of its heading and of its first paragraph.
 */
module Hymns {
  import opened Wrappers
  import opened Text
  import opened Chant
  import opened Site

  const LIVES_SEGMENT: string := "/saints/lives/"
  const TROPARIA_SEGMENT: string := "/saints/troparia/"

  /** The hymn-page path: every "/saints/lives/" of the life's path becomes "/saints/troparia/". */
  function TropariaPath(slug: string): (path: string)
    ensures |path| >= |slug|
    ensures !Contains(slug, LIVES_SEGMENT) ==> path == slug
  {
    var path := ReplaceAll(slug, LIVES_SEGMENT, TROPARIA_SEGMENT);
    assert !Contains(slug, LIVES_SEGMENT) ==> path == slug by {
      if !Contains(slug, LIVES_SEGMENT) {
        ReplaceAllAbsent(slug, LIVES_SEGMENT, TROPARIA_SEGMENT);
      }
    }
    path
  }

  /** The URL get_troparia fetches for a saint: the site, then the hymn-page path. */
  function HymnPageUrl(slug: string): (url: string)
    ensures StartsWith(url, BASE_URL)
    ensures url[|BASE_URL|..] == TropariaPath(slug)
  {
    var url := BASE_URL + TropariaPath(slug);
    assert url[..|BASE_URL|] == BASE_URL;
    url
  }

  /**
   * A path whose only "/saints/lives/" comes after a prefix in which none
   * starts moves to the troparia section; the prefix and the rest stay.
   */
  lemma TropariaPathOfLife(prefix: string, rest: string)
    requires forall i :: 0 <= i < |prefix| ==> !OccursAt(prefix + (LIVES_SEGMENT + rest), LIVES_SEGMENT, i)
    requires !Contains(rest, LIVES_SEGMENT)
    ensures TropariaPath(prefix + LIVES_SEGMENT + rest) == prefix + TROPARIA_SEGMENT + rest
  {
    calc {
      TropariaPath(prefix + LIVES_SEGMENT + rest);
    == { assert prefix + LIVES_SEGMENT + rest == prefix + (LIVES_SEGMENT + rest); }
      ReplaceAll(prefix + (LIVES_SEGMENT + rest), LIVES_SEGMENT, TROPARIA_SEGMENT);
    == { ReplaceAllPrefix(prefix, LIVES_SEGMENT + rest, LIVES_SEGMENT, TROPARIA_SEGMENT); }
      prefix + ReplaceAll(LIVES_SEGMENT + rest, LIVES_SEGMENT, TROPARIA_SEGMENT);
    == { ReplaceAllAtStart(LIVES_SEGMENT, TROPARIA_SEGMENT, rest); }
      prefix + (TROPARIA_SEGMENT + ReplaceAll(rest, LIVES_SEGMENT, TROPARIA_SEGMENT));
    == { ReplaceAllAbsent(rest, LIVES_SEGMENT, TROPARIA_SEGMENT); }
      prefix + (TROPARIA_SEGMENT + rest);
      prefix + TROPARIA_SEGMENT + rest;
    }
  }

  /** A site-relative life path "/saints/lives/…" moves to "/saints/troparia/…". */
  lemma TropariaPathRelative(rest: string)
    requires !Contains(rest, LIVES_SEGMENT)
    ensures TropariaPath(LIVES_SEGMENT + rest) == TROPARIA_SEGMENT + rest
  {
    TropariaPathOfLife([], rest);
    assert [] + LIVES_SEGMENT + rest == LIVES_SEGMENT + rest;
    assert [] + TROPARIA_SEGMENT + rest == TROPARIA_SEGMENT + rest;
  }

  /** An absolute life URL "https://<host>/saints/lives/…" keeps its host and moves to the troparia section. */
  lemma TropariaPathAbsolute(host: string, rest: string)
    requires '/' !in host
    requires !Contains(rest, LIVES_SEGMENT)
    ensures TropariaPath("https://" + host + LIVES_SEGMENT + rest) == "https://" + host + TROPARIA_SEGMENT + rest
  {
    var a := "https://" + host;
    forall i | 0 <= i < |a|
      ensures !OccursAt(a + (LIVES_SEGMENT + rest), LIVES_SEGMENT, i)
    {
      NoLivesInHost(host, LIVES_SEGMENT + rest, i);
    }
    TropariaPathOfLife(a, rest);
  }

  lemma NoLivesInHost(host: string, b: string, i: nat)
    requires '/' !in host && StartsWith(b, "/s")
    requires i < |"https://" + host|
    ensures !OccursAt("https://" + host + b, LIVES_SEGMENT, i)
  {
    var s := "https://" + host + b;
    var p := LIVES_SEGMENT;
    var n := |host|;
    if i + |p| <= |s| {
      var m: nat := if i != 7 then (if i == 6 then 1 else 0)
        else if n >= 7 then 7 else if n == 6 then 8 else n + 1;
      assert m < |p| && s[i + m] != p[m] by {
        if i < 6 {
          assert s[i] == "https:"[i];
        } else if i == 6 {
          assert s[7] == '/';
        } else if i == 7 && n >= 7 {
          assert s[14] == host[6] && host[6] in host;
        } else if i == 7 && n == 6 {
          assert s[15] == b[1] == 's';
        } else if i == 7 {
          assert s[8 + n] == b[0] == '/';
          assert p[..7] == "/saints";
          assert p[n + 1] == p[..7][n + 1];
        } else {
          assert s[i] == host[i - 8] && host[i - 8] in host;
        }
      }
      assert s[i..i + |p|][m] == s[i + m];
    }
  }

  /**
   * A hymn <article>: the text of its <h2> heading (None when it has none) and
   * of its first <p> (None when it has none).
   */
  datatype HymnArticle = HymnArticle(heading: Option<string>, body: Option<string>)

  /** The cleaned hymn text of an article; "" without a paragraph. */
  function BodyText(a: HymnArticle): (text: string)
    ensures a.body.None? ==> text == ""
  {
    if a.body.Some? then CleanChantText(a.body.value) else ""
  }

  lemma BodyTextClean(a: HymnArticle)
    ensures IsCleanChant(BodyText(a))
  {
    if a.body.Some? {
      var t := CleanChantText(a.body.value);
      assert IsCleanChant(t);
    } else {
      assert IsCleanChant("");
    }
  }

  /** The article has a heading whose lower-cased text contains `word`. */
  predicate Mentions(a: HymnArticle, word: string) {
    a.heading.Some? && Contains(Lower(a.heading.value), word)
  }

  /** What the loop looks at in an article: which hymn names its heading holds, and its cleaned text. */
  datatype HymnView = HymnView(troparion: bool, kontakion: bool, text: string)

  function View(a: HymnArticle): (v: HymnView)
    ensures a.heading.None? ==> !v.troparion && !v.kontakion
  {
    HymnView(Mentions(a, "troparion"), Mentions(a, "kontakion"), BodyText(a))
  }

  /** The view of every article, in page order. */
  function Views(articles: seq<HymnArticle>): (vs: seq<HymnView>)
    ensures |vs| == |articles|
  {
    if articles == [] then [] else [View(articles[0])] + Views(articles[1..])
  }

  lemma {:induction false} ViewAt(articles: seq<HymnArticle>, i: nat)
    requires i < |articles|
    ensures Views(articles)[i] == View(articles[i])
  {
    if i > 0 {
      ViewAt(articles[1..], i - 1);
    }
  }

  /** Article i would set the troparion if the troparion were still empty. */
  predicate TroparionHit(vs: seq<HymnView>, i: nat)
    requires i < |vs|
  {
    vs[i].troparion && vs[i].text != ""
  }

  predicate NoTroparionBefore(vs: seq<HymnView>, k: nat)
    requires k <= |vs|
  {
    forall j :: 0 <= j < k ==> !TroparionHit(vs, j)
  }

  /**
   * Article i would set the kontakion if the kontakion were still empty. An
   * article that also mentions "troparion" while the troparion is still empty
   * goes to the troparion branch instead, whatever its paragraph holds.
   */
  predicate KontakionHit(vs: seq<HymnView>, i: nat)
    requires i < |vs|
  {
    vs[i].kontakion && vs[i].text != "" && !(vs[i].troparion && NoTroparionBefore(vs, i))
  }

  predicate NoKontakionBefore(vs: seq<HymnView>, k: nat)
    requires k <= |vs|
  {
    forall j :: 0 <= j < k ==> !KontakionHit(vs, j)
  }

  /** The text of the first troparion hit at or after k, "" when there is none. */
  function FirstTroparion(vs: seq<HymnView>, k: nat): (text: string)
    requires k <= |vs|
    decreases |vs| - k
  {
    if k == |vs| then ""
    else if TroparionHit(vs, k) then vs[k].text
    else FirstTroparion(vs, k + 1)
  }

  /** The text of the first kontakion hit at or after k, "" when there is none. */
  function FirstKontakion(vs: seq<HymnView>, k: nat): (text: string)
    requires k <= |vs|
    decreases |vs| - k
  {
    if k == |vs| then ""
    else if KontakionHit(vs, k) then vs[k].text
    else FirstKontakion(vs, k + 1)
  }

  /**
   * The article loop of get_troparia: the first non-empty troparion and the
   * first non-empty kontakion, in page order.
   */
  method PickHymns(articles: seq<HymnArticle>) returns (troparion: string, kontakion: string)
    ensures troparion == FirstTroparion(Views(articles), 0)
    ensures kontakion == FirstKontakion(Views(articles), 0)
  {
    ghost var vs := Views(articles);
    troparion, kontakion := "", "";
    for k := 0 to |articles|
      invariant troparion == "" <==> NoTroparionBefore(vs, k)
      invariant FirstTroparion(vs, 0) == if troparion == "" then FirstTroparion(vs, k) else troparion
      invariant kontakion == "" <==> NoKontakionBefore(vs, k)
      invariant FirstKontakion(vs, 0) == if kontakion == "" then FirstKontakion(vs, k) else kontakion
    {
      var article := articles[k];
      ViewAt(articles, k);
      if article.heading.Some? {
        var lowered := Lower(article.heading.value);
        var text := BodyText(article);
        assert vs[k].troparion == Contains(lowered, "troparion");
        assert vs[k].kontakion == Contains(lowered, "kontakion");
        assert vs[k].text == text;
        if Contains(lowered, "troparion") && troparion == "" {
          troparion := text;
        } else if Contains(lowered, "kontakion") && kontakion == "" {
          kontakion := text;
        }
      }
    }
  }

  /** The first troparion hit is the one picked. */
  lemma {:induction false} FirstTroparionFound(vs: seq<HymnView>, k: nat, i: nat)
    requires k <= i < |vs|
    requires TroparionHit(vs, i)
    requires forall j :: k <= j < i ==> !TroparionHit(vs, j)
    ensures FirstTroparion(vs, k) == vs[i].text
    decreases i - k
  {
    if k < i {
      FirstTroparionFound(vs, k + 1, i);
    }
  }

  /** The troparion is empty exactly when no article is a troparion hit. */
  lemma {:induction false} FirstTroparionEmpty(vs: seq<HymnView>, k: nat)
    requires k <= |vs|
    ensures FirstTroparion(vs, k) == "" <==> forall j :: k <= j < |vs| ==> !TroparionHit(vs, j)
    decreases |vs| - k
  {
    if k < |vs| {
      FirstTroparionEmpty(vs, k + 1);
    }
  }

  /** The first kontakion hit is the one picked. */
  lemma {:induction false} FirstKontakionFound(vs: seq<HymnView>, k: nat, i: nat)
    requires k <= i < |vs|
    requires KontakionHit(vs, i)
    requires forall j :: k <= j < i ==> !KontakionHit(vs, j)
    ensures FirstKontakion(vs, k) == vs[i].text
    decreases i - k
  {
    if k < i {
      FirstKontakionFound(vs, k + 1, i);
    }
  }

  /** The kontakion is empty exactly when no article is a kontakion hit. */
  lemma {:induction false} FirstKontakionEmpty(vs: seq<HymnView>, k: nat)
    requires k <= |vs|
    ensures FirstKontakion(vs, k) == "" <==> forall j :: k <= j < |vs| ==> !KontakionHit(vs, j)
    decreases |vs| - k
  {
    if k < |vs| {
      FirstKontakionEmpty(vs, k + 1);
    }
  }

  /** The texts picked are cleaned chants. */
  lemma PickedTextsClean(articles: seq<HymnArticle>)
    ensures IsCleanChant(FirstTroparion(Views(articles), 0))
    ensures IsCleanChant(FirstKontakion(Views(articles), 0))
  {
    var vs := Views(articles);
    forall i | 0 <= i < |vs|
      ensures IsCleanChant(vs[i].text)
    {
      ViewAt(articles, i);
      BodyTextClean(articles[i]);
    }
    FirstTextsClean(vs, 0);
  }

  lemma {:induction false} FirstTextsClean(vs: seq<HymnView>, k: nat)
    requires k <= |vs|
    requires forall i :: 0 <= i < |vs| ==> IsCleanChant(vs[i].text)
    ensures IsCleanChant(FirstTroparion(vs, k)) && IsCleanChant(FirstKontakion(vs, k))
    decreases |vs| - k
  {
    if k < |vs| {
      FirstTextsClean(vs, k + 1);
    } else {
      assert IsCleanChant("");
    }
  }

  /**
   * An article whose heading names both hymns, met while the troparion is
   * still empty, fills the troparion and is never the kontakion pick.
   */
  lemma BothWordsFillTroparion(vs: seq<HymnView>, i: nat)
    requires i < |vs| && vs[i].troparion && vs[i].kontakion && vs[i].text != ""
    requires NoTroparionBefore(vs, i)
    ensures FirstTroparion(vs, 0) == vs[i].text
    ensures !KontakionHit(vs, i)
  {
    FirstTroparionFound(vs, 0, i);
  }

  /** Without headings there is nothing to pick. */
  lemma NoHeadingsNoHymns(articles: seq<HymnArticle>)
    requires forall i :: 0 <= i < |articles| ==> articles[i].heading.None?
    ensures FirstTroparion(Views(articles), 0) == "" && FirstKontakion(Views(articles), 0) == ""
  {
    var vs := Views(articles);
    forall j | 0 <= j < |vs|
      ensures !vs[j].troparion && !vs[j].kontakion
    {
      ViewAt(articles, j);
    }
    FirstTroparionEmpty(vs, 0);
    FirstKontakionEmpty(vs, 0);
  }

  /** An article without a heading, wherever it stands on the page, changes neither pick. */
  lemma HeadlessArticleSkipped(xs: seq<HymnArticle>, a: HymnArticle, ys: seq<HymnArticle>)
    requires a.heading.None?
    ensures FirstTroparion(Views(xs + [a] + ys), 0) == FirstTroparion(Views(xs + ys), 0)
    ensures FirstKontakion(Views(xs + [a] + ys), 0) == FirstKontakion(Views(xs + ys), 0)
  {
    ViewsAppend(xs + [a], ys);
    ViewsAppend(xs, [a]);
    ViewsAppend(xs, ys);
    assert Views([a]) == [View(a)];
    HeadlessViewSkipped(Views(xs), View(a), Views(ys));
  }

  lemma ViewsAppend(xs: seq<HymnArticle>, ys: seq<HymnArticle>)
    ensures Views(xs + ys) == Views(xs) + Views(ys)
  {
    var l, r := Views(xs + ys), Views(xs) + Views(ys);
    forall j | 0 <= j < |l|
      ensures l[j] == r[j]
    {
      ViewAt(xs + ys, j);
      if j < |xs| {
        ViewAt(xs, j);
      } else {
        ViewAt(ys, j - |xs|);
      }
    }
  }

  /** Dropping a view that names neither hymn from anywhere in the page changes neither pick. */
  lemma HeadlessViewSkipped(xs: seq<HymnView>, v: HymnView, ys: seq<HymnView>)
    requires !v.troparion && !v.kontakion
    ensures FirstTroparion(xs + [v] + ys, 0) == FirstTroparion(xs + ys, 0)
    ensures FirstKontakion(xs + [v] + ys, 0) == FirstKontakion(xs + ys, 0)
  {
    SkippedPicks(xs, v, ys, 0);
    if xs == [] {
      var all := xs + [v] + ys;
      assert !TroparionHit(all, 0);
      assert !KontakionHit(all, 0);
    }
  }

  /** Index k of `xs + ys` is index Skip(|xs|, k) of `xs + [v] + ys`. */
  function Skip(n: nat, k: nat): (j: nat)
    ensures j == k || j == k + 1
  {
    if k < n then k else k + 1
  }

  lemma SkippedHit(xs: seq<HymnView>, v: HymnView, ys: seq<HymnView>, k: nat)
    requires !v.troparion && !v.kontakion
    requires k < |xs + ys|
    ensures Skip(|xs|, k) < |xs + [v] + ys|
    ensures (xs + [v] + ys)[Skip(|xs|, k)] == (xs + ys)[k]
    ensures TroparionHit(xs + [v] + ys, Skip(|xs|, k)) == TroparionHit(xs + ys, k)
    ensures KontakionHit(xs + [v] + ys, Skip(|xs|, k)) == KontakionHit(xs + ys, k)
  {
    SkippedNoTroparion(xs, v, ys, k);
  }

  lemma SkippedNoTroparion(xs: seq<HymnView>, v: HymnView, ys: seq<HymnView>, k: nat)
    requires !v.troparion
    requires k <= |xs + ys|
    ensures Skip(|xs|, k) <= |xs + [v] + ys|
    ensures NoTroparionBefore(xs + [v] + ys, Skip(|xs|, k)) == NoTroparionBefore(xs + ys, k)
  {
    var all, rest, n := xs + [v] + ys, xs + ys, |xs|;
    assert all[n] == v;
    forall j | 0 <= j < |rest|
      ensures all[Skip(n, j)] == rest[j]
    {
      if j >= n {
        assert all[j + 1] == ys[j - n] == rest[j];
      }
    }
    if NoTroparionBefore(rest, k) {
      forall i | 0 <= i < Skip(n, k)
        ensures !TroparionHit(all, i)
      {
        if i < n {
          assert !TroparionHit(rest, i);
        } else if i > n {
          assert !TroparionHit(rest, i - 1) && Skip(n, i - 1) == i;
        }
      }
    }
    if NoTroparionBefore(all, Skip(n, k)) {
      forall i | 0 <= i < k
        ensures !TroparionHit(rest, i)
      {
        assert !TroparionHit(all, Skip(n, i));
      }
    }
  }

  lemma {:induction false} SkippedPicks(xs: seq<HymnView>, v: HymnView, ys: seq<HymnView>, k: nat)
    requires !v.troparion && !v.kontakion
    requires k <= |xs + ys|
    ensures Skip(|xs|, k) <= |xs + [v] + ys|
    ensures FirstTroparion(xs + [v] + ys, Skip(|xs|, k)) == FirstTroparion(xs + ys, k)
    ensures FirstKontakion(xs + [v] + ys, Skip(|xs|, k)) == FirstKontakion(xs + ys, k)
    decreases |xs + ys| - k
  {
    var all, rest, n := xs + [v] + ys, xs + ys, |xs|;
    if k < |rest| {
      SkippedHit(xs, v, ys, k);
      SkippedPicks(xs, v, ys, k + 1);
      if k + 1 == n {
        assert all[n] == v;
        assert !TroparionHit(all, n) && !KontakionHit(all, n);
      }
    }
  }

}
