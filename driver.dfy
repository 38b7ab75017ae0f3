/**
 * main: which saint of the day is posted, and the run from the day's listing
 * to the finished post. Fetching pages, the command line, the clock, the
 * random choice and the output stream are not part of this model: the
 * listing's articles, the hymn pages and the random pick arrive as inputs.
 */
module Driver {
  import opened Wrappers
  import opened Text
  import opened Calendar
  import opened Listing
  import opened Hymns
  import opened Output

  /**
   * The index of the saint to post among `count` saints. With the random flag
   * and more than one saint, `pick` is the index random.choice chose within
   * the list without its first saint; otherwise the top saint is posted.
   */
  function ChosenIndex(count: nat, randomFlag: bool, pick: nat): (i: nat)
    requires count > 0
    requires randomFlag && count > 1 ==> pick < count - 1
    ensures i < count
    ensures randomFlag && count > 1 ==> 1 <= i
    ensures !(randomFlag && count > 1) ==> i == 0
  {
    if randomFlag && count > 1 then 1 + pick else 0
  }

  /** Every saint but the top one can be the random choice, and each one by exactly one pick. */
  lemma RandomReachesEveryOtherSaint(count: nat, i: nat)
    requires 1 <= i < count
    ensures exists pick: nat :: pick < count - 1 && ChosenIndex(count, true, pick) == i
    ensures forall pick: nat :: pick < count - 1 && ChosenIndex(count, true, pick) == i ==> pick == i - 1
  {
    assert ChosenIndex(count, true, i - 1) == i;
  }

  /**
   * The body of main once the day is known: list the day's saints, choose
   * one, pick its hymns from its hymn page and format the post. `hymnPage`
   * gives the hymn articles found at a URL.
   */
  method DailyPost(day: Date, listing: seq<SaintArticle>, randomFlag: bool, pick: nat,
                   hymnPage: string -> seq<HymnArticle>)
    returns (r: Result<string, ListingError>)
    requires ValidDate(day)
    requires randomFlag && |listing| > 1 ==> pick < |listing| - 1
    ensures r.Failure? <==> listing == []
    ensures r.Failure? ==> r.error == NoSaintFound(ListingUrl(day))
    ensures r.Success? ==>
      var saint := ParseSaintArticle(listing[ChosenIndex(|listing|, randomFlag, pick)]);
      var hymns := Views(hymnPage(HymnPageUrl(saint.slug)));
      r.value == Join("\n", PostLines(saint.name, saint.slug, saint.icon,
                                      FirstTroparion(hymns, 0), FirstKontakion(hymns, 0), day))
  {
    var saints := GetAllSaints(day, listing);
    if saints.Failure? {
      return Failure(saints.error);
    }
    var entries := saints.value;
    var saint := entries[ChosenIndex(|entries|, randomFlag, pick)];
    var troparion, kontakion := PickHymns(hymnPage(HymnPageUrl(saint.slug)));
    var post := FormatOutput(saint.name, saint.slug, saint.icon, troparion, kontakion, day);
    return Success(post);
  }
}
