/**
  The reconciliation performed by the `feed:check` console command: read the
  deal-offer ids of a CSV feed, scrape the ids listed on a paginated site, and
  report the feed ids the site does not list.

  HTTP and HTML parsing are inputs: the feed host is a function from URL to the
  body it serves, the site a function from URL to the parsed `Page` found
  there. Methods that fetch report the URLs they fetched, in order.
 */
module GoogleFeedCheck {
  import opened Wrappers
  import opened PhpStrings
  import opened PhpArrays

  /** What the HTML parser yields for one listing page: the inner HTML of each
      navigation anchor (`div.page_pavigation .pn_right a`), as `html()`
      returns it, markup included, and the `data-do_id` attribute of each
      marker element (`div.ec_track_item`), `None` where the element has no
      such attribute. */
  datatype Page = Page(anchors: seq<string>, markers: seq<Option<string>>)

  /** The body each feed URL serves. */
  type FeedHost = string -> string

  /** The parsed page each site URL serves. */
  type Site = string -> Page

  /** One entry of the configured `urls` list. */
  datatype UrlPair = UrlPair(feed: string, site: string)

  /** The configuration file: missing, or present with its `urls` key
      (`None` when the key is absent or null). */
  datatype ConfigFile = Missing | Present(urls: Option<seq<UrlPair>>)

  /** What one comparison prints: both URLs, both counts and the feed ids
      missing from the site (whose length is the "Difference by ids"). */
  datatype Report = Report(feedUrl: string, siteUrl: string, feedItems: nat, siteItems: nat, missing: seq<int>)

  /** How a run ends: the not-found message, the empty-list message, or one
      report per configured pair. */
  datatype RunOutcome = FileNotFound(path: string) | ListEmpty | Processed(path: string, reports: seq<Report>)

  // ---------------------------------------------------------------------------
  // Page count

  /** `getPagesCount`: 1 without navigation anchors, otherwise the cast of the
      last anchor's inner HTML (which may be 0 or negative; an anchor whose
      HTML starts with a tag casts to 0). */
  function PagesCount(page: Page): (n: int)
    ensures IntMin <= n <= IntMax
    ensures |page.anchors| == 0 ==> n == 1
  {
    if |page.anchors| > 0 then ParseLeadingInt(page.anchors[|page.anchors| - 1]) else 1
  }

  // ---------------------------------------------------------------------------
  // Feed ids

  /** The first comma-separated field of a CSV row (`$fields[0]`). */
  function FirstField(row: string): string
  {
    Explode(',', row)[0]
  }

  /** The first field is the text before the row's first comma, or the whole
      row when it has none. */
  lemma FirstFieldSpec(row: string)
    ensures ',' !in FirstField(row)
    ensures |FirstField(row)| <= |row| && FirstField(row) == row[..|FirstField(row)|]
    ensures |FirstField(row)| < |row| ==> row[|FirstField(row)|] == ','
  {
    var parts := Explode(',', row);
    ExplodePieces(',', row);
    ImplodeExplode(',', row);
    assert |parts| > 1 ==> row == parts[0] + [','] + Implode(',', parts[1..]);
  }

  /** What one data row adds to the feed ids: nothing when its first field is
      PHP-empty ("" or "0"), otherwise the cast of that field. */
  function RowContribution(row: string): seq<int>
  {
    var field := FirstField(row);
    if IsEmpty(field) then [] else [ParseLeadingInt(field)]
  }

  /** The feed ids contributed by the data rows, in row order. */
  function RowIds(rows: seq<string>): (ids: seq<int>)
    ensures |ids| <= |rows|
    decreases |rows|
  {
    if rows == [] then [] else RowIds(rows[..|rows| - 1]) + RowContribution(rows[|rows| - 1])
  }

  /** The ids `getFeedIds` extracts from a feed body: every line after the
      first contributes its `RowContribution`. */
  function FeedIds(content: string): seq<int>
  {
    RowIds(Explode('\n', content)[1..])
  }

  /** `getFeedIds`, given the body the feed URL served. */
  method GetFeedIds(feedContent: string) returns (feedIds: seq<int>)
    ensures feedIds == FeedIds(feedContent)
  {
    var feedRows := Explode('\n', feedContent)[1..];
    feedIds := [];
    for i := 0 to |feedRows|
      invariant feedIds == RowIds(feedRows[..i])
    {
      assert feedRows[..i + 1][..i] == feedRows[..i];
      assert RowIds(feedRows[..i + 1]) == RowIds(feedRows[..i]) + RowContribution(feedRows[i]);
      var dealOfferId := FirstField(feedRows[i]);
      if !IsEmpty(dealOfferId) {
        feedIds := feedIds + [ParseLeadingInt(dealOfferId)];
      }
    }
    assert feedRows[..|feedRows|] == feedRows;
  }

  // ---------------------------------------------------------------------------
  // Site ids

  /** `(int)$item->attr('data-do_id')`: a missing attribute casts to 0. */
  function AttrToInt(attr: Option<string>): (id: int)
    ensures IntMin <= id <= IntMax
  {
    match attr
    case None => 0
    case Some(text) => ParseLeadingInt(text)
  }

  /** The ids of a page's marker elements that cast to 1 or more, in order. */
  function ValidIds(markers: seq<Option<string>>): (ids: seq<int>)
    ensures |ids| <= |markers|
    decreases |markers|
  {
    if markers == [] then []
    else
      var id := AttrToInt(markers[|markers| - 1]);
      ValidIds(markers[..|markers| - 1]) + (if id < 1 then [] else [id])
  }

  /** The closure passed to `$items->each`: appends each marker id of 1 or
      more to `siteIds`. */
  method CollectIds(markers: seq<Option<string>>, siteIds: seq<int>) returns (result: seq<int>)
    ensures result == siteIds + ValidIds(markers)
  {
    result := siteIds;
    for i := 0 to |markers|
      invariant result == siteIds + ValidIds(markers[..i])
    {
      assert markers[..i + 1][..i] == markers[..i];
      var dealOfferId := AttrToInt(markers[i]);
      if dealOfferId >= 1 {
        result := result + [dealOfferId];
      }
    }
    assert markers[..|markers|] == markers;
  }

  /** The URL of listing page `page`: `$siteUrl . '?page=' . $page`. */
  function PageUrl(siteUrl: string, page: int): (url: string)
    ensures |url| > |siteUrl| && url[..|siteUrl|] == siteUrl
  {
    siteUrl + "?page=" + FormatInt(page)
  }

  /** The URLs of pages `first` to `last`, in increasing page order. */
  function PageUrls(siteUrl: string, first: int, last: int): seq<string>
    decreases last - first
  {
    if last < first then [] else PageUrls(siteUrl, first, last - 1) + [PageUrl(siteUrl, last)]
  }

  /** Pages `first` to `last` are `siteUrl?page=n` for each n, in increasing
      order, and none when `last < first`. */
  lemma {:induction false} PageUrlsSpec(siteUrl: string, first: int, last: int)
    ensures |PageUrls(siteUrl, first, last)| == if last < first then 0 else last - first + 1
    ensures forall k :: 0 <= k < |PageUrls(siteUrl, first, last)| ==>
      PageUrls(siteUrl, first, last)[k] == PageUrl(siteUrl, first + k)
    decreases last - first
  {
    if first <= last {
      var front := PageUrls(siteUrl, first, last - 1);
      var urls := front + [PageUrl(siteUrl, last)];
      PageUrlsSpec(siteUrl, first, last - 1);
      forall k | 0 <= k < |urls| ensures urls[k] == PageUrl(siteUrl, first + k) {
        if k < |front| {
          assert urls[k] == front[k];
        } else {
          assert first + k == last;
        }
      }
    }
  }

  /** The valid ids of pages `first` to `last`, concatenated in page order. */
  function IdsOfPages(site: Site, siteUrl: string, first: int, last: int): seq<int>
    decreases last - first
  {
    if last < first then []
    else IdsOfPages(site, siteUrl, first, last - 1) + ValidIds(site(PageUrl(siteUrl, last)).markers)
  }

  /** Everything `getSiteIds` appends before `array_unique`: nothing when page 1
      has no marker element, otherwise page 1's valid ids followed by those of
      pages 2 to the page count. */
  function CollectedIds(site: Site, siteUrl: string): seq<int>
  {
    var first := site(siteUrl);
    if |first.markers| < 1 then []
    else ValidIds(first.markers) + IdsOfPages(site, siteUrl, 2, PagesCount(first))
  }

  /** The result of `getSiteIds`. */
  function SiteIds(site: Site, siteUrl: string): seq<int>
  {
    ArrayUnique(CollectedIds(site, siteUrl))
  }

  /** The URLs `getSiteIds` fetches, in order. */
  function SiteFetches(site: Site, siteUrl: string): (urls: seq<string>)
    ensures |urls| >= 1 && urls[0] == siteUrl
  {
    var first := site(siteUrl);
    [siteUrl] + (if |first.markers| < 1 then [] else PageUrls(siteUrl, 2, PagesCount(first)))
  }

  /** The `for ($page = 2; $page <= $pagesCount; $page++)` loop of
      `getSiteIds`: fetch pages 2 to `pagesCount` in turn and append their
      valid ids to `siteIds`. The counter is an unbounded integer, so the loop
      also ends for `pagesCount == IntMax`, where PHP's counter turns into a
      float that never exceeds the count. */
  method CollectLaterPages(site: Site, siteUrl: string, pagesCount: int, siteIds: seq<int>)
    returns (result: seq<int>, fetched: seq<string>)
    ensures result == siteIds + IdsOfPages(site, siteUrl, 2, pagesCount)
    ensures fetched == PageUrls(siteUrl, 2, pagesCount)
  {
    result, fetched := siteIds, [];
    if pagesCount > 1 {
      for n := 2 to pagesCount + 1
        invariant result == siteIds + IdsOfPages(site, siteUrl, 2, n - 1)
        invariant fetched == PageUrls(siteUrl, 2, n - 1)
      {
        var url := PageUrl(siteUrl, n);
        var page := site(url);
        fetched := fetched + [url];
        result := CollectIds(page.markers, result);
        assert IdsOfPages(site, siteUrl, 2, n) == IdsOfPages(site, siteUrl, 2, n - 1) + ValidIds(page.markers);
        assert result == siteIds + IdsOfPages(site, siteUrl, 2, n);
      }
    }
  }

  /** `getSiteIds`: fetch page 1, stop with nothing if it has no marker
      element, otherwise collect the valid ids of pages 1 to the page count
      and drop repeats. */
  method GetSiteIds(site: Site, siteUrl: string) returns (siteIds: seq<int>, fetched: seq<string>)
    ensures siteIds == SiteIds(site, siteUrl)
    ensures fetched == SiteFetches(site, siteUrl)
  {
    var firstPage := site(siteUrl);
    var pagesCount := PagesCount(firstPage);
    if |firstPage.markers| < 1 {
      assert CollectedIds(site, siteUrl) == [];
      return [], [siteUrl];
    }
    var collected := CollectIds(firstPage.markers, []);
    assert collected == ValidIds(firstPage.markers);
    var later;
    collected, later := CollectLaterPages(site, siteUrl, pagesCount, collected);
    assert collected == CollectedIds(site, siteUrl);
    siteIds := ArrayUnique(collected);
    fetched := [siteUrl] + later;
  }

  // ---------------------------------------------------------------------------
  // Comparison and driver

  /** The report `comparingCount` prints for one pair. */
  function Compare(feeds: FeedHost, site: Site, pair: UrlPair): (report: Report)
    ensures report.feedUrl == pair.feed && report.siteUrl == pair.site
    ensures |report.missing| <= report.feedItems
  {
    var feedIds := FeedIds(feeds(pair.feed));
    var siteIds := SiteIds(site, pair.site);
    Report(pair.feed, pair.site, |feedIds|, |siteIds|, ArrayDiff(feedIds, siteIds))
  }

  /** The URLs `comparingCount` fetches for one pair, in order. */
  function CompareFetches(site: Site, pair: UrlPair): (urls: seq<string>)
    ensures |urls| >= 2 && urls[0] == pair.feed && urls[1] == pair.site
  {
    [pair.feed] + SiteFetches(site, pair.site)
  }

  /** `comparingCount`: the feed ids, the site ids and their difference. */
  method ComparingCount(feeds: FeedHost, site: Site, pair: UrlPair) returns (report: Report, fetched: seq<string>)
    ensures report == Compare(feeds, site, pair)
    ensures fetched == CompareFetches(site, pair)
  {
    var feedIds := GetFeedIds(feeds(pair.feed));
    var siteIds, siteFetched := GetSiteIds(site, pair.site);
    var diff := ArrayDiff(feedIds, siteIds);
    report := Report(pair.feed, pair.site, |feedIds|, |siteIds|, diff);
    fetched := [pair.feed] + siteFetched;
  }

  /** One report per pair, in list order. */
  function Reports(feeds: FeedHost, site: Site, pairs: seq<UrlPair>): (reports: seq<Report>)
    ensures |reports| == |pairs|
    decreases |pairs|
  {
    if pairs == [] then []
    else Reports(feeds, site, pairs[..|pairs| - 1]) + [Compare(feeds, site, pairs[|pairs| - 1])]
  }

  /** Every URL a run over `pairs` fetches, pair after pair. */
  function RunFetches(site: Site, pairs: seq<UrlPair>): (urls: seq<string>)
    ensures |urls| >= 2 * |pairs|
    decreases |pairs|
  {
    if pairs == [] then []
    else RunFetches(site, pairs[..|pairs| - 1]) + CompareFetches(site, pairs[|pairs| - 1])
  }

  /** Reports and fetches of one more pair extend those of the pairs before it. */
  lemma RunStep(feeds: FeedHost, site: Site, pairs: seq<UrlPair>, i: nat)
    requires i < |pairs|
    ensures Reports(feeds, site, pairs[..i + 1]) == Reports(feeds, site, pairs[..i]) + [Compare(feeds, site, pairs[i])]
    ensures RunFetches(site, pairs[..i + 1]) == RunFetches(site, pairs[..i]) + CompareFetches(site, pairs[i])
  {
    assert pairs[..i + 1][..i] == pairs[..i];
  }

  /** The `foreach` over the configured pairs in `execute`: one
      `comparingCount` per pair, in list order. */
  method CompareAll(feeds: FeedHost, site: Site, pairs: seq<UrlPair>)
    returns (reports: seq<Report>, requests: seq<string>)
    ensures reports == Reports(feeds, site, pairs)
    ensures requests == RunFetches(site, pairs)
  {
    reports, requests := [], [];
    for i := 0 to |pairs|
      invariant reports == Reports(feeds, site, pairs[..i])
      invariant requests == RunFetches(site, pairs[..i])
    {
      var report, fetched := ComparingCount(feeds, site, pairs[i]);
      RunStep(feeds, site, pairs, i);
      reports := reports + [report];
      requests := requests + fetched;
    }
    assert pairs[..|pairs|] == pairs;
  }

  /** `execute`: stop when the file is missing or its `urls` list is absent
      or empty, otherwise compare every pair in list order. */
  method Execute(path: string, config: ConfigFile, feeds: FeedHost, site: Site)
    returns (outcome: RunOutcome, requests: seq<string>)
    ensures config.Missing? ==> outcome == FileNotFound(path) && requests == []
    ensures config.Present? && (config.urls == None || config.urls == Some([])) ==>
      outcome == ListEmpty && requests == []
    ensures config.Present? && config.urls.Some? && config.urls.value != [] ==>
      outcome == Processed(path, Reports(feeds, site, config.urls.value)) &&
      requests == RunFetches(site, config.urls.value)
  {
    if config.Missing? {
      return FileNotFound(path), [];
    }
    if config.urls.None? || config.urls.value == [] {
      return ListEmpty, [];
    }
    var reports;
    reports, requests := CompareAll(feeds, site, config.urls.value);
    outcome := Processed(path, reports);
  }
}
