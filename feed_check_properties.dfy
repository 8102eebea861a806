/**
  What the feed check promises, proved about the model in `GoogleFeedCheck`:
  how feed rows become ids, how the page count is read, which ids and pages
  the site scrape collects, what the difference report holds, and that a run
  reports on the pairs in order.
 */
module FeedCheckProperties {
  import opened Wrappers
  import opened PhpStrings
  import opened PhpArrays
  import opened GoogleFeedCheck

  // ---------------------------------------------------------------------------
  // Feed ids

  /** The ids of consecutive row blocks are the ids of each block, in order. */
  lemma {:induction false} RowIdsConcat(rows: seq<string>, more: seq<string>)
    ensures RowIds(rows + more) == RowIds(rows) + RowIds(more)
    decreases |more|
  {
    if more != [] {
      var front := more[..|more| - 1];
      var last := more[|more| - 1];
      assert (rows + more)[..|rows + more| - 1] == rows + front;
      assert (rows + more)[|rows + more| - 1] == last;
      RowIdsConcat(rows, front);
      assert RowIds(rows + more) == RowIds(rows + front) + RowContribution(last);
      assert RowIds(more) == RowIds(front) + RowContribution(last);
    } else {
      assert rows + more == rows;
    }
  }

  /** A feed body of a single line (the header) has no ids. */
  lemma FeedIdsHeaderOnly(content: string)
    requires '\n' !in content
    ensures FeedIds(content) == []
  {
    ExplodeNoDelimiter('\n', content);
  }

  /** Appending one more line to a feed body appends exactly that line's contribution. */
  lemma FeedIdsAppendLine(content: string, row: string)
    requires '\n' !in row
    ensures FeedIds(content + "\n" + row) == FeedIds(content) + RowContribution(row)
  {
    assert content + "\n" + row == content + ['\n'] + row;
    ExplodeAppend('\n', content, row);
    ExplodeNoDelimiter('\n', row);
    var lines := Explode('\n', content);
    assert (lines + [row])[1..] == lines[1..] + [row];
    RowIdsConcat(lines[1..], [row]);
    assert RowIds([row]) == RowIds([]) + RowContribution(row);
  }

  /** The header line never contributes: a body made of a header and data rows
      yields exactly the ids of the data rows. */
  lemma FeedIdsOfLines(header: string, rows: seq<string>)
    requires '\n' !in header
    requires forall i :: 0 <= i < |rows| ==> '\n' !in rows[i]
    ensures FeedIds(Implode('\n', [header] + rows)) == RowIds(rows)
  {
    var lines := [header] + rows;
    forall i | 0 <= i < |lines| ensures '\n' !in lines[i] {
      if i > 0 {
        assert lines[i] == rows[i - 1];
      }
    }
    ExplodeImplode('\n', lines);
    assert lines[1..] == rows;
  }

  /** The first field of a row is the text before its first comma. */
  lemma FirstFieldOf(field: string, tail: string)
    requires ',' !in field
    ensures FirstField(field + "," + tail) == field
    ensures FirstField(field) == field
  {
    var row := field + "," + tail;
    var f := FirstField(row);
    FirstFieldSpec(row);
    FirstFieldSpec(field);
    assert forall i :: 0 <= i < |field| ==> row[i] == field[i];
    assert row[|field|] == ',';
    assert forall i :: 0 <= i < |f| ==> f[i] == row[i];
    assert |f| == |field|;
    assert f == field;
  }

  /** A data row contributes nothing when its first field is "" or "0", and
      otherwise exactly the cast of that field, with no positivity filter. */
  lemma RowContributionOfField(field: string, tail: string)
    requires ',' !in field
    ensures RowContribution(field + "," + tail) == if IsEmpty(field) then [] else [ParseLeadingInt(field)]
    ensures RowContribution(field) == if IsEmpty(field) then [] else [ParseLeadingInt(field)]
  {
    FirstFieldOf(field, tail);
  }

  /** An id some data row contributes is among the feed ids. */
  lemma {:induction false} RowIdsHas(rows: seq<string>, i: nat, x: int)
    requires i < |rows| && x in RowContribution(rows[i])
    ensures x in RowIds(rows)
    decreases |rows|
  {
    var front := rows[..|rows| - 1];
    assert RowIds(rows) == RowIds(front) + RowContribution(rows[|rows| - 1]);
    if i < |front| {
      assert front[i] == rows[i];
      RowIdsHas(front, i, x);
    }
  }

  /** The data row a feed id comes from. */
  lemma {:induction false} RowIdsSource(rows: seq<string>, x: int) returns (i: nat)
    requires x in RowIds(rows)
    ensures i < |rows| && x in RowContribution(rows[i])
    decreases |rows|
  {
    var front := rows[..|rows| - 1];
    assert RowIds(rows) == RowIds(front) + RowContribution(rows[|rows| - 1]);
    if x in RowContribution(rows[|rows| - 1]) {
      i := |rows| - 1;
    } else {
      i := RowIdsSource(front, x);
      assert front[i] == rows[i];
    }
  }

  /** Every id a feed yields comes from some data row, and every id a data
      row contributes is among the feed ids. */
  lemma RowIdsMembers(rows: seq<string>, x: int)
    ensures x in RowIds(rows) <==> exists i :: 0 <= i < |rows| && x in RowContribution(rows[i])
  {
    if x in RowIds(rows) {
      var i := RowIdsSource(rows, x);
    }
    if exists i :: 0 <= i < |rows| && x in RowContribution(rows[i]) {
      var i :| 0 <= i < |rows| && x in RowContribution(rows[i]);
      RowIdsHas(rows, i, x);
    }
  }

  // ---------------------------------------------------------------------------
  // Page count

  /** With navigation anchors, the count is the number the last anchor's inner
      HTML starts with (0 or negative included), whatever follows that number. */
  lemma PagesCountOfLabel(page: Page, k: int, rest: string)
    requires |page.anchors| > 0
    requires IntMin <= k <= IntMax
    requires rest == [] || !IsDigit(rest[0])
    requires page.anchors[|page.anchors| - 1] == FormatInt(k) + rest
    ensures PagesCount(page) == k
  {
    ParseLeadingIntOfFormatted(k, rest);
  }

  /** A last anchor whose inner HTML holds no digit (a "next" arrow, say)
      gives a page count of 0. */
  lemma PagesCountOfUnnumberedLabel(page: Page)
    requires |page.anchors| > 0
    requires NoDigit(page.anchors[|page.anchors| - 1])
    ensures PagesCount(page) == 0
  {
    ParseLeadingIntNoDigits(page.anchors[|page.anchors| - 1]);
  }

  /** A last anchor whose inner HTML starts with markup, such as
      `<span>5</span>`, gives a page count of 0 whatever number the markup
      wraps. */
  lemma PagesCountOfTaggedLabel(page: Page)
    requires |page.anchors| > 0
    requires var html := page.anchors[|page.anchors| - 1]; |html| > 0 && html[0] == '<'
    ensures PagesCount(page) == 0
  {
    ParseLeadingIntNoLeadingDigit(page.anchors[|page.anchors| - 1]);
  }

  // ---------------------------------------------------------------------------
  // Site ids

  /** Some marker element carries the cast id `x`. */
  ghost predicate Carries(markers: seq<Option<string>>, x: int)
  {
    exists i :: 0 <= i < |markers| && AttrToInt(markers[i]) == x
  }

  /** A page's valid ids are all 1 or more, and are exactly the cast ids of
      1 or more its marker elements carry. */
  lemma {:induction false} ValidIdsSpec(markers: seq<Option<string>>)
    ensures forall k :: 0 <= k < |ValidIds(markers)| ==> ValidIds(markers)[k] >= 1
    ensures forall x :: x in ValidIds(markers) <==> x >= 1 && Carries(markers, x)
    decreases |markers|
  {
    if markers != [] {
      var front := markers[..|markers| - 1];
      ValidIdsSpec(front);
      assert forall i :: 0 <= i < |front| ==> front[i] == markers[i];
      forall x | Carries(markers, x) && x >= 1
        ensures x in ValidIds(markers)
      {
        var i :| 0 <= i < |markers| && AttrToInt(markers[i]) == x;
        if i < |front| {
          assert Carries(front, x);
        }
      }
    }
  }

  /** Markers that all cast below 1 yield no ids. */
  lemma {:induction false} ValidIdsOfInvalid(markers: seq<Option<string>>)
    requires forall i :: 0 <= i < |markers| ==> AttrToInt(markers[i]) < 1
    ensures ValidIds(markers) == []
    decreases |markers|
  {
    if markers != [] {
      ValidIdsOfInvalid(markers[..|markers| - 1]);
    }
  }

  /** The ids collected from pages `first` to `last` are all 1 or more, and
      an id is collected iff some page in that range carries it. */
  lemma {:induction false} IdsOfPagesSpec(site: Site, siteUrl: string, first: int, last: int)
    ensures forall k :: 0 <= k < |IdsOfPages(site, siteUrl, first, last)| ==> IdsOfPages(site, siteUrl, first, last)[k] >= 1
    ensures forall x :: x in IdsOfPages(site, siteUrl, first, last) <==>
      x >= 1 && exists n :: first <= n <= last && Carries(site(PageUrl(siteUrl, n)).markers, x)
    decreases last - first
  {
    if first <= last {
      IdsOfPagesSpec(site, siteUrl, first, last - 1);
      ValidIdsSpec(site(PageUrl(siteUrl, last)).markers);
    }
  }

  /** If page 1 has no marker element, the site yields no ids and only page 1
      is fetched. */
  lemma SiteIdsOfEmptyFirstPage(site: Site, siteUrl: string)
    requires |site(siteUrl).markers| == 0
    ensures SiteIds(site, siteUrl) == []
    ensures SiteFetches(site, siteUrl) == [siteUrl]
  {
  }

  /** Only the number of marker elements on page 1 decides the early stop:
      a page 1 whose markers are all invalid still leads to pages 2 onwards. */
  lemma SiteIdsOfInvalidFirstPage(site: Site, siteUrl: string)
    requires |site(siteUrl).markers| > 0
    requires forall i :: 0 <= i < |site(siteUrl).markers| ==> AttrToInt(site(siteUrl).markers[i]) < 1
    ensures SiteIds(site, siteUrl) == ArrayUnique(IdsOfPages(site, siteUrl, 2, PagesCount(site(siteUrl))))
  {
    ValidIdsOfInvalid(site(siteUrl).markers);
    assert CollectedIds(site, siteUrl) == IdsOfPages(site, siteUrl, 2, PagesCount(site(siteUrl)));
  }

  /** The site's ids have no repeats, are all 1 or more, and are exactly the
      cast ids of 1 or more carried by page 1 or by a page from 2 to the page
      count, provided page 1 has a marker element at all. */
  lemma SiteIdsSpec(site: Site, siteUrl: string, x: int)
    ensures NoDuplicates(SiteIds(site, siteUrl))
    ensures forall k :: 0 <= k < |SiteIds(site, siteUrl)| ==> SiteIds(site, siteUrl)[k] >= 1
    ensures x in SiteIds(site, siteUrl) <==>
      |site(siteUrl).markers| > 0 && x >= 1 &&
      (Carries(site(siteUrl).markers, x) ||
       exists n :: 2 <= n <= PagesCount(site(siteUrl)) && Carries(site(PageUrl(siteUrl, n)).markers, x))
  {
    var firstPage := site(siteUrl);
    var collected := CollectedIds(site, siteUrl);
    ArrayUniqueSpec(collected);
    if |firstPage.markers| > 0 {
      ValidIdsSpec(firstPage.markers);
      IdsOfPagesSpec(site, siteUrl, 2, PagesCount(firstPage));
    }
    forall k | 0 <= k < |SiteIds(site, siteUrl)|
      ensures SiteIds(site, siteUrl)[k] >= 1
    {
      assert SiteIds(site, siteUrl)[k] in collected;
    }
  }

  /** The site's ids come in the order of their first occurrence across the
      pages, page 1 first. */
  lemma SiteIdsOrder(site: Site, siteUrl: string)
    ensures forall k :: 0 <= k < |SiteIds(site, siteUrl)| ==> SiteIds(site, siteUrl)[k] in CollectedIds(site, siteUrl)
    ensures forall i, j :: 0 <= i < j < |SiteIds(site, siteUrl)| ==>
      FirstIndex(CollectedIds(site, siteUrl), SiteIds(site, siteUrl)[i]) <
      FirstIndex(CollectedIds(site, siteUrl), SiteIds(site, siteUrl)[j])
  {
    ArrayUniqueOrder(CollectedIds(site, siteUrl));
  }

  /** The pages fetched after page 1 are exactly pages 2 to the page count,
      in increasing order, at `siteUrl + "?page=" + n`; none when page 1 has
      no marker element or the count is at most 1. */
  lemma SiteFetchesSpec(site: Site, siteUrl: string)
    ensures SiteFetches(site, siteUrl)[0] == siteUrl
    ensures |SiteFetches(site, siteUrl)| ==
      if |site(siteUrl).markers| == 0 || PagesCount(site(siteUrl)) <= 1 then 1
      else PagesCount(site(siteUrl))
    ensures forall k :: 1 <= k < |SiteFetches(site, siteUrl)| ==>
      SiteFetches(site, siteUrl)[k] == PageUrl(siteUrl, k + 1)
  {
    PageUrlsSpec(siteUrl, 2, PagesCount(site(siteUrl)));
  }

  /** Two page numbers give the same URL only when they are the same page. */
  lemma PageUrlInjective(siteUrl: string, n: int, m: int)
    requires PageUrl(siteUrl, n) == PageUrl(siteUrl, m)
    ensures n == m
  {
    var k := |siteUrl + "?page="|;
    assert PageUrl(siteUrl, n)[k..] == FormatInt(n);
    assert PageUrl(siteUrl, m)[k..] == FormatInt(m);
    FormatIntInjective(n, m);
  }

  /** The URL at position `k` of a page range is that of page `first + k`. */
  lemma PageUrlsAt(siteUrl: string, first: int, last: int, k: nat)
    requires k < |PageUrls(siteUrl, first, last)|
    ensures PageUrls(siteUrl, first, last)[k] == PageUrl(siteUrl, first + k)
  {
    PageUrlsSpec(siteUrl, first, last);
  }

  /** Two positions of a page range hold different URLs. */
  lemma PageUrlsDiffer(siteUrl: string, first: int, last: int, i: nat, j: nat)
    requires i < j < |PageUrls(siteUrl, first, last)|
    ensures PageUrls(siteUrl, first, last)[i] != PageUrls(siteUrl, first, last)[j]
  {
    PageUrlsAt(siteUrl, first, last, i);
    PageUrlsAt(siteUrl, first, last, j);
    if PageUrl(siteUrl, first + i) == PageUrl(siteUrl, first + j) {
      PageUrlInjective(siteUrl, first + i, first + j);
      assert false;
    }
  }

  /** The page loop never fetches the same URL twice. */
  lemma PageUrlsDistinct(siteUrl: string, first: int, last: int)
    ensures forall i, j :: 0 <= i < j < |PageUrls(siteUrl, first, last)| ==>
      PageUrls(siteUrl, first, last)[i] != PageUrls(siteUrl, first, last)[j]
  {
    forall i, j | 0 <= i < j < |PageUrls(siteUrl, first, last)|
      ensures PageUrls(siteUrl, first, last)[i] != PageUrls(siteUrl, first, last)[j]
    {
      PageUrlsDiffer(siteUrl, first, last, i, j);
    }
  }

  /** Nor does it fetch page 1's URL again. */
  lemma PageUrlsAvoidFirst(siteUrl: string, first: int, last: int)
    ensures siteUrl !in PageUrls(siteUrl, first, last)
  {
    var urls := PageUrls(siteUrl, first, last);
    PageUrlsSpec(siteUrl, first, last);
    forall k | 0 <= k < |urls| ensures urls[k] != siteUrl {
      assert urls[k] == PageUrl(siteUrl, first + k);
    }
  }

  // ---------------------------------------------------------------------------
  // Difference and reports

  /** A report holds both counts, and its missing ids are a subsequence of
      the feed ids holding every feed entry, with all its repeats, whose value
      the site does not list, and nothing else. */
  lemma CompareSpec(feeds: FeedHost, site: Site, pair: UrlPair)
    ensures var feedIds := FeedIds(feeds(pair.feed));
      var siteIds := SiteIds(site, pair.site);
      var report := Compare(feeds, site, pair);
      && report.feedUrl == pair.feed && report.siteUrl == pair.site
      && report.feedItems == |feedIds| && report.siteItems == |siteIds|
      && |report.missing| <= report.feedItems
      && IsSubsequence(report.missing, feedIds)
      && (forall x :: x in report.missing <==> x in feedIds && x !in siteIds)
      && (forall x :: multiset(report.missing)[x] == if x in siteIds then 0 else multiset(feedIds)[x])
  {
    ArrayDiffSpec(FeedIds(feeds(pair.feed)), SiteIds(site, pair.site));
  }

  /** A run reports on the configured pairs in list order. */
  lemma {:induction false} ReportsInOrder(feeds: FeedHost, site: Site, pairs: seq<UrlPair>, i: nat)
    requires i < |pairs|
    ensures Reports(feeds, site, pairs)[i] == Compare(feeds, site, pairs[i])
    decreases |pairs|
  {
    if i < |pairs| - 1 {
      ReportsInOrder(feeds, site, pairs[..|pairs| - 1], i);
    }
  }
}
