/**
  Worked examples of the feed check: a small feed with an empty-id row, a
  one-page site with invalid marker ids, and the report comparing the two.
 */
module FeedCheckScenarios {
  import opened Wrappers
  import opened PhpStrings
  import opened PhpArrays
  import opened GoogleFeedCheck
  import opened FeedCheckProperties

  /** The cast of the ids used in the examples. */
  lemma CastsOfExampleIds()
    ensures ParseLeadingInt("101") == 101
    ensures ParseLeadingInt("102") == 102
    ensures ParseLeadingInt("103") == 103
  {
    assert NatToDecimal(10) == "10";
    assert NatToDecimal(101) == "101";
    assert NatToDecimal(102) == "102";
    assert NatToDecimal(103) == "103";
    ParseLeadingIntOfFormatted(101, "");
    ParseLeadingIntOfFormatted(102, "");
    ParseLeadingIntOfFormatted(103, "");
    assert "101" + "" == "101" && "102" + "" == "102" && "103" + "" == "103";
  }

  /** The cast of the invalid ids used in the examples. */
  lemma CastsOfInvalidIds()
    ensures ParseLeadingInt("0") == 0
    ensures ParseLeadingInt("-5") == -5
    ensures ParseLeadingInt("abc") == 0
  {
    assert FormatInt(-5) == "-5";
    ParseLeadingIntOfFormatted(0, "");
    ParseLeadingIntOfFormatted(-5, "");
    assert "0" + "" == "0" && "-5" + "" == "-5";
    ParseLeadingIntNoDigits("abc");
  }

  /** Digits behind markup or words are not read: `"<span>5</span>"` and
      `"page 5"` cast to 0. */
  lemma CastsOfWrappedNumbers()
    ensures ParseLeadingInt("<span>5</span>") == 0
    ensures ParseLeadingInt("page 5") == 0
  {
    ParseLeadingIntNoLeadingDigit("<span>5</span>");
    ParseLeadingIntNoLeadingDigit("page 5");
  }

  /** Rows whose first field is a number contribute that number. */
  lemma ExampleRowsKept()
    ensures RowContribution("101,A") == [101]
    ensures RowContribution("102,B") == [102]
    ensures RowContribution("103,D") == [103]
  {
    assert "101" + "," + "A" == "101,A";
    assert "102" + "," + "B" == "102,B";
    assert "103" + "," + "D" == "103,D";
    CastsOfExampleIds();
    RowContributionOfField("101", "A");
    RowContributionOfField("102", "B");
    RowContributionOfField("103", "D");
  }

  /** A row with an empty first field, and a blank line, contribute nothing. */
  lemma ExampleRowsSkipped()
    ensures RowContribution(",C") == []
    ensures RowContribution("") == []
  {
    assert "" + "," + "C" == ",C";
    RowContributionOfField("", "C");
  }

  /** A row whose first field is "0" contributes nothing, as PHP's `empty()` rejects "0". */
  lemma ExampleRowZero()
    ensures RowContribution("0,zero") == []
  {
    assert "0" + "," + "zero" == "0,zero";
    RowContributionOfField("0", "zero");
  }

  /** A first field that is not a number is kept, as 0. */
  lemma ExampleRowNotANumber()
    ensures RowContribution("abc,x") == [0]
  {
    assert "abc" + "," + "x" == "abc,x";
    CastsOfInvalidIds();
    RowContributionOfField("abc", "x");
  }

  /** Five rows yield the contributions of each, in order. */
  lemma RowIdsOfFive(a: string, b: string, c: string, d: string, e: string)
    ensures RowIds([a, b, c, d, e]) ==
      RowContribution(a) + RowContribution(b) + RowContribution(c) + RowContribution(d) + RowContribution(e)
  {
    var rows := [a, b, c, d, e];
    assert rows[..1][..0] == [];
    assert RowIds(rows[..1]) == [] + RowContribution(a);
    assert [] + RowContribution(a) == RowContribution(a);
    assert rows[..2][..1] == rows[..1];
    assert RowIds(rows[..2]) == RowContribution(a) + RowContribution(b);
    assert rows[..3][..2] == rows[..2];
    assert RowIds(rows[..3]) == RowContribution(a) + RowContribution(b) + RowContribution(c);
    assert rows[..4][..3] == rows[..3];
    assert RowIds(rows[..4]) == RowContribution(a) + RowContribution(b) + RowContribution(c) + RowContribution(d);
    assert rows[..4] == rows[..|rows| - 1];
  }

  /** The data rows of the example feed: three numbered rows, a row with an
      empty id, and the empty text after the final newline. */
  lemma ExampleFeedRows()
    ensures RowIds(["101,A", "102,B", ",C", "103,D", ""]) == [101, 102, 103]
  {
    RowIdsOfFive("101,A", "102,B", ",C", "103,D", "");
    ExampleRowsKept();
    ExampleRowsSkipped();
    assert [101] + [102] + [] + [103] + [] == [101, 102, 103];
  }

  /** The feed "id,name\n101,A\n102,B\n,C\n103,D\n", split into its lines, yields
      101, 102, 103: the header, the row with an empty id and the final empty
      line are skipped. */
  lemma ExampleFeed()
    ensures FeedIds(Implode('\n', ["id,name", "101,A", "102,B", ",C", "103,D", ""])) == [101, 102, 103]
  {
    var rows := ["101,A", "102,B", ",C", "103,D", ""];
    assert forall i :: 0 <= i < |rows| ==> '\n' !in rows[i];
    assert ["id,name"] + rows == ["id,name", "101,A", "102,B", ",C", "103,D", ""];
    FeedIdsOfLines("id,name", rows);
    ExampleFeedRows();
  }

  /** Those lines joined by newlines are the example feed text. */
  lemma ExampleFeedText()
    ensures Implode('\n', ["id,name", "101,A", "102,B", ",C", "103,D", ""]) == "id,name\n101,A\n102,B\n,C\n103,D\n"
  {
    var lines := ["id,name", "101,A", "102,B", ",C", "103,D", ""];
    assert Implode('\n', lines[5..]) == "";
    assert Implode('\n', lines[4..]) == "103,D\n";
    assert Implode('\n', lines[3..]) == ",C\n103,D\n";
    assert Implode('\n', lines[2..]) == "102,B\n,C\n103,D\n";
    assert Implode('\n', lines[1..]) == "101,A\n102,B\n,C\n103,D\n";
  }

  /** The feed ids of the example feed text itself. */
  lemma ExampleFeedIds(content: string)
    requires content == "id,name\n101,A\n102,B\n,C\n103,D\n"
    ensures FeedIds(content) == [101, 102, 103]
  {
    ExampleFeedText();
    ExampleFeed();
  }

  /** The one page of the example site: four markers, two of them invalid,
      and no navigation. */
  function ExamplePage(): Page
  {
    Page([], [Some("101"), Some("102"), Some("0"), Some("-5")])
  }

  /** Four markers yield the valid ids of each, in order. */
  lemma ValidIdsOfFour(a: Option<string>, b: Option<string>, c: Option<string>, d: Option<string>)
    ensures ValidIds([a, b, c, d]) == ValidIds([a]) + ValidIds([b]) + ValidIds([c]) + ValidIds([d])
  {
    var markers := [a, b, c, d];
    assert [a][..0] == [] && [b][..0] == [] && [c][..0] == [] && [d][..0] == [];
    assert markers[..1] == [a];
    assert markers[..2][..1] == markers[..1];
    assert ValidIds(markers[..2]) == ValidIds([a]) + ValidIds([b]) by {
      assert ValidIds([b]) == [] + (if AttrToInt(b) < 1 then [] else [AttrToInt(b)]);
    }
    assert markers[..3][..2] == markers[..2];
    assert ValidIds(markers[..3]) == ValidIds([a]) + ValidIds([b]) + ValidIds([c]) by {
      assert ValidIds([c]) == [] + (if AttrToInt(c) < 1 then [] else [AttrToInt(c)]);
    }
    assert markers[..3] == markers[..|markers| - 1];
    assert ValidIds([d]) == [] + (if AttrToInt(d) < 1 then [] else [AttrToInt(d)]);
  }

  /** Each example marker on its own: 101 and 102 are kept, 0 and -5 dropped. */
  lemma ExampleMarkerIds()
    ensures ValidIds([Some("101")]) == [101]
    ensures ValidIds([Some("102")]) == [102]
    ensures ValidIds([Some("0")]) == []
    ensures ValidIds([Some("-5")]) == []
  {
    CastsOfExampleIds();
    CastsOfInvalidIds();
  }

  /** The markers of the example page carry the ids 101 and 102; the markers
      casting to 0 and -5 are dropped. */
  lemma ExampleMarkers()
    ensures ValidIds(ExamplePage().markers) == [101, 102]
  {
    ValidIdsOfFour(Some("101"), Some("102"), Some("0"), Some("-5"));
    ExampleMarkerIds();
    assert [101] + [102] + [] + [] == [101, 102];
  }

  /** A site whose first page is `ExamplePage` yields 101 and 102 and fetches
      nothing beyond that page. */
  lemma ExampleSite(site: Site, siteUrl: string)
    requires site(siteUrl) == ExamplePage()
    ensures SiteIds(site, siteUrl) == [101, 102]
    ensures SiteFetches(site, siteUrl) == [siteUrl]
  {
    ExampleMarkers();
    assert PagesCount(site(siteUrl)) == 1;
    assert IdsOfPages(site, siteUrl, 2, 1) == [];
    assert PageUrls(siteUrl, 2, 1) == [];
    assert CollectedIds(site, siteUrl) == [101, 102] + [];
    assert [101, 102] + [] == [101, 102];
    ArrayUniqueOfDistinct([101, 102]);
  }

  /** Comparing the example feed with the example site reports 3 feed items,
      2 site items and the single missing id 103. */
  lemma ExampleComparison(feeds: FeedHost, site: Site, pair: UrlPair)
    requires feeds(pair.feed) == "id,name\n101,A\n102,B\n,C\n103,D\n"
    requires site(pair.site) == ExamplePage()
    ensures Compare(feeds, site, pair) == Report(pair.feed, pair.site, 3, 2, [103])
    ensures CompareFetches(site, pair) == [pair.feed, pair.site]
  {
    ExampleFeedIds(feeds(pair.feed));
    ExampleSite(site, pair.site);
    assert ArrayDiff([101, 102, 103], [101, 102]) == [103];
  }
}
