# feed:check — a Dafny model of the Google-feed reconciliation

The `feed:check` console command (`Commands\Biglion\GoogleFeedCheck`) compares two lists of deal-offer ids, one pair of URLs at a time:

- the ids listed in a CSV feed;
- the ids shown on a paginated listing site.

For each pair it prints both URLs, the number of feed ids and the number of distinct site ids. It also prints the feed ids the site does not show.

This project models that command and proves its properties:

- **Feed ids** (`getFeedIds`):
  - The body is split on `"\n"` and the header line is dropped.
  - Each remaining line is split on `","` and its first field is taken.
  - A field that PHP's `empty()` rejects (`""` or `"0"`) is skipped.
  - Every other field is kept as its `(int)` cast, repeats included.
- **Page count** (`getPagesCount`): 1 when the page has no navigation anchors. Otherwise it is the `(int)` cast of the last anchor's inner HTML, as `html()` returns it (markup included, so an anchor whose HTML starts with a tag gives 0).
- **Site ids** (`getSiteIds`):
  - Page 1 is fetched.
  - If it has no marker element, the result is empty and nothing more is fetched.
  - Otherwise pages 2 to the page count are fetched at `siteUrl . '?page=' . n`.
  - Every marker whose `data-do_id` casts to 1 or more is collected, in page order.
  - The result is passed through `array_unique`.
- **Comparison** (`comparingCount`): both counts, plus `array_diff(feedIds, siteIds)`.
- **Driver** (`execute`):
  - It stops with the not-found message when the settings file does not exist.
  - It stops with the empty-list message when `urls` is absent or empty.
  - Otherwise it runs one comparison per configured pair, in list order.

The network and the HTML parser are inputs to the model:

- a feed host is a function from URL to the body it serves;
- a site is a function from URL to the parsed `Page`, which holds the inner HTML of each navigation anchor and the marker attributes.

Every operation that fetches also returns the URLs it fetched, in order. This makes "no requests" and "pages 2..N, in order" provable.

The PHP built-ins the command depends on are modelled with their PHP behaviour:

- module `PhpStrings`: `explode` (always at least one piece), `empty()` on strings, the `(int)` cast of a string, and the decimal text of an integer;
- module `PhpArrays`: `array_unique` (first occurrences, in order) and `array_diff` (order and repeats kept).

The `(int)` cast in detail:

- leading whitespace is skipped;
- an optional sign and the longest digit run are read, and no digits gives 0;
- a value within the 64-bit range is exact;
- a value beyond it is read as a double by PHP: a finite double is clamped to `PHP_INT_MIN`/`PHP_INT_MAX`, and a run so large that the double overflows to infinity (2^1024 - 2^970 or more, 309 digits) gives 0.

The loops of the source are methods with loop invariants, each proved equal to a specification function:

- `GetFeedIds`: the `foreach` over the rows;
- `CollectIds`: the `each` closure;
- `CollectLaterPages`: the `for` over pages;
- `CompareAll`: the `foreach` over the pairs.

The lemmas in `FeedCheckProperties` state what those functions mean. `FeedCheckScenarios` works through the example feed `"id,name\n101,A\n102,B\n,C\n103,D\n"`, a one-page site and their comparison.

Behaviour of the code worth knowing (the model follows the code):

- `empty()` also skips a first field of `"0"`, and not only the empty field.
- The page count is not always 1 or more. A last anchor whose inner HTML has no digits gives 0, and a negative label gives a negative count. In both cases only page 1 is read.
- A feed id is not filtered for positivity. A row `"-5,x"` contributes -5, and a row `"abc,x"` contributes 0.

## Model

| member | source | states |
|---|---|---|
| PhpStrings.Explode | commands/Biglion/GoogleFeedCheck.php:47 | `explode` always yields at least one piece, even for the empty text |
| PhpStrings.ExplodePieces | commands/Biglion/GoogleFeedCheck.php:50 | no piece contains the delimiter |
| PhpStrings.ExplodeCons | commands/Biglion/GoogleFeedCheck.php:50 | one character more at the front either starts a new piece (the delimiter) or extends the first piece |
| PhpStrings.PrependAppend | commands/Biglion/GoogleFeedCheck.php:47 | a character in front changes only the first piece, so it commutes with appending pieces |
| PhpStrings.ImplodePrepend | commands/Biglion/GoogleFeedCheck.php:47 | joining the pieces of `[c] + s` gives `c` followed by the joined pieces of `s` |
| PhpStrings.ExplodeLength | commands/Biglion/GoogleFeedCheck.php:47 | the number of pieces is one more than the number of delimiters in the text |
| PhpStrings.ImplodeExplode | commands/Biglion/GoogleFeedCheck.php:47 | joining the pieces with the delimiter gives back the text: nothing is lost by splitting |
| PhpStrings.ExplodeNoDelimiter | commands/Biglion/GoogleFeedCheck.php:50 | a text without the delimiter is one piece, itself |
| PhpStrings.ExplodeAppend | commands/Biglion/GoogleFeedCheck.php:47 | splitting `s + d + t` gives the pieces of `s` followed by those of `t` |
| PhpStrings.ExplodeImplode | commands/Biglion/GoogleFeedCheck.php:47 | splitting delimiter-free pieces joined by the delimiter gives back exactly those pieces |
| PhpStrings.IsEmpty | commands/Biglion/GoogleFeedCheck.php:52 | `empty()` on a string: true exactly for `""` and `"0"` (this is its definition; `RowContributionOfField` and `ExampleRowZero` state its effect on the feed) |
| PhpStrings.DigitChar | commands/Biglion/GoogleFeedCheck.php:82 | the digit character of a value below 10 is a digit and reads back as that value |
| PhpStrings.NatToDecimal | commands/Biglion/GoogleFeedCheck.php:82 | the decimal text of a number is a non-empty digit run without a leading zero |
| PhpStrings.FormatInt | commands/Biglion/GoogleFeedCheck.php:82 | the decimal text of an integer is non-empty and starts with `-` exactly when the integer is negative |
| PhpStrings.FormatIntInjective | commands/Biglion/GoogleFeedCheck.php:82 | two integers with the same decimal text are equal |
| PhpStrings.Saturate | commands/Biglion/GoogleFeedCheck.php:55 | the result lies within the 64-bit integer range |
| PhpStrings.IntOfNumeric | commands/Biglion/GoogleFeedCheck.php:55 | the integer PHP makes of the value of an integer string is a 64-bit integer, and it is the value itself whenever that lies in the 64-bit range |
| PhpStrings.LeadingDigitsAreDigits | commands/Biglion/GoogleFeedCheck.php:55 | the leading run the cast reads is made of digits only |
| PhpStrings.ParseLeadingInt | commands/Biglion/GoogleFeedCheck.php:55 | the `(int)` cast of any text is a 64-bit integer |
| PhpStrings.DecimalValueOfNat | commands/Biglion/GoogleFeedCheck.php:82 | reading back the decimal text of a number gives that number |
| PhpStrings.LeadingValueOfDigits | commands/Biglion/GoogleFeedCheck.php:55 | the digit run read from `ds + rest` has the value of `ds` when `rest` does not start with a digit |
| PhpStrings.ParseLeadingIntOfDigits | commands/Biglion/GoogleFeedCheck.php:55 | a digit run followed by non-digit text casts to `IntOfNumeric` of its value: the value itself within the 64-bit range |
| PhpStrings.ParseLeadingIntOfNegatedDigits | commands/Biglion/GoogleFeedCheck.php:55 | a minus sign and a digit run cast to `IntOfNumeric` of the negated value |
| PhpStrings.ParseLeadingIntOfPlusDigits | commands/Biglion/GoogleFeedCheck.php:55 | a plus sign before a digit run does not change the cast of the run |
| PhpStrings.LeadingDigitsOfDigits | commands/Biglion/GoogleFeedCheck.php:55 | the digit run read from `ds + rest` is all of `ds` when `rest` does not start with a digit |
| PhpStrings.ParseLeadingIntOfFormatted | commands/Biglion/GoogleFeedCheck.php:39 | the cast reads back any 64-bit integer from its decimal text, whatever non-digit text follows (so the cast inverts the `'?page=' . $page` formatting) |
| PhpStrings.ParseLeadingIntSaturatesHigh | commands/Biglion/GoogleFeedCheck.php:55 | a digit run whose value exceeds `PHP_INT_MAX` casts to `PHP_INT_MAX` while the value fits a double, and to 0 once the double overflows to infinity |
| PhpStrings.ParseLeadingIntSaturatesLow | commands/Biglion/GoogleFeedCheck.php:55 | a negative digit run below `PHP_INT_MIN` casts to `PHP_INT_MIN` while the value fits a double, and to 0 once the double overflows to minus infinity |
| PhpStrings.ParseLeadingIntNoDigits | commands/Biglion/GoogleFeedCheck.php:73 | a text with no digit, such as a non-numeric `data-do_id` or a "next" label, casts to 0 |
| PhpStrings.ParseLeadingIntNoLeadingDigit | commands/Biglion/GoogleFeedCheck.php:39 | a text that after its whitespace starts with neither a digit nor a sign and a digit casts to 0, whatever digits come later |
| PhpStrings.SkipWhitespaceIsSuffix | commands/Biglion/GoogleFeedCheck.php:55 | skipping leading whitespace leaves a suffix of the text |
| PhpStrings.ParseLeadingIntSkipsWhitespace | commands/Biglion/GoogleFeedCheck.php:55 | a leading whitespace character does not change the cast |
| PhpArrays.FirstIndex | commands/Biglion/GoogleFeedCheck.php:95 | the index returned holds the value, and no earlier index does |
| PhpArrays.ArrayUnique | commands/Biglion/GoogleFeedCheck.php:95 | `array_unique` is never longer than its input; `ArrayUniqueSpec` and `ArrayUniqueOrder` state which values it keeps and in what order |
| PhpArrays.ArrayUniqueSpec | commands/Biglion/GoogleFeedCheck.php:95 | `array_unique` leaves no repeated value and holds exactly the values of its input |
| PhpArrays.ArrayUniqueOrder | commands/Biglion/GoogleFeedCheck.php:95 | `array_unique` keeps only values of its input, in the order of their first occurrence |
| PhpArrays.ArrayUniqueOfDistinct | commands/Biglion/GoogleFeedCheck.php:95 | `array_unique` leaves a list without repeats unchanged |
| PhpArrays.ArrayUniqueIdempotent | commands/Biglion/GoogleFeedCheck.php:95 | applying `array_unique` twice is applying it once |
| PhpArrays.ArrayDiff | commands/Biglion/GoogleFeedCheck.php:114 | `array_diff` is never longer than its first argument |
| PhpArrays.ArrayDiffSpec | commands/Biglion/GoogleFeedCheck.php:114 | `array_diff(a, b)` is a subsequence of `a`, holds `x` iff `a` does and `b` does not, and holds each such `x` as many times as `a` |
| PhpArrays.FirstIndexOfPrefix | commands/Biglion/GoogleFeedCheck.php:95 | a value's first position in a prefix is its first position in the whole list |
| GoogleFeedCheck.PagesCount | commands/Biglion/GoogleFeedCheck.php:35-42 | the page count is a 64-bit integer, and it is 1 when there are no navigation anchors |
| GoogleFeedCheck.FirstField | commands/Biglion/GoogleFeedCheck.php:50-51 | `$fields[0]`, the first piece of `explode(',', $row)` (its definition; `FirstFieldSpec` states what the piece is) |
| GoogleFeedCheck.FirstFieldSpec | commands/Biglion/GoogleFeedCheck.php:50-51 | `$fields[0]` is the prefix of the row before its first comma, or the whole row when it has none |
| GoogleFeedCheck.RowContribution | commands/Biglion/GoogleFeedCheck.php:50-55 | what one data row adds: nothing when its first field is PHP-empty, otherwise the cast of that field (its definition; `RowContributionOfField` states it for every row `field,tail`) |
| GoogleFeedCheck.RowIds | commands/Biglion/GoogleFeedCheck.php:49-56 | no more ids than rows |
| GoogleFeedCheck.FeedIds | commands/Biglion/GoogleFeedCheck.php:44-58 | the ids of a feed body are those of its lines after the first (its definition; `FeedIdsOfLines`, `FeedIdsHeaderOnly` and `RowIdsMembers` state what they are) |
| GoogleFeedCheck.GetFeedIds | commands/Biglion/GoogleFeedCheck.php:44-58 | the loop over the data rows computes exactly `FeedIds` of the body: each row's contribution, in row order |
| GoogleFeedCheck.AttrToInt | commands/Biglion/GoogleFeedCheck.php:73 | the cast of a `data-do_id` attribute is a 64-bit integer, and 0 when the attribute is missing |
| GoogleFeedCheck.ValidIds | commands/Biglion/GoogleFeedCheck.php:72-78 | no more ids than marker elements |
| GoogleFeedCheck.CollectIds | commands/Biglion/GoogleFeedCheck.php:72-78 | the `each` closure appends exactly the page's valid ids, in element order, to what was collected before |
| GoogleFeedCheck.PageUrl | commands/Biglion/GoogleFeedCheck.php:82 | the URL of a page starts with the site URL and is longer than it |
| GoogleFeedCheck.PageUrls | commands/Biglion/GoogleFeedCheck.php:80-82 | the URLs of a page range, in page order (its definition; `PageUrlsSpec` states their number and each one) |
| GoogleFeedCheck.PageUrlsSpec | commands/Biglion/GoogleFeedCheck.php:81-82 | the URLs of pages `first` to `last` are `siteUrl?page=n` for each n, in increasing order, and none when `last < first` |
| GoogleFeedCheck.IdsOfPages | commands/Biglion/GoogleFeedCheck.php:80-94 | the valid ids of a page range, page after page (its definition; `IdsOfPagesSpec` states which ids they are) |
| GoogleFeedCheck.CollectedIds | commands/Biglion/GoogleFeedCheck.php:60-94 | what `getSiteIds` collects before `array_unique` (its definition; `SiteIdsSpec` states which ids they are) |
| GoogleFeedCheck.SiteIds | commands/Biglion/GoogleFeedCheck.php:95-96 | `array_unique` of the collected ids (its definition; `SiteIdsSpec` and `SiteIdsOrder` state what it holds and in what order) |
| GoogleFeedCheck.SiteFetches | commands/Biglion/GoogleFeedCheck.php:62-84 | `getSiteIds` always fetches at least one URL, and page 1 first |
| GoogleFeedCheck.CollectLaterPages | commands/Biglion/GoogleFeedCheck.php:80-94 | the page loop appends the valid ids of pages 2 to the count, in page order, and fetches exactly those pages in order (none when the count is at most 1) |
| GoogleFeedCheck.GetSiteIds | commands/Biglion/GoogleFeedCheck.php:60-97 | `getSiteIds` returns `SiteIds` and fetches `SiteFetches`: page 1 only when page 1 has no marker, otherwise pages 1 to the count |
| GoogleFeedCheck.Compare | commands/Biglion/GoogleFeedCheck.php:104-115 | a report carries the pair's two URLs, and its missing ids are never more than the feed items |
| GoogleFeedCheck.CompareFetches | commands/Biglion/GoogleFeedCheck.php:104-108 | one comparison fetches at least two URLs: the feed first, then page 1 of the site |
| GoogleFeedCheck.ComparingCount | commands/Biglion/GoogleFeedCheck.php:104-121 | one comparison reports both counts and `array_diff(feed ids, site ids)`, fetching the feed and then the site pages |
| GoogleFeedCheck.Reports | commands/Biglion/GoogleFeedCheck.php:142-144 | one report per configured pair |
| GoogleFeedCheck.RunFetches | commands/Biglion/GoogleFeedCheck.php:142-144 | a run over the pairs fetches at least two URLs per pair |
| GoogleFeedCheck.RunStep | commands/Biglion/GoogleFeedCheck.php:142-144 | one more pair appends its report and its fetches to those of the pairs before it |
| GoogleFeedCheck.CompareAll | commands/Biglion/GoogleFeedCheck.php:142-144 | the loop over the pairs produces one report per pair in list order, and its requests are each pair's fetches, pair after pair |
| GoogleFeedCheck.Execute | commands/Biglion/GoogleFeedCheck.php:123-145 | a missing file gives the not-found outcome and an absent or empty list gives the empty-list outcome, both with zero requests; otherwise every pair is compared in order |
| FeedCheckProperties.RowIdsConcat | commands/Biglion/GoogleFeedCheck.php:49-56 | the ids of two blocks of rows are the ids of the first block followed by those of the second |
| FeedCheckProperties.FeedIdsHeaderOnly | commands/Biglion/GoogleFeedCheck.php:47 | a body of only a header line yields no ids |
| FeedCheckProperties.FeedIdsAppendLine | commands/Biglion/GoogleFeedCheck.php:47-56 | appending one line to a body appends exactly that line's contribution to the ids |
| FeedCheckProperties.FeedIdsOfLines | commands/Biglion/GoogleFeedCheck.php:47-56 | the header line never contributes: a body of a header and data rows yields exactly the ids of the data rows |
| FeedCheckProperties.FirstFieldOf | commands/Biglion/GoogleFeedCheck.php:50-51 | the first field of `field,tail`, and of a comma-free `field`, is `field` |
| FeedCheckProperties.RowContributionOfField | commands/Biglion/GoogleFeedCheck.php:50-55 | a row contributes nothing when its first field is `""` or `"0"`, and otherwise exactly the cast of that field |
| FeedCheckProperties.RowIdsHas | commands/Biglion/GoogleFeedCheck.php:49-56 | an id some data row contributes is among the feed ids |
| FeedCheckProperties.RowIdsSource | commands/Biglion/GoogleFeedCheck.php:49-56 | every feed id is contributed by some data row |
| FeedCheckProperties.RowIdsMembers | commands/Biglion/GoogleFeedCheck.php:49-56 | an id is among the feed ids iff some data row contributes it (with `RowContributionOfField`: iff it is the cast of the non-empty first field of some data row) |
| FeedCheckProperties.PagesCountOfLabel | commands/Biglion/GoogleFeedCheck.php:38-40 | the count is the number the last anchor's inner HTML starts with, whatever follows it, 0 and negative numbers included |
| FeedCheckProperties.PagesCountOfUnnumberedLabel | commands/Biglion/GoogleFeedCheck.php:38-40 | a last anchor whose inner HTML has no digit gives a page count of 0 |
| FeedCheckProperties.PagesCountOfTaggedLabel | commands/Biglion/GoogleFeedCheck.php:38-40 | a last anchor whose inner HTML starts with markup (`<span>5</span>`) gives a page count of 0, so only page 1 is read |
| FeedCheckProperties.ValidIdsSpec | commands/Biglion/GoogleFeedCheck.php:72-78 | every valid id is at least 1, and an id is valid iff it is at least 1 and some marker carries it |
| FeedCheckProperties.ValidIdsOfInvalid | commands/Biglion/GoogleFeedCheck.php:74-76 | markers that all cast below 1 yield no ids |
| FeedCheckProperties.IdsOfPagesSpec | commands/Biglion/GoogleFeedCheck.php:80-94 | the ids collected from a page range are all at least 1, and an id is collected iff some page in the range carries it |
| FeedCheckProperties.SiteIdsOfEmptyFirstPage | commands/Biglion/GoogleFeedCheck.php:68-71 | no marker on page 1 gives no ids, and only page 1 is fetched |
| FeedCheckProperties.SiteIdsOfInvalidFirstPage | commands/Biglion/GoogleFeedCheck.php:68-94 | only the number of markers on page 1 decides the early stop: a page 1 whose markers are all invalid still leads to pages 2 onwards |
| FeedCheckProperties.SiteIdsSpec | commands/Biglion/GoogleFeedCheck.php:60-97 | the site ids have no repeats and are all at least 1. An id is one of them iff page 1 has a marker and the id (at least 1) is carried by page 1 or by a page from 2 to the count |
| FeedCheckProperties.SiteIdsOrder | commands/Biglion/GoogleFeedCheck.php:95 | the site ids come in the order of their first occurrence across the pages |
| FeedCheckProperties.SiteFetchesSpec | commands/Biglion/GoogleFeedCheck.php:80-94 | page 1 is fetched first. Then exactly pages 2 to the count are fetched, in order: one fetch when page 1 is empty or the count is at most 1, and `count` fetches otherwise |
| FeedCheckProperties.PageUrlInjective | commands/Biglion/GoogleFeedCheck.php:81-82 | two page numbers give the same URL only when they are equal |
| FeedCheckProperties.PageUrlsAt | commands/Biglion/GoogleFeedCheck.php:81-82 | the k-th URL of a page range is that of page `first + k` |
| FeedCheckProperties.PageUrlsDiffer | commands/Biglion/GoogleFeedCheck.php:80-84 | two positions of a page range hold different URLs |
| FeedCheckProperties.PageUrlsDistinct | commands/Biglion/GoogleFeedCheck.php:80-84 | the page loop fetches no URL twice |
| FeedCheckProperties.PageUrlsAvoidFirst | commands/Biglion/GoogleFeedCheck.php:80-84 | the page loop never fetches page 1's URL again |
| FeedCheckProperties.CompareSpec | commands/Biglion/GoogleFeedCheck.php:104-115 | a report carries both URLs and both counts. Its missing ids are a subsequence of the feed ids that holds exactly the feed entries absent from the site ids, with their repeats, and is no longer than the feed count |
| FeedCheckProperties.ReportsInOrder | commands/Biglion/GoogleFeedCheck.php:142-144 | the i-th report of a run is the comparison of the i-th configured pair |
| FeedCheckScenarios.CastsOfExampleIds | commands/Biglion/GoogleFeedCheck.php:55 | `"101"`, `"102"` and `"103"` cast to 101, 102 and 103 |
| FeedCheckScenarios.CastsOfInvalidIds | commands/Biglion/GoogleFeedCheck.php:73 | `"0"`, `"-5"` and `"abc"` cast to 0, -5 and 0 |
| FeedCheckScenarios.CastsOfWrappedNumbers | commands/Biglion/GoogleFeedCheck.php:39 | `"<span>5</span>"` and `"page 5"` cast to 0 |
| FeedCheckScenarios.ExampleRowsKept | commands/Biglion/GoogleFeedCheck.php:50-55 | the rows `101,A`, `102,B` and `103,D` contribute their ids |
| FeedCheckScenarios.ExampleRowsSkipped | commands/Biglion/GoogleFeedCheck.php:52-54 | the row `,C` and the blank line contribute nothing |
| FeedCheckScenarios.ExampleRowZero | commands/Biglion/GoogleFeedCheck.php:52-54 | the row `0,zero` contributes nothing, because `empty()` rejects `"0"` |
| FeedCheckScenarios.ExampleRowNotANumber | commands/Biglion/GoogleFeedCheck.php:55 | the row `abc,x` contributes the id 0 |
| FeedCheckScenarios.RowIdsOfFive | commands/Biglion/GoogleFeedCheck.php:49-56 | five rows yield their contributions in row order |
| FeedCheckScenarios.ExampleFeedRows | commands/Biglion/GoogleFeedCheck.php:49-56 | the example's data rows yield 101, 102, 103 |
| FeedCheckScenarios.ExampleFeed | commands/Biglion/GoogleFeedCheck.php:44-58 | the example feed's lines yield 101, 102, 103 |
| FeedCheckScenarios.ExampleFeedText | commands/Biglion/GoogleFeedCheck.php:47 | the example's lines joined by newlines are the example feed text |
| FeedCheckScenarios.ExampleFeedIds | commands/Biglion/GoogleFeedCheck.php:44-58 | the feed `"id,name\n101,A\n102,B\n,C\n103,D\n"` yields 101, 102, 103 |
| FeedCheckScenarios.ValidIdsOfFour | commands/Biglion/GoogleFeedCheck.php:72-78 | four markers yield their valid ids in element order |
| FeedCheckScenarios.ExampleMarkerIds | commands/Biglion/GoogleFeedCheck.php:72-78 | the single markers `101` and `102` are kept, and `0` and `-5` are dropped |
| FeedCheckScenarios.ExampleMarkers | commands/Biglion/GoogleFeedCheck.php:72-78 | markers `101`, `102`, `0`, `-5` yield 101 and 102 |
| FeedCheckScenarios.ExampleSite | commands/Biglion/GoogleFeedCheck.php:60-97 | a site whose page 1 has those markers and no navigation yields 101, 102, and only page 1 is fetched |
| FeedCheckScenarios.ExampleComparison | commands/Biglion/GoogleFeedCheck.php:104-121 | comparing the example feed with that site reports 3 feed items, 2 site items and the missing id 103, fetching the feed and page 1 |

## Left out

- HTTP (`file_get_contents`) is a function parameter, so a failed fetch, which PHP reports as `false`, is not modelled. The parameter also cannot answer the same URL differently on two calls.
- The HTML parser and its CSS selectors (`div.page_pavigation .pn_right a`, `div.ec_track_item`) are not modelled. A page is given as the inner HTML of its anchors and its marker attributes, and the page count reads the last anchor's inner HTML as given.
- The YAML parser is not modelled. The settings file is given as missing, or present with its `urls` list, absent or given. Pair entries without a `feed` or `site` key are not modelled.
- The printed text is not modelled: the `echo` lines, `print_r` and the messages. A run outcome or report holds the values they print, and the difference count is the length of `missing`.
- `configure`, the console argument handling and the unused `$urlsMap` default are not modelled: they have no logic to model.
- GoogleFeedCheck.CollectLaterPages: stops after page `PHP_INT_MAX` when the page count is `PHP_INT_MAX` (a last anchor of 2^63 - 1 or any larger digit run below the double overflow). In PHP, `$page++` at that point turns `$page` into the float 2^63, which still passes `$page <= $pagesCount`, so the loop never ends. The model uses unbounded integers for the loop counter. The difference shows only after 2^63 - 2 requests.
- FeedCheckProperties.SiteFetchesSpec: rests on `CollectLaterPages`, so for a page count of `PHP_INT_MAX` it states the model's finite fetch list, not PHP's endless loop.
- GoogleFeedCheck.GetSiteIds: for the same reason, it returns for a page count of `PHP_INT_MAX`, where PHP does not.
- PhpArrays.ArrayUnique: models only the values and their order. It does not model the keys PHP keeps, which the command never reads (it uses only `count` and `array_diff`).
- PhpStrings.ParseLeadingInt: does not model numeric strings with a fraction or exponent (`"1e3"`, `".5e1"`). Those go through a float in PHP, while the model reads only the leading digit run. On a fraction such as `"1.9"` it agrees with PHP and gives 1.
- PhpStrings.IntOfNumeric: follows the numeric-string reading of PHP 7.1 and later, where an integer string beyond the 64-bit range becomes a double and then goes through the capped conversion. The threshold `DoubleOverflow` assumes the correctly rounded string-to-double conversion PHP uses. Older PHP versions, which clamp every such run, are not distinguished.
- PhpStrings.IsWhitespace: takes its whitespace set from PHP's numeric-string scanner (space, `\t`, `\n`, `\r`, `\v`, `\f`). PHP versions that differ on this set are not distinguished.
