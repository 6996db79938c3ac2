# Newest-first check of a paginated listing, in Dafny

This project models the logic of `verifyPostSort.ts`. That module checks that the "newest" listing of Hacker News is sorted newest-first by rank. It works in three stages:

- **Extraction** (`extraction.dfy`, text patterns in `patterns.dfy`). A loaded page shows two lists:
  - primary rows, each with a post id and a displayed rank such as `"17."`;
  - age elements, each with a `title` holding a timestamp `dddd-dd-ddTdd:dd:dd` and a link whose `href` holds the post id.

  Each age element yields one record `PostDetails(postId, rank, postDate)`:
  - the id is the first run of digits in the link;
  - the date is that of the leftmost timestamp in the title;
  - the rank is the rank text of the first primary row with that id.

  When no row matches, the record is still appended, with an absent rank. Records go onto an array the caller owns, `PostDetailsArray`. The extraction returns that same array.
- **Accumulation** (`accumulation.dfy`). The loop extracts the first page. While the array holds at most `maxPostsToLookup` records (default 100), it clicks "More" and extracts again. It then keeps the records whose numeric rank is at most `maxPostsToLookup`. The browser becomes a page source `pages: nat -> Page`: `pages(c)` is the page after the c-th click. The model needs one thing of the source: some number of loaded pages holds more than `maxPostsToLookup` records. Sources whose pages are never empty always get there; others may too, even with empty pages.
- **Sort predicate** (`sort_check.dfy`). For i from 2 to the number of records, it looks up the first record of rank i and the first of rank i - 1. It answers "not sorted" at the first i whose date is not strictly earlier than its predecessor's. The rules:
  - An Invalid Date compares false, like `NaN`, so it never causes "not sorted".
  - A rank with no record makes the dereference throw. The model returns that as `Err(MissingRank(k))`.
  - The loop's bound is the number of records, not the rank bound. `OverlongFilteredNeverSorted` shows the effect: when duplicate ranks make the filtered array longer than the bound, rank bound + 1 is looked up, and the answer can never be "sorted".

Three facts about the code shape the model:
- An age element whose id matches no primary row is still appended, with an absent rank (`verifyPostSort.ts`, lines 40-45).
- The loop has no guard against a page that adds nothing, and nothing removes records that repeat an id.
- A rank with no record makes the dereference at line 101 throw. The model returns that as an `Err` outcome.

`wrappers.dfy` holds `Option` and `Result`.

## Model

| member | source | states |
|---|---|---|
| `Patterns.FirstDigitRun` | src/modules/test_hacker_news_site/verifyPostSort.ts:38 | the derived id is absent exactly when the href has no digit; otherwise it is the leftmost maximal run of digits |
| `Patterns.FirstMatchFrom` | src/modules/test_hacker_news_site/verifyPostSort.ts:34 | the result is the leftmost position from `from` on where `dddd-dd-ddTdd:dd:dd` matches; no earlier position matches, and none at all when it is absent |
| `Patterns.FirstTimestamp` | src/modules/test_hacker_news_site/verifyPostSort.ts:34 | the timestamp is absent exactly when the title has no match; otherwise it is the 19 characters at the leftmost match |
| `Patterns.ParseDate` | src/modules/test_hacker_news_site/verifyPostSort.ts:44 | `new Date(age)`: an absent match gives an Invalid Date; any date produced has fields in range |
| `Patterns.ParseFormatRoundTrip` | src/modules/test_hacker_news_site/verifyPostSort.ts:44 | parsing the `YYYY-MM-DDTHH:mm:ss` text of a valid date gives that date back |
| `Patterns.FormatParseRoundTrip` | src/modules/test_hacker_news_site/verifyPostSort.ts:44 | a timestamp text that parses is exactly the text of the date it parses to, so parsing loses nothing |
| `Patterns.BeforeStrictTotalOrder` | src/modules/test_hacker_news_site/verifyPostSort.ts:101 | the date order the comparison uses is irreflexive, asymmetric, total on distinct dates and transitive |
| `Patterns.NumericRank` | src/modules/test_hacker_news_site/verifyPostSort.ts:79 | `Number(rank)` is a number only for a present rank text, and that number is non-negative |
| `Patterns.NumericRankIff` | src/modules/test_hacker_news_site/verifyPostSort.ts:79 | a present rank text reads as n exactly when it is empty and n is 0, or it is n written in w >= 1 digits (leading zeros allowed), optionally followed by one period |
| `Patterns.NumericRankSound` | src/modules/test_hacker_news_site/verifyPostSort.ts:79 | every rank text that reads as a number is empty, or digits with at most one trailing period, and those digits are the number |
| `Patterns.NumericRankComplete` | src/modules/test_hacker_news_site/verifyPostSort.ts:79 | every text of w >= 1 digits, with or without a trailing period, reads as the number those digits write |
| `Patterns.RankTextRoundTrip` | src/modules/test_hacker_news_site/verifyPostSort.ts:26 | a displayed rank `"n."`, or `"n"` without the period, reads back as `n` |
| `Extraction.FindRank` | src/modules/test_hacker_news_site/verifyPostSort.ts:40 | `find` on the primary rows: the rank is absent exactly when the id is absent or no row has it; otherwise it is the rank text of the first row with that id |
| `Extraction.PostDetailsArray.Push` | src/modules/test_hacker_news_site/verifyPostSort.ts:41-45 | appending a record adds it at the end and changes nothing else |
| `Extraction.GetHackerNewsPagePostsDetails` | src/modules/test_hacker_news_site/verifyPostSort.ts:11-49 | returns the array it was given; the array is its old contents followed by exactly the page's records, one per age element, in document order |
| `Extraction.PageRecordsJoin` | src/modules/test_hacker_news_site/verifyPostSort.ts:30-46 | record k comes from age element k: its id from the link, its date from the title, its rank from the first matching primary row; absent when no row matches, and the record is still there |
| `Accumulation.NeverEmptyFinishes` | src/modules/test_hacker_news_site/verifyPostSort.ts:70-77 | when every page has an age element, the array eventually holds more than any bound, so the loop stops |
| `Accumulation.FirstPageSuffices` | src/modules/test_hacker_news_site/verifyPostSort.ts:68-70 | a first page with more than `max` age elements stops the loop with no click, whatever later pages hold |
| `Accumulation.ClicksFrom` | src/modules/test_hacker_news_site/verifyPostSort.ts:70-77 | from `c` clicks on, the loop stops after the least number of clicks at which the array holds more than `max` records |
| `Accumulation.Clicks` | src/modules/test_hacker_news_site/verifyPostSort.ts:68-77 | the loop's click count: afterwards the array holds more than `max` records, and after any earlier click it held at most `max` |
| `Accumulation.GetPostDetailsUntilPostRank` | src/modules/test_hacker_news_site/verifyPostSort.ts:57-81 | terminates whenever some number of loaded pages holds more than the bound; returns the filter of the records of the first `Clicks + 1` pages in load order |
| `Accumulation.LoadedAppends` | src/modules/test_hacker_news_site/verifyPostSort.ts:68-76 | later extractions only append: what the array held before stays its prefix |
| `Accumulation.UniformClicks` | src/modules/test_hacker_news_site/verifyPostSort.ts:58-77 | with exactly k >= 1 records per page, the loop makes `max / k` clicks (none for a negative max), the least c with (c + 1) * k > max, and holds (c + 1) * k records |
| `Accumulation.ThirtyPerPageExample` | src/modules/test_hacker_news_site/verifyPostSort.ts:58 | with 30 posts per page and the default bound of 100, the loop makes 3 clicks and holds 120 records |
| `Accumulation.FilterByRank` | src/modules/test_hacker_news_site/verifyPostSort.ts:78-80 | a record is in the result exactly when it is in the input and its numeric rank is at most `max`; the result is no longer than the input |
| `Accumulation.FilterConcat` | src/modules/test_hacker_news_site/verifyPostSort.ts:78-80 | filtering a concatenation is concatenating the filters, so the filter keeps insertion order |
| `Accumulation.FilterIsSubsequence` | src/modules/test_hacker_news_site/verifyPostSort.ts:78-80 | the filtered array is an order-preserving subsequence of the accumulated one |
| `Accumulation.NonNumericRankDropped` | src/modules/test_hacker_news_site/verifyPostSort.ts:79 | a record whose rank is absent or not a number never survives the filter |
| `SortCheck.FindByRank` | src/modules/test_hacker_news_site/verifyPostSort.ts:95-100 | `find` by numeric rank: absent exactly when no record has the rank; otherwise the first-inserted record with it |
| `SortCheck.CheckSorted` | src/modules/test_hacker_news_site/verifyPostSort.ts:94 | fewer than two records are always reported sorted |
| `SortCheck.CheckArrayPostDetailsSorted` | src/modules/test_hacker_news_site/verifyPostSort.ts:89-112 | the early-return loop gives the same outcome as the step-by-step definition of the check |
| `SortCheck.SortedIff` | src/modules/test_hacker_news_site/verifyPostSort.ts:94-111 | the answer is "sorted" exactly when every index 2..number of records finds both records and no date that is not strictly earlier |
| `SortCheck.NotSortedIff` | src/modules/test_hacker_news_site/verifyPostSort.ts:101-103 | the answer is "not sorted" exactly when the first index that does not pass finds a date not strictly earlier than its predecessor's |
| `SortCheck.MissingIff` | src/modules/test_hacker_news_site/verifyPostSort.ts:95-101 | the check fails on rank m exactly when the first index that does not pass finds no record of rank m |
| `SortCheck.InvalidDateNeverDisorder` | src/modules/test_hacker_news_site/verifyPostSort.ts:101 | when both records exist but either date is invalid, the index passes |
| `SortCheck.FirstInsertedWins` | src/modules/test_hacker_news_site/verifyPostSort.ts:95-100 | records appended after one of the same rank never change which record the lookup finds |
| `SortCheck.MissingRankNeverSorted` | src/modules/test_hacker_news_site/verifyPostSort.ts:94-103 | with two or more records, a rank in 1..number of records that no record carries means the answer is never "sorted" |
| `SortCheck.SortedMeansNewestFirst` | src/modules/test_hacker_news_site/verifyPostSort.ts:94-111 | when the answer is "sorted" and every looked-up date is valid, a larger rank always has a strictly earlier date than a smaller one |
| `SortCheck.OverlongFilteredNeverSorted` | src/modules/test_hacker_news_site/verifyPostSort.ts:78-80 | when the filtered array is longer than a bound of 1 or more, the check on it is never "sorted", because its loop runs past the bound |

## Left out

- Browser control is not modelled: launching Chromium, opening a page, navigating, clicking "More" and the one-second wait. The page source `pages` replaces them.
- Playwright locator queries, `getAttribute` and `innerText` are foreign calls. The model takes their results as `Page` values.
- A missing `title` or `href` attribute would make `title!.match` or `href!.match` throw. Such a page is not modelled: titles and hrefs are plain strings.
- `Patterns.ParseDate`: local-time interpretation, time zones and daylight saving are not modelled. Neither are the Date parser's own rules for a day past the end of its month or for `24:00:00`. A date is valid when its month is 1..12, its day 1..31, its hour 0..23 and its minute and second 0..59.
- `Patterns.NumericRank`: covers `undefined`, the empty string and digits with an optional trailing period. Everything else is `NaN`. Whitespace, signs, fractions, exponents, hexadecimal and `Infinity` (full `Number()` coercion, floating point) are not modelled.
- `Accumulation.GetPostDetailsUntilPostRank`: requires that some number of loaded pages holds more than `maxPostsToLookup` records. On a source that never gets there, the code loops forever. A terminating method cannot express that.
- `Accumulation.GetPostDetailsUntilPostRank`: the call with no argument is the call with `DefaultMaxPostsToLookup` (100); the model always passes the bound. The bound is a JavaScript number, modelled as an integer. Fractional, `NaN` and infinite bounds are not modelled.
- `verifySortHackerNewsArticles` is not part of this model. It only prints the verdict and exits the process.
- `src/index.ts` is not part of this model. It is the start-up wiring.
- `src/utils/modifyConsoleLog.ts` is not part of this model. It is a global logging patch.
