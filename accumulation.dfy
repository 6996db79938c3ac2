/**
 * The accumulation loop: extract the first page of the listing, then keep
 * clicking "More" and extracting again while the shared array holds no
 * more than `maxPostsToLookup` records; finally keep the records whose
 * numeric rank is at most `maxPostsToLookup`.
 *
 * The browser is replaced by a page source `pages`: `pages(0)` is the page
 * after navigation and `pages(c)` the page after the c-th click on "More".
 */
module Accumulation {
  import opened Wrappers
  import opened Patterns
  import opened Extraction

  /** The number of records looked up when the caller gives none. */
  const DefaultMaxPostsToLookup: int := 100

  /** Every page the source can show has at least one age element. */
  ghost predicate NeverEmpty(pages: nat -> Page) {
    forall c: nat :: |pages(c).secondaries| > 0
  }

  /** The shared array after extracting the first `n` pages, in load order. */
  function Loaded(pages: nat -> Page, n: nat): seq<PostDetails> {
    if n == 0 then [] else Loaded(pages, n - 1) + PageRecords(pages(n - 1))
  }

  lemma {:induction false} LoadedGrows(pages: nat -> Page, n: nat)
    requires NeverEmpty(pages)
    ensures |Loaded(pages, n)| >= n
  {
    if n > 0 {
      LoadedGrows(pages, n - 1);
      assert |pages(n - 1).secondaries| > 0;
    }
  }

  /** Loading some number n >= 1 of pages leaves more than `max` records, so the loop stops. */
  ghost predicate Finishes(pages: nat -> Page, max: int) {
    exists n: nat :: 1 <= n && |Loaded(pages, n)| > max
  }

  /** A source whose pages are never empty always lets the loop stop. */
  lemma NeverEmptyFinishes(pages: nat -> Page, max: int)
    requires NeverEmpty(pages)
    ensures Finishes(pages, max)
  {
    var n: nat := if max < 0 then 1 else max + 1;
    LoadedGrows(pages, n);
  }

  /**
   * A first page that already holds more than `max` records stops the loop
   * with no click, whatever the later pages hold, empty ones included.
   */
  lemma FirstPageSuffices(pages: nat -> Page, max: int)
    requires |pages(0).secondaries| > max
    ensures Finishes(pages, max) && Clicks(pages, max) == 0
  {
    assert Loaded(pages, 1) == PageRecords(pages(0));
  }

  /**
   * The number of clicks the loop makes when it has already made `c`: the
   * least c' >= c after which the array holds more than `max` records.
   * `bound` is a click count known to stop the loop.
   */
  ghost function ClicksFrom(pages: nat -> Page, max: int, c: nat, bound: nat): (r: nat)
    requires c <= bound && |Loaded(pages, bound + 1)| > max
    ensures c <= r <= bound
    ensures |Loaded(pages, r + 1)| > max
    ensures forall n :: c + 1 <= n <= r ==> |Loaded(pages, n)| <= max
    decreases bound - c
  {
    if |Loaded(pages, c + 1)| > max then c
    else ClicksFrom(pages, max, c + 1, bound)
  }

  /** The number of clicks on "More" the loop makes. */
  ghost function Clicks(pages: nat -> Page, max: int): (r: nat)
    requires Finishes(pages, max)
    ensures |Loaded(pages, r + 1)| > max
    ensures forall n :: 1 <= n <= r ==> |Loaded(pages, n)| <= max
  {
    var loaded: nat :| 1 <= loaded && |Loaded(pages, loaded)| > max;
    ClicksFrom(pages, max, 0, loaded - 1)
  }

  /** `Number(post.rank) <= max`; `NaN` compares false. */
  predicate Survives(d: PostDetails, max: int) {
    match NumericRank(d.rank)
    case None => false
    case Some(n) => n <= max
  }

  /** `records.filter((post) => Number(post.rank) <= max)`. */
  function FilterByRank(records: seq<PostDetails>, max: int): (r: seq<PostDetails>)
    ensures |r| <= |records|
    ensures forall d :: d in r <==> d in records && Survives(d, max)
  {
    if records == [] then []
    else (if Survives(records[0], max) then [records[0]] else []) + FilterByRank(records[1..], max)
  }

  /**
   * Runs the loop against the page source and returns the filtered array:
   * the records of the first `Clicks + 1` pages, filtered by rank. It
   * needs only that some click count stops the loop; empty pages are fine.
   */
  method GetPostDetailsUntilPostRank(pages: nat -> Page, maxPostsToLookup: int)
    returns (result: seq<PostDetails>)
    requires Finishes(pages, maxPostsToLookup)
    ensures result == FilterByRank(Loaded(pages, Clicks(pages, maxPostsToLookup) + 1), maxPostsToLookup)
  {
    var postDetailsArray := new PostDetailsArray();
    var same := GetHackerNewsPagePostsDetails(pages(0), postDetailsArray);
    ghost var total := Clicks(pages, maxPostsToLookup);
    var clicks: nat := 0;
    while |postDetailsArray.items| <= maxPostsToLookup
      invariant postDetailsArray.items == Loaded(pages, clicks + 1)
      invariant clicks <= total
      decreases total - clicks
    {
      assert clicks != total;
      clicks := clicks + 1;
      same := GetHackerNewsPagePostsDetails(pages(clicks), postDetailsArray);
    }
    assert clicks == total;
    result := FilterByRank(postDetailsArray.items, maxPostsToLookup);
  }

  // ---------------------------------------------------------------------
  // Properties of the accumulated array and of the filter
  // ---------------------------------------------------------------------

  /** Loading more pages only appends: what the array held earlier stays its prefix. */
  lemma {:induction false} LoadedAppends(pages: nat -> Page, n: nat, m: nat)
    requires n <= m
    ensures Loaded(pages, n) <= Loaded(pages, m)
    decreases m - n
  {
    if n < m {
      LoadedAppends(pages, n, m - 1);
    }
  }

  /** With exactly `perPage` age elements on every page, n pages hold n * perPage records. */
  lemma {:induction false} LoadedUniformLength(pages: nat -> Page, perPage: nat, n: nat)
    requires forall c: nat :: |pages(c).secondaries| == perPage
    ensures |Loaded(pages, n)| == n * perPage
  {
    if n > 0 {
      LoadedUniformLength(pages, perPage, n - 1);
      assert |pages(n - 1).secondaries| == perPage;
    }
  }

  lemma MulMonotone(x: nat, y: nat, k: nat)
    requires x <= y
    ensures x * k <= y * k
  {
  }

  lemma DivBounds(max: nat, k: nat)
    requires k >= 1
    ensures (max / k) * k <= max < (max / k + 1) * k
  {
  }

  /**
   * With exactly `perPage` >= 1 records per page the loop makes the least
   * number of clicks c with (c + 1) * perPage > max: `max / perPage` clicks
   * for a non-negative max, and none for a negative one.
   */
  lemma UniformClicks(pages: nat -> Page, perPage: nat, max: int)
    requires perPage >= 1
    requires forall c: nat :: |pages(c).secondaries| == perPage
    ensures NeverEmpty(pages) && Finishes(pages, max)
    ensures Clicks(pages, max) == if max < 0 then 0 else max / perPage
    ensures |Loaded(pages, Clicks(pages, max) + 1)| == (Clicks(pages, max) + 1) * perPage
  {
    assert NeverEmpty(pages) by {
      forall c: nat ensures |pages(c).secondaries| > 0 {
        assert |pages(c).secondaries| == perPage;
      }
    }
    NeverEmptyFinishes(pages, max);
    var r := Clicks(pages, max);
    LoadedUniformLength(pages, perPage, r + 1);
    if max >= 0 {
      var q := max / perPage;
      DivBounds(max, perPage);
      if r < q {
        MulMonotone(r + 1, q, perPage);
      } else if r > q {
        LoadedUniformLength(pages, perPage, q + 1);
      }
    }
  }

  /**
   * The listing's usual shape: 30 posts per page and the default of 100
   * posts to look up give 3 clicks and 120 accumulated records.
   */
  lemma ThirtyPerPageExample(pages: nat -> Page)
    requires forall c: nat :: |pages(c).secondaries| == 30
    ensures Finishes(pages, DefaultMaxPostsToLookup)
    ensures Clicks(pages, DefaultMaxPostsToLookup) == 3
    ensures |Loaded(pages, Clicks(pages, DefaultMaxPostsToLookup) + 1)| == 120
  {
    UniformClicks(pages, 30, DefaultMaxPostsToLookup);
  }

  /** The filter distributes over concatenation, so it keeps the order of the records. */
  lemma {:induction false} FilterConcat(a: seq<PostDetails>, b: seq<PostDetails>, max: int)
    ensures FilterByRank(a + b, max) == FilterByRank(a, max) + FilterByRank(b, max)
  {
    if a == [] {
      assert a + b == b;
    } else {
      assert (a + b)[0] == a[0];
      assert (a + b)[1..] == a[1..] + b;
      FilterConcat(a[1..], b, max);
    }
  }

  /** `sub` is `s` with some elements removed and the rest kept in order. */
  ghost predicate IsSubsequence(sub: seq<PostDetails>, s: seq<PostDetails>)
    decreases |s|
  {
    if s == [] then sub == []
    else (sub != [] && sub[0] == s[0] && IsSubsequence(sub[1..], s[1..])) || IsSubsequence(sub, s[1..])
  }

  /** The filtered array is an order-preserving subsequence of the accumulated one. */
  lemma {:induction false} FilterIsSubsequence(records: seq<PostDetails>, max: int)
    ensures IsSubsequence(FilterByRank(records, max), records)
  {
    if records != [] {
      FilterIsSubsequence(records[1..], max);
      var rest := FilterByRank(records[1..], max);
      if Survives(records[0], max) {
        assert FilterByRank(records, max) == [records[0]] + rest;
        assert ([records[0]] + rest)[1..] == rest;
      } else {
        assert FilterByRank(records, max) == rest;
      }
    }
  }

  /** A record whose rank is absent or not a number never survives the filter. */
  lemma NonNumericRankDropped(records: seq<PostDetails>, max: int, d: PostDetails)
    requires NumericRank(d.rank).None?
    ensures d !in FilterByRank(records, max)
  {
  }
}
