/**
 * The sort predicate: for every rank i from 2 up to the number of records,
 * look up the first record of rank i and the first of rank i - 1 and
 * answer "not sorted" at the first i whose record is not strictly older
 * than its predecessor's. A rank that has no record makes the lookup's
 * result undefined and its dereference throws, which the model reports as
 * an error outcome.
 */
module SortCheck {
  import opened Wrappers
  import opened Patterns
  import opened Extraction
  import Accumulation

  /** The check could not complete: no record carries this rank. */
  datatype SortError = MissingRank(rank: int)

  /** What one value of the loop index decides. */
  datatype StepOutcome = Pass | Disorder | Missing(rank: int)

  /** Index of the first record at or after `from` whose numeric rank is `n`, or `|records|`. */
  function FirstWithRankFrom(records: seq<PostDetails>, n: int, from: nat): (j: nat)
    requires from <= |records|
    ensures from <= j <= |records|
    ensures j < |records| ==> NumericRank(records[j].rank) == Some(n)
    ensures forall k :: from <= k < j ==> NumericRank(records[k].rank) != Some(n)
    decreases |records| - from
  {
    if from == |records| || NumericRank(records[from].rank) == Some(n) then from
    else FirstWithRankFrom(records, n, from + 1)
  }

  /** `records.find((d) => Number(d.rank) == n)`: the first-inserted record of rank `n`. */
  function FindByRank(records: seq<PostDetails>, n: int): (r: Option<PostDetails>)
    ensures r.None? <==> forall k :: 0 <= k < |records| ==> NumericRank(records[k].rank) != Some(n)
    ensures r.Some? ==> exists j ::
      && 0 <= j < |records|
      && records[j] == r.value
      && NumericRank(records[j].rank) == Some(n)
      && forall k :: 0 <= k < j ==> NumericRank(records[k].rank) != Some(n)
  {
    var j := FirstWithRankFrom(records, n, 0);
    if j < |records| then Some(records[j]) else None
  }

  /**
   * The body of the loop for index `i`: the dereference of a missing record
   * of rank `i` throws first, then that of rank `i - 1`; otherwise the
   * comparison `date(i) >= date(i - 1)` decides.
   */
  function Step(records: seq<PostDetails>, i: int): StepOutcome {
    var ith := FindByRank(records, i);
    var prev := FindByRank(records, i - 1);
    if ith.None? then Missing(i)
    else if prev.None? then Missing(i - 1)
    else if NotEarlier(ith.value.postDate, prev.value.postDate) then Disorder
    else Pass
  }

  /** The loop from index `i` on. */
  function CheckFrom(records: seq<PostDetails>, i: nat): Result<bool, SortError>
    decreases |records| + 1 - i
  {
    if i > |records| then Ok(true)
    else match Step(records, i)
      case Pass => CheckFrom(records, i + 1)
      case Disorder => Ok(false)
      case Missing(k) => Err(MissingRank(k))
  }

  /** `checkArrayPostDetailsSorted`, with the thrown error as `Err`. */
  function CheckSorted(records: seq<PostDetails>): (r: Result<bool, SortError>)
    ensures |records| < 2 ==> r == Ok(true)
  {
    CheckFrom(records, 2)
  }

  /** The loop as the source runs it, with an early return at the first decisive index. */
  method CheckArrayPostDetailsSorted(postDetailsArray: seq<PostDetails>) returns (r: Result<bool, SortError>)
    ensures r == CheckSorted(postDetailsArray)
  {
    var i: nat := 2;
    while i <= |postDetailsArray|
      invariant 2 <= i
      invariant CheckFrom(postDetailsArray, i) == CheckSorted(postDetailsArray)
      decreases |postDetailsArray| + 1 - i
    {
      var ithDetails := FindByRank(postDetailsArray, i);
      var prevDetails := FindByRank(postDetailsArray, i - 1);
      if ithDetails.None? {
        return Err(MissingRank(i));
      }
      if prevDetails.None? {
        return Err(MissingRank(i - 1));
      }
      if NotEarlier(ithDetails.value.postDate, prevDetails.value.postDate) {
        return Ok(false);
      }
      i := i + 1;
    }
    return Ok(true);
  }

  // ---------------------------------------------------------------------
  // What the outcome means
  // ---------------------------------------------------------------------

  lemma {:induction false} CheckFromSorted(records: seq<PostDetails>, i: nat)
    ensures CheckFrom(records, i) == Ok(true) <==> forall j :: i <= j <= |records| ==> Step(records, j) == Pass
    decreases |records| + 1 - i
  {
    if i <= |records| && Step(records, i) == Pass {
      CheckFromSorted(records, i + 1);
    }
  }

  /** The answer an index that does not pass gives. */
  function Verdict(o: StepOutcome): Result<bool, SortError>
    requires o != Pass
  {
    match o
    case Disorder => Ok(false)
    case Missing(k) => Err(MissingRank(k))
  }

  /** Index `j` is the first index from `i` on that does not pass, and its outcome is `o`. */
  ghost predicate DecidedAt(records: seq<PostDetails>, i: nat, j: int, o: StepOutcome) {
    && i <= j <= |records|
    && Step(records, j) == o
    && forall k :: i <= k < j ==> Step(records, k) == Pass
  }

  lemma {:induction false} CheckFromDecidedSound(records: seq<PostDetails>, i: nat, o: StepOutcome)
    requires o != Pass
    requires CheckFrom(records, i) == Verdict(o)
    ensures exists j :: DecidedAt(records, i, j, o)
    decreases |records| + 1 - i
  {
    var s := Step(records, i);
    if s == Pass {
      CheckFromDecidedSound(records, i + 1, o);
      var j :| DecidedAt(records, i + 1, j, o);
      assert DecidedAt(records, i, j, o);
    } else {
      assert DecidedAt(records, i, i, o);
    }
  }

  lemma {:induction false} CheckFromDecidedComplete(records: seq<PostDetails>, i: nat, j: int, o: StepOutcome)
    requires o != Pass
    requires DecidedAt(records, i, j, o)
    ensures CheckFrom(records, i) == Verdict(o)
    decreases j - i
  {
    if i < j {
      assert Step(records, i) == Pass;
      assert DecidedAt(records, i + 1, j, o);
      CheckFromDecidedComplete(records, i + 1, j, o);
    }
  }

  /** Sorted exactly when every index from 2 to the number of records passes. */
  lemma SortedIff(records: seq<PostDetails>)
    ensures CheckSorted(records) == Ok(true) <==> forall i :: 2 <= i <= |records| ==> Step(records, i) == Pass
  {
    CheckFromSorted(records, 2);
  }

  /** Not sorted exactly when the first index that does not pass finds a disorder. */
  lemma NotSortedIff(records: seq<PostDetails>)
    ensures CheckSorted(records) == Ok(false) <==> exists i :: DecidedAt(records, 2, i, Disorder)
  {
    if CheckSorted(records) == Ok(false) {
      CheckFromDecidedSound(records, 2, Disorder);
    }
    if exists i :: DecidedAt(records, 2, i, Disorder) {
      var i :| DecidedAt(records, 2, i, Disorder);
      CheckFromDecidedComplete(records, 2, i, Disorder);
    }
  }

  /** The check fails on rank `m` exactly when the first index that does not pass misses rank `m`. */
  lemma MissingIff(records: seq<PostDetails>, m: int)
    ensures CheckSorted(records) == Err(MissingRank(m)) <==> exists i :: DecidedAt(records, 2, i, Missing(m))
  {
    if CheckSorted(records) == Err(MissingRank(m)) {
      CheckFromDecidedSound(records, 2, Missing(m));
    }
    if exists i :: DecidedAt(records, 2, i, Missing(m)) {
      var i :| DecidedAt(records, 2, i, Missing(m));
      CheckFromDecidedComplete(records, 2, i, Missing(m));
    }
  }

  /** An index whose records lack a valid date passes whenever both records exist. */
  lemma InvalidDateNeverDisorder(records: seq<PostDetails>, i: int)
    requires FindByRank(records, i).Some? && FindByRank(records, i - 1).Some?
    requires FindByRank(records, i).value.postDate.None? || FindByRank(records, i - 1).value.postDate.None?
    ensures Step(records, i) == Pass
  {
  }

  /** A record appended after one of the same rank is never looked at. */
  lemma FirstInsertedWins(a: seq<PostDetails>, b: seq<PostDetails>, n: int)
    requires FindByRank(a, n).Some?
    ensures FindByRank(a + b, n) == FindByRank(a, n)
  {
    var ab := a + b;
    var j2 :| 0 <= j2 < |a| && a[j2] == FindByRank(a, n).value && NumericRank(a[j2].rank) == Some(n)
              && forall k :: 0 <= k < j2 ==> NumericRank(a[k].rank) != Some(n);
    assert ab[j2] == a[j2];
    var j1 :| 0 <= j1 < |ab| && ab[j1] == FindByRank(ab, n).value && NumericRank(ab[j1].rank) == Some(n)
              && forall k :: 0 <= k < j1 ==> NumericRank(ab[k].rank) != Some(n);
  }

  /**
   * A rank in 1..|records| that no record carries is never reported as
   * sorted: either an earlier index finds a disorder, or the lookup fails.
   */
  lemma MissingRankNeverSorted(records: seq<PostDetails>, g: int)
    requires 2 <= |records| && 1 <= g <= |records|
    requires forall k :: 0 <= k < |records| ==> NumericRank(records[k].rank) != Some(g)
    ensures CheckSorted(records) != Ok(true)
  {
    SortedIff(records);
    var i := if g == 1 then 2 else g;
    assert Step(records, i) != Pass;
  }

  /** The date of the record the check looks at for rank `n`. */
  function RankDate(records: seq<PostDetails>, n: int): Option<DateTime> {
    match FindByRank(records, n)
    case None => None
    case Some(d) => d.postDate
  }

  /**
   * When the check says sorted and every looked-up record has a valid date,
   * the dates strictly decrease along the ranks: a larger rank is older.
   */
  lemma {:induction false} SortedMeansNewestFirst(records: seq<PostDetails>, a: int, b: int)
    requires CheckSorted(records) == Ok(true)
    requires forall n :: 1 <= n <= |records| ==> RankDate(records, n).Some?
    requires 1 <= a < b <= |records|
    ensures Before(RankDate(records, b).value, RankDate(records, a).value)
    decreases b - a
  {
    SortedIff(records);
    assert Step(records, b) == Pass;
    assert RankDate(records, b - 1).Some?;
    if a < b - 1 {
      SortedMeansNewestFirst(records, a, b - 1);
      BeforeStrictTotalOrder(RankDate(records, b).value, RankDate(records, b - 1).value, RankDate(records, a).value);
    }
  }

  /**
   * The loop runs to the number of records, not to the rank bound: when
   * the filtered array holds more than `max` records (duplicate ranks),
   * rank `max + 1` is looked up, no record survives with it, and the check
   * cannot answer "sorted".
   */
  lemma OverlongFilteredNeverSorted(records: seq<PostDetails>, max: int)
    requires max >= 1
    requires |Accumulation.FilterByRank(records, max)| > max
    ensures CheckSorted(Accumulation.FilterByRank(records, max)) != Ok(true)
  {
    var f := Accumulation.FilterByRank(records, max);
    forall k | 0 <= k < |f| ensures NumericRank(f[k].rank) != Some(max + 1) {
      assert f[k] in f;
      assert Accumulation.Survives(f[k], max);
    }
    MissingRankNeverSorted(f, max + 1);
  }
}
