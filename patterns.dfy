/**
 * The text-level extractions of the sort check: the leftmost run of digits
 * in a link reference (the post id), the leftmost `dddd-dd-ddTdd:dd:dd`
 * timestamp in an age element's title, the conversion of that timestamp to
 * a date, and the numeric reading of a displayed rank such as "17.".
 */
module Patterns {
  import opened Wrappers

  // ---------------------------------------------------------------------
  // Decimal digits
  // ---------------------------------------------------------------------

  /** `\d` in a JavaScript regular expression without the `u` flag. */
  predicate IsDigit(c: char) {
    '0' <= c <= '9'
  }

  predicate AllDigits(s: string) {
    forall k :: 0 <= k < |s| ==> IsDigit(s[k])
  }

  function DigitValue(c: char): (d: nat)
    requires IsDigit(c)
    ensures d < 10
  {
    c as int - '0' as int
  }

  function DigitChar(d: nat): (c: char)
    requires d < 10
    ensures IsDigit(c) && DigitValue(c) == d
  {
    ('0' as int + d) as char
  }

  function Pow10(n: nat): (p: nat)
    ensures p >= 1
  {
    if n == 0 then 1 else 10 * Pow10(n - 1)
  }

  /** The value of a string of decimal digits, most significant first. */
  function DigitsValue(s: string): (v: nat)
    requires AllDigits(s)
    ensures v < Pow10(|s|)
  {
    if s == [] then 0 else 10 * DigitsValue(s[..|s| - 1]) + DigitValue(s[|s| - 1])
  }

  /** `n` written with exactly `width` digits, zero-padded on the left. */
  function PaddedDigits(n: nat, width: nat): (s: string)
    ensures |s| == width && AllDigits(s)
  {
    if width == 0 then [] else PaddedDigits(n / 10, width - 1) + [DigitChar(n % 10)]
  }

  /** `n` in decimal without leading zeros, as a rank counter displays it. */
  function Decimal(n: nat): (s: string)
    ensures |s| >= 1 && AllDigits(s)
  {
    if n < 10 then [DigitChar(n)] else Decimal(n / 10) + [DigitChar(n % 10)]
  }

  lemma {:induction false} PaddedDigitsRoundTrip(n: nat, width: nat)
    requires n < Pow10(width)
    ensures DigitsValue(PaddedDigits(n, width)) == n
  {
    if width > 0 {
      var s := PaddedDigits(n, width);
      assert s[..|s| - 1] == PaddedDigits(n / 10, width - 1);
      PaddedDigitsRoundTrip(n / 10, width - 1);
    }
  }

  lemma DivModDigit(x: nat, d: nat)
    requires d < 10
    ensures (10 * x + d) / 10 == x && (10 * x + d) % 10 == d
  {
  }

  lemma {:induction false} DigitsRoundTrip(s: string)
    requires AllDigits(s)
    ensures PaddedDigits(DigitsValue(s), |s|) == s
  {
    if s != [] {
      var init, last := s[..|s| - 1], s[|s| - 1];
      var v := DigitsValue(s);
      assert v == 10 * DigitsValue(init) + DigitValue(last);
      DivModDigit(DigitsValue(init), DigitValue(last));
      assert DigitChar(v % 10) == last;
      assert PaddedDigits(v, |s|) == PaddedDigits(DigitsValue(init), |init|) + [last];
      DigitsRoundTrip(init);
      assert s == init + [last];
    }
  }

  lemma {:induction false} DecimalRoundTrip(n: nat)
    ensures DigitsValue(Decimal(n)) == n
  {
    if n >= 10 {
      var s := Decimal(n);
      assert s[..|s| - 1] == Decimal(n / 10);
      DecimalRoundTrip(n / 10);
    }
  }

  // ---------------------------------------------------------------------
  // The post id: `href.match(/\d+/)?.[0]`
  // ---------------------------------------------------------------------

  /** Index of the first digit of `s` at or after `from`, or `|s|` when there is none. */
  function FirstDigitFrom(s: string, from: nat): (i: nat)
    requires from <= |s|
    ensures from <= i <= |s|
    ensures i < |s| ==> IsDigit(s[i])
    ensures forall k :: from <= k < i ==> !IsDigit(s[k])
    decreases |s| - from
  {
    if from == |s| || IsDigit(s[from]) then from else FirstDigitFrom(s, from + 1)
  }

  /** End of the run of digits that starts at `from` (greedy `\d+`). */
  function DigitRunEnd(s: string, from: nat): (j: nat)
    requires from <= |s|
    ensures from <= j <= |s|
    ensures forall k :: from <= k < j ==> IsDigit(s[k])
    ensures j < |s| ==> !IsDigit(s[j])
    decreases |s| - from
  {
    if from < |s| && IsDigit(s[from]) then DigitRunEnd(s, from + 1) else from
  }

  /** `s[i..j]` is the leftmost maximal run of digits in `s`. */
  ghost predicate LeftmostDigitRun(s: string, i: nat, j: nat) {
    && i < j <= |s|
    && (forall k :: i <= k < j ==> IsDigit(s[k]))
    && (forall k :: 0 <= k < i ==> !IsDigit(s[k]))
    && (j < |s| ==> !IsDigit(s[j]))
  }

  /** The id derived from a link reference: the first match of `/\d+/`, if any. */
  function FirstDigitRun(s: string): (r: Option<string>)
    ensures r.None? <==> forall k :: 0 <= k < |s| ==> !IsDigit(s[k])
    ensures r.Some? ==> exists i: nat, j: nat :: LeftmostDigitRun(s, i, j) && r.value == s[i..j]
  {
    var i := FirstDigitFrom(s, 0);
    if i == |s| then None
    else
      var j := DigitRunEnd(s, i);
      assert LeftmostDigitRun(s, i, j);
      Some(s[i..j])
  }

  // ---------------------------------------------------------------------
  // The post date: `title.match(/\d{4}-\d{2}-\d{2}T\d{2}:\d{2}:\d{2}/)?.[0]`
  // ---------------------------------------------------------------------

  const TimestampLength: nat := 19

  /** What the pattern demands at offset `k` of a match. */
  predicate PatternCharAt(c: char, k: nat) {
    if k == 4 || k == 7 then c == '-'
    else if k == 10 then c == 'T'
    else if k == 13 || k == 16 then c == ':'
    else IsDigit(c)
  }

  /** `t` has the shape `dddd-dd-ddTdd:dd:dd` of a date-time without offset or fraction. */
  predicate IsTimestampShape(t: string) {
    |t| == TimestampLength && forall k :: 0 <= k < TimestampLength ==> PatternCharAt(t[k], k)
  }

  predicate MatchesAt(s: string, i: nat) {
    i + TimestampLength <= |s| && IsTimestampShape(s[i..i + TimestampLength])
  }

  /** The leftmost position at or after `from` where the timestamp pattern matches. */
  function FirstMatchFrom(s: string, from: nat): (r: Option<nat>)
    ensures r.Some? ==> from <= r.value && MatchesAt(s, r.value)
    ensures forall k :: from <= k && (r.None? || k < r.value) ==> !MatchesAt(s, k)
    decreases |s| - from
  {
    if from + TimestampLength > |s| then None
    else if MatchesAt(s, from) then Some(from)
    else FirstMatchFrom(s, from + 1)
  }

  /** The timestamp text of a title: its leftmost 19-character match, if any. */
  function FirstTimestamp(title: string): (r: Option<string>)
    ensures r.None? <==> forall i :: 0 <= i ==> !MatchesAt(title, i)
    ensures r.Some? ==> exists i: nat ::
      && MatchesAt(title, i)
      && r.value == title[i..i + TimestampLength]
      && forall k :: 0 <= k < i ==> !MatchesAt(title, k)
  {
    match FirstMatchFrom(title, 0)
    case None => None
    case Some(i) => Some(title[i..i + TimestampLength])
  }

  // ---------------------------------------------------------------------
  // Dates: `new Date(age)` on the matched text
  // ---------------------------------------------------------------------

  /** A local date and time to the second, as the matched text spells it. */
  datatype DateTime = DateTime(year: nat, month: nat, day: nat, hour: nat, minute: nat, second: nat)

  /** The field ranges a Date accepts for the date-time form. */
  predicate ValidDateTime(d: DateTime) {
    && d.year < 10000
    && 1 <= d.month <= 12
    && 1 <= d.day <= 31
    && d.hour <= 23
    && d.minute <= 59
    && d.second <= 59
  }

  /** Every field of a string of timestamp shape is a run of digits. */
  lemma ShapeFieldsAreDigits(t: string)
    requires IsTimestampShape(t)
    ensures AllDigits(t[0..4]) && AllDigits(t[5..7]) && AllDigits(t[8..10])
    ensures AllDigits(t[11..13]) && AllDigits(t[14..16]) && AllDigits(t[17..19])
  {
  }

  /**
   * `new Date(age)`: `None` stands for an Invalid Date, which is what an
   * absent match (`new Date(undefined)`) or out-of-range fields give.
   */
  function ParseDate(age: Option<string>): (r: Option<DateTime>)
    ensures r.Some? ==> ValidDateTime(r.value)
    ensures age.None? ==> r.None?
  {
    match age
    case None => None
    case Some(t) =>
      if !IsTimestampShape(t) then None
      else
        ShapeFieldsAreDigits(t);
        var d := DateTime(DigitsValue(t[0..4]), DigitsValue(t[5..7]), DigitsValue(t[8..10]),
                          DigitsValue(t[11..13]), DigitsValue(t[14..16]), DigitsValue(t[17..19]));
        if ValidDateTime(d) then Some(d) else None
  }

  /** The character at offset `k` of the `YYYY-MM-DDTHH:mm:ss` text of `d`. */
  function FormatCharAt(d: DateTime, k: nat): char
    requires k < TimestampLength
  {
    if k < 4 then PaddedDigits(d.year, 4)[k]
    else if k == 4 || k == 7 then '-'
    else if k < 7 then PaddedDigits(d.month, 2)[k - 5]
    else if k < 10 then PaddedDigits(d.day, 2)[k - 8]
    else if k == 10 then 'T'
    else if k < 13 then PaddedDigits(d.hour, 2)[k - 11]
    else if k == 13 || k == 16 then ':'
    else if k < 16 then PaddedDigits(d.minute, 2)[k - 14]
    else PaddedDigits(d.second, 2)[k - 17]
  }

  /** The `YYYY-MM-DDTHH:mm:ss` text of a date. */
  function FormatDate(d: DateTime): (t: string)
    ensures |t| == TimestampLength
  {
    seq(TimestampLength, k requires 0 <= k < TimestampLength => FormatCharAt(d, k))
  }

  /** The pieces of a formatted date: six zero-padded fields and five separators. */
  lemma FormatDatePieces(d: DateTime)
    ensures var t := FormatDate(d);
      && t[0..4] == PaddedDigits(d.year, 4) && t[4] == '-'
      && t[5..7] == PaddedDigits(d.month, 2) && t[7] == '-'
      && t[8..10] == PaddedDigits(d.day, 2) && t[10] == 'T'
      && t[11..13] == PaddedDigits(d.hour, 2) && t[13] == ':'
      && t[14..16] == PaddedDigits(d.minute, 2) && t[16] == ':'
      && t[17..19] == PaddedDigits(d.second, 2)
  {
  }

  lemma FormatDateShape(d: DateTime)
    ensures IsTimestampShape(FormatDate(d))
  {
  }

  /** Parsing the text of a valid date gives that date back. */
  lemma ParseFormatRoundTrip(d: DateTime)
    requires ValidDateTime(d)
    ensures ParseDate(Some(FormatDate(d))) == Some(d)
  {
    FormatDateShape(d);
    FormatDatePieces(d);
    PaddedDigitsRoundTrip(d.year, 4);
    PaddedDigitsRoundTrip(d.month, 2);
    PaddedDigitsRoundTrip(d.day, 2);
    PaddedDigitsRoundTrip(d.hour, 2);
    PaddedDigitsRoundTrip(d.minute, 2);
    PaddedDigitsRoundTrip(d.second, 2);
  }

  /** A timestamp text that parses is exactly the text of the date it parses to. */
  lemma FormatParseRoundTrip(t: string)
    requires ParseDate(Some(t)).Some?
    ensures FormatDate(ParseDate(Some(t)).value) == t
  {
    var d := ParseDate(Some(t)).value;
    ShapeFieldsAreDigits(t);
    DigitsRoundTrip(t[0..4]);
    DigitsRoundTrip(t[5..7]);
    DigitsRoundTrip(t[8..10]);
    DigitsRoundTrip(t[11..13]);
    DigitsRoundTrip(t[14..16]);
    DigitsRoundTrip(t[17..19]);
    var f := FormatDate(d);
    FormatDatePieces(d);
    forall k | 0 <= k < TimestampLength ensures f[k] == t[k] {
      assert PatternCharAt(t[k], k);
      if k < 4 { assert f[k] == f[0..4][k] && t[k] == t[0..4][k]; }
      else if 4 < k < 7 { assert f[k] == f[5..7][k - 5] && t[k] == t[5..7][k - 5]; }
      else if 7 < k < 10 { assert f[k] == f[8..10][k - 8] && t[k] == t[8..10][k - 8]; }
      else if 10 < k < 13 { assert f[k] == f[11..13][k - 11] && t[k] == t[11..13][k - 11]; }
      else if 13 < k < 16 { assert f[k] == f[14..16][k - 14] && t[k] == t[14..16][k - 14]; }
      else if 16 < k { assert f[k] == f[17..19][k - 17] && t[k] == t[17..19][k - 17]; }
    }
  }

  /** `a < b` on Dates: `a` is strictly earlier than `b`. */
  predicate Before(a: DateTime, b: DateTime) {
    if a.year != b.year then a.year < b.year
    else if a.month != b.month then a.month < b.month
    else if a.day != b.day then a.day < b.day
    else if a.hour != b.hour then a.hour < b.hour
    else if a.minute != b.minute then a.minute < b.minute
    else a.second < b.second
  }

  /** `Before` is a strict total order on dates. */
  lemma BeforeStrictTotalOrder(a: DateTime, b: DateTime, c: DateTime)
    ensures !Before(a, a)
    ensures Before(a, b) ==> !Before(b, a)
    ensures a != b ==> Before(a, b) || Before(b, a)
    ensures Before(a, b) && Before(b, c) ==> Before(a, c)
  {
  }

  /**
   * `a >= b` on Dates. An Invalid Date compares as `NaN`, so every
   * comparison involving an absent date is false.
   */
  predicate NotEarlier(a: Option<DateTime>, b: Option<DateTime>) {
    a.Some? && b.Some? && !Before(a.value, b.value)
  }

  // ---------------------------------------------------------------------
  // Ranks: `Number(rank)`
  // ---------------------------------------------------------------------

  /**
   * `Number(rank)` for the rank texts the listing shows: `undefined` is
   * `NaN`, the empty string is 0, and digits optionally followed by one
   * period are their decimal value. Any other text is `NaN`.
   */
  function NumericRank(rank: Option<string>): (r: Option<int>)
    ensures r.Some? ==> rank.Some? && r.value >= 0
  {
    match rank
    case None => None
    case Some(t) =>
      if t == [] then Some(0)
      else if AllDigits(t) then Some(DigitsValue(t))
      else if t[|t| - 1] == '.' && |t| >= 2 && AllDigits(t[..|t| - 1]) then Some(DigitsValue(t[..|t| - 1]))
      else None
  }

  /** The rank text "n." the listing displays reads back as `n`, with or without the period. */
  lemma RankTextRoundTrip(n: nat)
    ensures NumericRank(Some(Decimal(n) + ".")) == Some(n)
    ensures NumericRank(Some(Decimal(n))) == Some(n)
  {
    var s := Decimal(n) + ".";
    assert s[..|s| - 1] == Decimal(n);
    DecimalRoundTrip(n);
  }

  /** Each text that reads as a number: the empty text as 0, or digits, optionally followed by one period. */
  lemma NumericRankSound(t: string, n: nat)
    requires NumericRank(Some(t)) == Some(n)
    ensures (t == [] && n == 0) || exists w: nat ::
      w >= 1 && n < Pow10(w) && (t == PaddedDigits(n, w) || t == PaddedDigits(n, w) + ".")
  {
    if t != [] {
      if AllDigits(t) {
        DigitsRoundTrip(t);
        assert t == PaddedDigits(n, |t|);
      } else {
        var p := t[..|t| - 1];
        DigitsRoundTrip(p);
        assert t == PaddedDigits(n, |p|) + ".";
      }
    }
  }

  /** Every text of those forms reads as its number. */
  lemma NumericRankComplete(t: string, n: nat, w: nat)
    requires w >= 1 && n < Pow10(w)
    requires t == PaddedDigits(n, w) || t == PaddedDigits(n, w) + "."
    ensures NumericRank(Some(t)) == Some(n)
  {
    PaddedDigitsRoundTrip(n, w);
    if t != PaddedDigits(n, w) {
      assert t[..|t| - 1] == PaddedDigits(n, w);
      assert !IsDigit(t[|t| - 1]);
    }
  }

  /**
   * `Number(rank)` on a present rank text is `n` exactly when the text is
   * empty and `n` is 0, or the text is `n` in one or more digits (leading
   * zeros allowed), optionally followed by one period. Any other text is
   * `NaN`, since a number read is never negative.
   */
  lemma NumericRankIff(t: string, n: nat)
    ensures NumericRank(Some(t)) == Some(n) <==>
      (t == [] && n == 0) || exists w: nat ::
        w >= 1 && n < Pow10(w) && (t == PaddedDigits(n, w) || t == PaddedDigits(n, w) + ".")
  {
    if NumericRank(Some(t)) == Some(n) {
      NumericRankSound(t, n);
    } else if t != [] {
      if w: nat :| w >= 1 && n < Pow10(w) && (t == PaddedDigits(n, w) || t == PaddedDigits(n, w) + ".") {
        NumericRankComplete(t, n, w);
      }
    }
  }
}
