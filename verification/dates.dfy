/**
 * Day counts of calendar months and the list of day numbers of a month
 * (index.js:27-30), which takes the count from the last day of the month as
 * JavaScript's `Date` computes it.
 */
module DateMath {

  /** The proleptic Gregorian leap-year rule. */
  predicate IsLeapYear(y: int) {
    y % 4 == 0 && (y % 100 != 0 || y % 400 == 0)
  }

  /** Reference table: days in month `m` (1 = January ... 12 = December) of Gregorian year `y`. */
  function GregorianMonthLength(y: int, m: int): nat
    requires 1 <= m <= 12
  {
    if m == 2 then (if IsLeapYear(y) then 29 else 28)
    else if m == 4 || m == 6 || m == 9 || m == 11 then 30
    else 31
  }

  /** Days in Gregorian year `y`. */
  function GregorianYearLength(y: int): nat {
    if IsLeapYear(y) then 366 else 365
  }

  /**
   * The year the JavaScript `Date(year, month, day)` constructor actually uses:
   * a year from 0 to 99 is read as 1900 to 1999.
   */
  function DateYear(year: int): int {
    if 0 <= year <= 99 then 1900 + year else year
  }

  /**
   * The day count of a month (index.js:28), read off the day before the first of
   * the following month: month `month` counts from 1 for January, and month 0
   * therefore denotes December of the year before.
   */
  function MonthLength(year: int, month: int): (n: nat)
    requires 0 <= month <= 12
    ensures month == 0 ==> n == 31
    ensures 28 <= n <= 31
    ensures 1 <= month && year != 0 ==> n == GregorianMonthLength(year, month)
  {
    if month == 0 then GregorianMonthLength(DateYear(year) - 1, 12)
    else GregorianMonthLength(DateYear(year), month)
  }

  /** The day numbers 1, 2, ..., n (index.js:29). */
  function Range(n: nat): (r: seq<int>)
    ensures |r| == n
    ensures forall i | 0 <= i < n :: r[i] == i + 1
  {
    if n == 0 then [] else Range(n - 1) + [n]
  }

  predicate StrictlyAscending(s: seq<int>) {
    forall i, j | 0 <= i < j < |s| :: s[i] < s[j]
  }

  /** The day list of a month (index.js:27-30). */
  function TotalDays(year: int, month: int): (r: seq<int>)
    requires 0 <= month <= 12
    ensures |r| == MonthLength(year, month)
    ensures forall i | 0 <= i < |r| :: r[i] == i + 1
  {
    Range(MonthLength(year, month))
  }

  /**
   * The day list of a real month is exactly 1..n, strictly ascending, where n is
   * the Gregorian length of that month (any year except the two-digit year 0,
   * which `Date` reads as 1900).
   */
  lemma TotalDaysIsGregorianMonth(year: int, month: int)
    requires 1 <= month <= 12 && year != 0
    ensures |TotalDays(year, month)| == GregorianMonthLength(year, month)
    ensures TotalDays(year, month)[0] == 1
    ensures StrictlyAscending(TotalDays(year, month))
    ensures forall d :: d in TotalDays(year, month) <==> 1 <= d <= GregorianMonthLength(year, month)
  {
    var r := TotalDays(year, month);
    forall d | 1 <= d <= GregorianMonthLength(year, month) ensures d in r {
      assert r[d - 1] == d;
    }
  }

  /** Month 0 (a re-tagged December) always has 31 days, whatever the year. */
  lemma MonthZeroHas31Days(year: int, other: int)
    ensures TotalDays(year, 0) == TotalDays(other, 0)
    ensures |TotalDays(year, 0)| == 31
  {
  }

  /** Sum of the lengths of months 1..k of `year`, as `Date` computes them. */
  function DaysThroughMonth(year: int, k: int): nat
    requires 0 <= k <= 12
  {
    if k == 0 then 0 else DaysThroughMonth(year, k - 1) + MonthLength(year, k)
  }

  /** The twelve month lengths add up to the length of the year `Date` works in. */
  lemma {:induction false} MonthsFillYear(year: int)
    ensures DaysThroughMonth(year, 12) == GregorianYearLength(DateYear(year))
  {
    var y := DateYear(year);
    assert DaysThroughMonth(year, 1) == 31;
    assert DaysThroughMonth(year, 2) == 31 + GregorianMonthLength(y, 2);
    assert DaysThroughMonth(year, 3) == 62 + GregorianMonthLength(y, 2);
    assert DaysThroughMonth(year, 4) == 92 + GregorianMonthLength(y, 2);
    assert DaysThroughMonth(year, 5) == 123 + GregorianMonthLength(y, 2);
    assert DaysThroughMonth(year, 6) == 153 + GregorianMonthLength(y, 2);
    assert DaysThroughMonth(year, 7) == 184 + GregorianMonthLength(y, 2);
    assert DaysThroughMonth(year, 8) == 215 + GregorianMonthLength(y, 2);
    assert DaysThroughMonth(year, 9) == 245 + GregorianMonthLength(y, 2);
    assert DaysThroughMonth(year, 10) == 276 + GregorianMonthLength(y, 2);
    assert DaysThroughMonth(year, 11) == 306 + GregorianMonthLength(y, 2);
    assert DaysThroughMonth(year, 12) == 337 + GregorianMonthLength(y, 2);
  }
}
