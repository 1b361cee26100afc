/**
 * The half-month partition (index.js:32-40): the working days of one half of a month and of the whole month,
 * with the month's holidays removed.
 */
module Partitioner {
  import opened DateMath
  import opened HolidayParsing

  datatype DayPartition = DayPartition(part: seq<int>, total: seq<int>)

  /** The days of `s` that are not holidays, in their order (index.js:37-38). */
  function Without(s: seq<int>, holidays: seq<int>): (r: seq<int>)
    ensures |r| <= |s|
    ensures forall x :: x in r <==> x in s && x !in holidays
  {
    if s == [] then []
    else (if s[0] in holidays then [] else [s[0]]) + Without(s[1..], holidays)
  }

  /** Filtering keeps the order of what it keeps. */
  lemma {:induction false} WithoutAscending(s: seq<int>, holidays: seq<int>)
    requires StrictlyAscending(s)
    ensures StrictlyAscending(Without(s, holidays))
  {
    if s != [] {
      WithoutAscending(s[1..], holidays);
      var rest := Without(s[1..], holidays);
      var r := Without(s, holidays);
      if s[0] !in holidays {
        forall i, j | 0 <= i < j < |r| ensures r[i] < r[j] {
          assert r[j] == rest[j - 1] && rest[j - 1] in s[1..];
          if i > 0 {
            assert r[i] == rest[i - 1];
          }
        }
      }
    }
  }

  /** Filtering a concatenation filters each piece. */
  lemma {:induction false} WithoutConcat(a: seq<int>, b: seq<int>, holidays: seq<int>)
    ensures Without(a + b, holidays) == Without(a, holidays) + Without(b, holidays)
  {
    if a == [] {
      assert a + b == b;
    } else {
      assert (a + b)[0] == a[0] && (a + b)[1..] == a[1..] + b;
      WithoutConcat(a[1..], b, holidays);
      var h := if a[0] in holidays then [] else [a[0]];
      assert h + (Without(a[1..], holidays) + Without(b, holidays))
          == (h + Without(a[1..], holidays)) + Without(b, holidays);
    }
  }

  /** A holiday number that is not a day of the list removes nothing. */
  lemma {:induction false} WithoutIgnoresAbsent(s: seq<int>, holidays: seq<int>, x: int)
    requires x !in s
    ensures Without(s, holidays + [x]) == Without(s, holidays)
  {
    if s != [] {
      WithoutIgnoresAbsent(s[1..], holidays, x);
    }
  }

  /** The first fifteen days, or all of them when there are fewer (index.js:34). */
  function FirstHalf(days: seq<int>): (r: seq<int>)
    ensures |r| == if |days| <= 15 then |days| else 15
    ensures r <= days
  {
    if |days| <= 15 then days else days[..15]
  }

  /** The days after the fifteenth, or none when there are at most fifteen (index.js:34). */
  function SecondHalf(days: seq<int>): (r: seq<int>)
    ensures FirstHalf(days) + r == days
  {
    if |days| <= 15 then [] else days[15..]
  }

  /**
   * The working days of one half of a month (the second when `isLast`) and of the
   * whole month (index.js:32-40).
   */
  function Part(year: int, month: int, days: string, isLast: bool): DayPartition
    requires 0 <= month <= 12
  {
    var totalDays := TotalDays(year, month);
    var partDays := if isLast then SecondHalf(totalDays) else FirstHalf(totalDays);
    var holidays := ParseHolidays(days);
    DayPartition(Without(partDays, holidays), Without(totalDays, holidays))
  }

  /**
   * A day is a working day of the month exactly when it is one of its days and
   * no token names it; it is in the requested half exactly when it is also in
   * 1..15 (first half) or 16..n (second half).
   */
  lemma PartMembership(year: int, month: int, days: string, isLast: bool, d: int)
    requires 0 <= month <= 12
    ensures d in Part(year, month, days, isLast).total <==>
            1 <= d <= MonthLength(year, month) && d !in ParseHolidays(days)
    ensures d in Part(year, month, days, isLast).part <==>
            d in Part(year, month, days, isLast).total && (if isLast then 16 <= d else d <= 15)
  {
    var t := TotalDays(year, month);
    if 1 <= d <= |t| {
      assert t[d - 1] == d;
      if d <= 15 {
        assert FirstHalf(t)[d - 1] == d;
      } else {
        assert SecondHalf(t)[d - 16] == d;
      }
    }
    if d in FirstHalf(t) {
      var i :| 0 <= i < |FirstHalf(t)| && FirstHalf(t)[i] == d;
      assert t[i] == d;
    }
    if d in SecondHalf(t) {
      var i :| 0 <= i < |SecondHalf(t)| && SecondHalf(t)[i] == d;
      assert t[i + 15] == d;
    }
  }

  /** Both lists of a partition keep the ascending order of the day list. */
  lemma PartAscending(year: int, month: int, days: string, isLast: bool)
    requires 0 <= month <= 12
    ensures StrictlyAscending(Part(year, month, days, isLast).part)
    ensures StrictlyAscending(Part(year, month, days, isLast).total)
  {
    var t := TotalDays(year, month);
    var holidays := ParseHolidays(days);
    WithoutAscending(t, holidays);
    WithoutAscending(FirstHalf(t), holidays);
    WithoutAscending(SecondHalf(t), holidays);
  }

  /** part is a subset of total, and total a subset of the month's day list. */
  lemma PartSubsets(year: int, month: int, days: string, isLast: bool)
    requires 0 <= month <= 12
    ensures forall d | d in Part(year, month, days, isLast).part :: d in Part(year, month, days, isLast).total
    ensures forall d | d in Part(year, month, days, isLast).total :: d in TotalDays(year, month)
  {
  }

  /**
   * With the same holidays, the first half's working days followed by the
   * second half's are the month's working days; total does not depend on the half.
   */
  lemma HalvesRecombine(year: int, month: int, days: string)
    requires 0 <= month <= 12
    ensures Part(year, month, days, true).total == Part(year, month, days, false).total
    ensures Part(year, month, days, false).part + Part(year, month, days, true).part
         == Part(year, month, days, false).total
  {
    var t := TotalDays(year, month);
    assert FirstHalf(t) + SecondHalf(t) == t;
    WithoutConcat(FirstHalf(t), SecondHalf(t), ParseHolidays(days));
  }

  /** Holiday lists that name the same numbers, apart from 0, filter a list without 0 alike. */
  lemma {:induction false} WithoutAgreesOffZero(s: seq<int>, h1: seq<int>, h2: seq<int>)
    requires 0 !in s
    requires forall x | x != 0 :: x in h1 <==> x in h2
    ensures Without(s, h1) == Without(s, h2)
  {
    if s != [] {
      assert s[0] != 0 && 0 !in s[1..];
      WithoutAgreesOffZero(s[1..], h1, h2);
    }
  }

  /** Holiday strings that name the same days, apart from 0, give the same partition. */
  lemma PartAgreesOffZero(year: int, month: int, days1: string, days2: string, isLast: bool)
    requires 0 <= month <= 12
    requires forall x | x != 0 :: x in ParseHolidays(days1) <==> x in ParseHolidays(days2)
    ensures Part(year, month, days1, isLast) == Part(year, month, days2, isLast)
  {
    var t := TotalDays(year, month);
    var h1, h2 := ParseHolidays(days1), ParseHolidays(days2);
    assert 0 !in t;
    WithoutAgreesOffZero(t, h1, h2);
    WithoutAgreesOffZero(FirstHalf(t), h1, h2);
    WithoutAgreesOffZero(SecondHalf(t), h1, h2);
  }

  /**
   * A token without digits stands for 0, which is no day: wherever it sits in the
   * holiday string (first, between two others, or last) the partition is the one
   * of the string without it.
   */
  lemma NoDigitTokenIsHarmless(year: int, month: int, before: string, token: string, after: string, isLast: bool)
    requires 0 <= month <= 12
    requires ',' !in token && NoDigits(token)
    ensures Part(year, month, token + [','] + after, isLast) == Part(year, month, after, isLast)
    ensures Part(year, month, before + [','] + token + [','] + after, isLast)
         == Part(year, month, before + [','] + after, isLast)
    ensures Part(year, month, before + [','] + token, isLast) == Part(year, month, before, isLast)
  {
    ParseNoDigitToken(token);
    var hb, ha := ParseHolidays(before), ParseHolidays(after);
    ParseConcat(token, after);
    PartAgreesOffZero(year, month, token + [','] + after, after, isLast);
    ParseConcat(before + [','] + token, after);
    ParseConcat(before, token);
    ParseConcat(before, after);
    assert ParseHolidays(before + [','] + token + [','] + after) == hb + [0] + ha;
    PartAgreesOffZero(year, month, before + [','] + token + [','] + after, before + [','] + after, isLast);
    PartAgreesOffZero(year, month, before + [','] + token, before, isLast);
  }

  /** In a 31-day month whose holidays are 5, 12 and 25. */
  lemma PartOfJanuary(year: int, days: string)
    requires ParseHolidays(days) == [5, 12, 25]
    ensures forall d :: d in Part(year, 1, days, false).part <==> 1 <= d <= 15 && d != 5 && d != 12
    ensures forall d :: d in Part(year, 1, days, false).total <==> 1 <= d <= 31 && d != 5 && d != 12 && d != 25
  {
    forall d ensures d in Part(year, 1, days, false).total <==> 1 <= d <= 31 && d != 5 && d != 12 && d != 25
    {
      PartMembership(year, 1, days, false, d);
    }
    forall d ensures d in Part(year, 1, days, false).part <==> 1 <= d <= 15 && d != 5 && d != 12
    {
      PartMembership(year, 1, days, false, d);
    }
  }

  /** The worked example: "5,12,25рж" removes 5 and 12 from the first half and 5, 12, 25 from the month. */
  lemma PartExample(year: int)
    ensures forall d :: d in Part(year, 1, "5,12,25рж", false).part <==> 1 <= d <= 15 && d != 5 && d != 12
    ensures forall d :: d in Part(year, 1, "5,12,25рж", false).total <==>
                        1 <= d <= 31 && d != 5 && d != 12 && d != 25
  {
    ParseExample();
    PartOfJanuary(year, "5,12,25рж");
  }
}
