/**
 * The month records of a year, the splice of the prior year's last month onto
 * their front, the month filter (`getMonthData`) and the per-month breakdown
 * (`formatCalendar`).
 */
module Aggregator {
  import opened DateMath
  import opened HolidayParsing
  import opened Partitioner

  datatype Option<T> = None | Some(value: T)

  /** A month record of the upstream feed: its number and its holiday string. */
  datatype RawMonth = RawMonth(month: int, days: string)

  /** A year of the upstream feed. */
  datatype RawYear = RawYear(year: int, months: seq<RawMonth>)

  /** An entry of the spliced month list: a record, or the empty object `{}`. */
  datatype MonthEntry = EmptyEntry | Entry(record: RawMonth)

  /** The spliced year handed to `getMonthData` and `formatCalendar`. */
  datatype SplicedYear = SplicedYear(year: int, months: seq<MonthEntry>)

  datatype MonthBreakdown = MonthBreakdown(
    month: int,
    totalDays: seq<int>,
    prevWorkDays: DayPartition,
    currentWorkDays: DayPartition)

  datatype YearlyBreakdown = YearlyBreakdown(year: int, months: seq<MonthBreakdown>)

  // ---------------------------------------------------------------------------
  // getMonthData

  /**
   * Whether an entry is a record of the requested month (index.js:23); the empty
   * object has no month and matches no month.
   */
  predicate IsMonth(e: MonthEntry, month: int) {
    e.Entry? && e.record.month == month
  }

  /** The entries of the requested month, in their order (index.js:23). */
  function EntriesOfMonth(entries: seq<MonthEntry>, month: int): (r: seq<MonthEntry>)
    ensures |r| <= |entries|
    ensures forall e :: e in r <==> e in entries && IsMonth(e, month)
  {
    if entries == [] then []
    else (if IsMonth(entries[0], month) then [entries[0]] else []) + EntriesOfMonth(entries[1..], month)
  }

  /** The year with its entries narrowed to one month (index.js:20-25). */
  function MonthData(data: SplicedYear, month: int): (r: SplicedYear)
    ensures r.year == data.year
    ensures forall i | 0 <= i < |r.months| :: IsMonth(r.months[i], month)
    ensures forall e :: e in r.months <==> e in data.months && IsMonth(e, month)
  {
    SplicedYear(data.year, EntriesOfMonth(data.months, month))
  }

  /** The filter keeps the original order: it works piece by piece over a concatenation. */
  lemma {:induction false} EntriesOfMonthConcat(a: seq<MonthEntry>, b: seq<MonthEntry>, month: int)
    ensures EntriesOfMonth(a + b, month) == EntriesOfMonth(a, month) + EntriesOfMonth(b, month)
  {
    if a == [] {
      assert a + b == b;
    } else {
      assert (a + b)[0] == a[0] && (a + b)[1..] == a[1..] + b;
      EntriesOfMonthConcat(a[1..], b, month);
      var h := if IsMonth(a[0], month) then [a[0]] else [];
      assert h + (EntriesOfMonth(a[1..], month) + EntriesOfMonth(b, month))
          == (h + EntriesOfMonth(a[1..], month)) + EntriesOfMonth(b, month);
    }
  }

  /** Filtering twice for the same month changes nothing. */
  lemma {:induction false} MonthDataIdempotent(data: SplicedYear, month: int)
    ensures MonthData(MonthData(data, month), month) == MonthData(data, month)
  {
    KeepsMatching(EntriesOfMonth(data.months, month), month);
  }

  lemma {:induction false} KeepsMatching(entries: seq<MonthEntry>, month: int)
    requires forall i | 0 <= i < |entries| :: IsMonth(entries[i], month)
    ensures EntriesOfMonth(entries, month) == entries
  {
    if entries != [] {
      KeepsMatching(entries[1..], month);
      assert [entries[0]] + entries[1..] == entries;
    }
  }

  /** Each matching record is kept once for every time it occurs, and nothing else is kept. */
  lemma {:induction false} MonthDataCounts(entries: seq<MonthEntry>, month: int, e: MonthEntry)
    ensures multiset(EntriesOfMonth(entries, month))[e] ==
            if IsMonth(e, month) then multiset(entries)[e] else 0
  {
    if entries != [] {
      MonthDataCounts(entries[1..], month, e);
      assert entries == [entries[0]] + entries[1..];
    }
  }

  // ---------------------------------------------------------------------------
  // getLastMonth and the splice

  /**
   * The prior year's last record (index.js:68-77) re-tagged as month 0, or `{}`
   * when the list is missing or empty.
   */
  function LastMonth(months: Option<seq<RawMonth>>): (r: MonthEntry)
    ensures r.Entry? <==> months.Some? && |months.value| > 0
    ensures r.Entry? ==> r.record.month == 0
    ensures r.Entry? ==> r.record.days == months.value[|months.value| - 1].days
  {
    if months.Some? && |months.value| > 0 then
      Entry(months.value[|months.value| - 1].(month := 0))
    else
      EmptyEntry
  }

  /**
   * The target year with the prior year's re-tagged last month placed in front
   * of its months (index.js:113-116).
   */
  function Splice(prior: Option<seq<RawMonth>>, target: RawYear): (r: SplicedYear)
    ensures r.year == target.year
    ensures |r.months| == |target.months| + 1
    ensures r.months[0] == LastMonth(prior)
    ensures forall i | 0 <= i < |target.months| :: r.months[i + 1] == Entry(target.months[i])
  {
    SplicedYear(target.year, [LastMonth(prior)] + seq(|target.months|, i requires 0 <= i < |target.months| => Entry(target.months[i])))
  }

  /**
   * Without a usable prior year (no month list, or an empty one) the splice puts
   * `{}` in front of the target year's months, so with at least one target month
   * the breakdown's precondition fails: index.js throws there (index.js:28-29,
   * `Array(NaN)`).
   */
  lemma MissingPriorYearIsRejected(prior: Option<seq<RawMonth>>, target: RawYear)
    requires prior.None? || |prior.value| == 0
    requires |target.months| >= 1
    ensures |Splice(prior, target).months| >= 2
    ensures Splice(prior, target).months[0] == EmptyEntry
    ensures !WellFormed(Splice(prior, target).months[0])
  {
  }

  // ---------------------------------------------------------------------------
  // formatCalendar

  /** A record `formatCalendar` can process: a record (not `{}`) with a month in 0..12. */
  predicate WellFormed(e: MonthEntry) {
    e.Entry? && 0 <= e.record.month <= 12
  }

  /** The year of the previous month: one less for a month-0 record (index.js:54). */
  function PrevYear(year: int, prevMonth: int): int {
    if prevMonth == 0 then year - 1 else year
  }

  /** The breakdown `formatCalendar` stores for the pair (prev, curr). */
  function Breakdown(year: int, prev: RawMonth, curr: RawMonth): MonthBreakdown
    requires 0 <= prev.month <= 12 && 0 <= curr.month <= 12
  {
    MonthBreakdown(
      curr.month,
      TotalDays(year, curr.month),
      Part(PrevYear(year, prev.month), prev.month, prev.days, true),
      Part(year, curr.month, curr.days, false))
  }

  /**
   * The yearly breakdown (index.js:42-66): one breakdown per adjacent pair of the
   * list, stored at the index of the pair's first element.
   */
  method FormatCalendar(data: SplicedYear) returns (r: YearlyBreakdown)
    requires |data.months| <= 1 || forall i | 0 <= i < |data.months| :: WellFormed(data.months[i])
    ensures r.year == data.year
    ensures |r.months| == if |data.months| == 0 then 0 else |data.months| - 1
    ensures forall k {:trigger r.months[k]} | 0 <= k < |data.months| - 1 ::
              WellFormed(data.months[k]) && WellFormed(data.months[k + 1]) &&
              r.months[k] == Breakdown(data.year, data.months[k].record, data.months[k + 1].record)
  {
    var months := data.months;
    var newMonths: seq<MonthBreakdown> := [];
    var i := 1;
    while i < |months|
      invariant 1 <= i <= if |months| == 0 then 1 else |months|
      invariant |newMonths| == i - 1
      invariant forall k | 0 <= k < i - 1 ::
                  newMonths[k] == Breakdown(data.year, months[k].record, months[k + 1].record)
    {
      var curr := months[i].record;
      var prev := months[i - 1].record;
      var totalDays := TotalDays(data.year, curr.month);
      // index.js stores at index i - 1 (index.js:50), which is always the current length
      newMonths := newMonths + [MonthBreakdown(
        curr.month,
        totalDays,
        Part(PrevYear(data.year, prev.month), prev.month, prev.days, true),
        Part(data.year, curr.month, curr.days, false))];
      i := i + 1;
    }
    r := YearlyBreakdown(data.year, newMonths);
  }

  // ---------------------------------------------------------------------------
  // What a breakdown holds

  /**
   * A breakdown is for the current month, lists all of its days, and draws its
   * previous working days from days 16.. of the previous month and its current
   * working days from days 1..15 of the current month, holidays removed.
   */
  lemma BreakdownContents(year: int, prev: RawMonth, curr: RawMonth)
    requires 0 <= prev.month <= 12 && 0 <= curr.month <= 12
    ensures Breakdown(year, prev, curr).month == curr.month
    ensures Breakdown(year, prev, curr).totalDays == Range(MonthLength(year, curr.month))
    ensures |Breakdown(year, prev, curr).totalDays| == MonthLength(year, curr.month)
    ensures StrictlyAscending(Breakdown(year, prev, curr).totalDays)
    ensures forall d :: d in Breakdown(year, prev, curr).prevWorkDays.part <==>
              16 <= d <= MonthLength(PrevYear(year, prev.month), prev.month) && d !in ParseHolidays(prev.days)
    ensures forall d :: d in Breakdown(year, prev, curr).prevWorkDays.total <==>
              1 <= d <= MonthLength(PrevYear(year, prev.month), prev.month) && d !in ParseHolidays(prev.days)
    ensures forall d :: d in Breakdown(year, prev, curr).currentWorkDays.part <==>
              1 <= d <= 15 && d <= MonthLength(year, curr.month) && d !in ParseHolidays(curr.days)
    ensures forall d :: d in Breakdown(year, prev, curr).currentWorkDays.total <==>
              d in Breakdown(year, prev, curr).totalDays && d !in ParseHolidays(curr.days)
  {
    var b := Breakdown(year, prev, curr);
    forall d ensures d in b.prevWorkDays.part <==>
              16 <= d <= MonthLength(PrevYear(year, prev.month), prev.month) && d !in ParseHolidays(prev.days)
    {
      PartMembership(PrevYear(year, prev.month), prev.month, prev.days, true, d);
    }
    forall d ensures d in b.prevWorkDays.total <==>
              1 <= d <= MonthLength(PrevYear(year, prev.month), prev.month) && d !in ParseHolidays(prev.days)
    {
      PartMembership(PrevYear(year, prev.month), prev.month, prev.days, true, d);
    }
    forall d ensures d in b.currentWorkDays.part <==>
              1 <= d <= 15 && d <= MonthLength(year, curr.month) && d !in ParseHolidays(curr.days)
    {
      PartMembership(year, curr.month, curr.days, false, d);
    }
    forall d ensures d in b.currentWorkDays.total <==> d in b.totalDays && d !in ParseHolidays(curr.days)
    {
      PartMembership(year, curr.month, curr.days, false, d);
    }
  }

  /**
   * Adjacent breakdowns share a month: the current working days of one entry
   * followed by the previous working days of the next are that month's working
   * days. This holds for a month-0 record too, whose year is shifted but whose
   * length is 31 either way.
   */
  lemma AdjacentHalvesRecombine(year: int, a: RawMonth, b: RawMonth, c: RawMonth)
    requires 0 <= a.month <= 12 && 0 <= b.month <= 12 && 0 <= c.month <= 12
    ensures Breakdown(year, a, b).currentWorkDays.part + Breakdown(year, b, c).prevWorkDays.part
         == Breakdown(year, a, b).currentWorkDays.total
  {
    if b.month == 0 {
      MonthZeroHas31Days(year - 1, year);
    }
    HalvesRecombine(year, b.month, b.days);
  }

  /**
   * On a spliced year whose prior year has months, the first breakdown is for
   * the target year's first month and its previous working days are days 16..31
   * of the prior year's last record (December in a complete feed), re-tagged as
   * month 0, minus that record's holidays.
   */
  lemma SpliceFirstBreakdown(prior: seq<RawMonth>, target: RawYear)
    requires |prior| > 0 && |target.months| > 0
    requires 0 <= target.months[0].month <= 12
    ensures var s := Splice(Some(prior), target);
            var b := Breakdown(s.year, s.months[0].record, s.months[1].record);
            b.month == target.months[0].month &&
            b.prevWorkDays == Part(target.year - 1, 0, prior[|prior| - 1].days, true) &&
            (forall d :: d in b.prevWorkDays.part <==>
               16 <= d <= 31 && d !in ParseHolidays(prior[|prior| - 1].days))
  {
    var s := Splice(Some(prior), target);
    assert s.months[1] == Entry(target.months[0]);
    BreakdownContents(s.year, s.months[0].record, s.months[1].record);
  }
}
