# Working-day calendar: a Dafny model

This project models the calendar-formatting core of a small production-calendar
service (`index.js`). The service reads a year of month records from an upstream
feed. Each record has a month number and a comma-separated holiday string.
It splices the previous year's last month onto the front of the list, re-tagged
as month 0. Then, for every adjacent pair of months, it builds:

- the day list `1..n` of the current month;
- the working days of the second half (days 16..n) of the previous month;
- the working days of the first half (days 1..15) of the current month.

Each half comes with the working days of its whole month. Separately, the
service can filter the spliced list down to one requested month.

The modules follow the parts of the computation:

- `DateMath` (`dates.dfy`) covers `getTotalDays`. It gives the day count of a
  month as `new Date(year, month, 0).getDate()` computes it, and the day list
  `1..n`. Month 0 means December of the previous year. As JavaScript's `Date`
  does, a year from 0 to 99 is read as 1900 to 1999. For every year other than 0,
  the count equals the proleptic Gregorian month length. Year 0 is read as 1900,
  so its February has 28 days. The month lengths are proved to add up to the
  length of the year.
- `HolidayParsing` (`holidays.dfy`) covers the holiday parsing inside `getPart`.
  `split(",")` is proved against its inverse `join(",")` in both directions.
  `replace(/\D/g, "")` keeps the digits '0'..'9', and unary plus reads them in
  decimal (an empty string reads as 0). The decimal reading is proved against a
  decimal printer.
- `Partitioner` (`partition.dfy`) covers `getPart`: it takes the halves
  `slice(0, 15)` and `slice(15)` and filters out the holidays.
- `Aggregator` (`aggregator.dfy`) covers `getMonthData`, `getLastMonth`, the
  splice expression of the request handler, and `formatCalendar`.
  `formatCalendar` is a method whose `while` loop fills the result list. Its
  postcondition ties every entry to a per-pair breakdown function, and the
  lemmas say what that breakdown holds.

Some behaviours of the code are worth stating outright:

- A holiday token with no digits is not dropped. It becomes 0, which removes no
  day because days start at 1. `NoDigitTokenIsHarmless` proves that such a token
  gives the same partition as the string without it, whether it comes first,
  between two other tokens, or last. It rests on `PartAgreesOffZero`: two
  holiday strings that name the same numbers apart from 0 give the same
  partition.
- When the previous year has no month list, or an empty one, `getLastMonth`
  returns the empty object `{}` (index.js:68-77), which is spliced in front of
  the target year's months. With at least one target month, `formatCalendar`
  then reaches that `{}` as the previous month and fails in `getTotalDays`,
  since `Array(NaN)` throws. A missing previous year (`null`) already fails in
  `getLastMonth` on destructuring. The model therefore requires every entry to
  be a record with a month in 0..12 whenever the list has two or more entries,
  and `MissingPriorYearIsRejected` shows that the `{}` case is outside that
  requirement. With a single entry the loop never runs, so then even the
  placeholder is accepted. A record without a `days` string would fail at
  `days.split`; the model's records always carry one.
- The previous month keeps month 0, and its year is decremented
  (index.js:54). That denotes December of two years before the target year,
  which has 31 days like every December. `MonthZeroHas31Days` shows the year
  does not matter for month 0.
- The guard `if (!year && !months && !months.length) return null` never returns
  for a month list. `formatCalendar` always returns `{ year, months }`, with an
  empty list when there are fewer than two entries.

## Model

| member | source | states |
|---|---|---|
| DateMath.DateYear | index.js:28 | The year `Date` works in: 0..99 are read as 1900..1999, every other year as itself. It has no contract of its own; `MonthLength`, `TotalDaysIsGregorianMonth` and `MonthsFillYear` state what it implies. |
| DateMath.MonthLength | index.js:28 | Month 0 has 31 days. Every month has 28 to 31 days. For a real month of any year except 0, the count equals the Gregorian month length. |
| DateMath.Range | index.js:29 | The list has length n, and element i is i + 1. |
| DateMath.TotalDays | index.js:27-30 | `getTotalDays`: the list has the month's length as `Date` computes it, and element i is i + 1. `TotalDaysIsGregorianMonth` and `MonthZeroHas31Days` state the rest. |
| DateMath.TotalDaysIsGregorianMonth | index.js:27-30 | For months 1..12, the day list has the Gregorian length of that month. It starts at 1, is strictly ascending, and contains exactly the days 1..n. |
| DateMath.MonthZeroHas31Days | index.js:28 | A month-0 day list has 31 days and does not depend on the year. |
| DateMath.MonthsFillYear | index.js:28 | Months 1..12 add up to 365 or 366 days, whichever the year `Date` works in has. |
| HolidayParsing.Split | index.js:35 | Splitting gives at least one token, and no token contains a comma. |
| HolidayParsing.JoinSplit | index.js:35 | Joining the tokens of `split(",")` with commas gives back the original string. |
| HolidayParsing.SplitJoin | index.js:35 | Splitting comma-free tokens joined with commas gives back the tokens. |
| HolidayParsing.SplitAppend | index.js:35 | Appending "," and a comma-free token appends exactly that token. |
| HolidayParsing.StripNonDigits | index.js:35 | The result holds only digits and is no longer than the token. |
| HolidayParsing.StripConcat | index.js:35 | Stripping non-digits from a concatenation strips each part. |
| HolidayParsing.DecimalValue | index.js:35 | The value of k digits is below 10^k. |
| HolidayParsing.DecimalValueOfDecimal | index.js:35 | Reading the decimal spelling of n gives n. |
| HolidayParsing.TokenValue | index.js:35 | The number one token stands for, its digits read in decimal. It has no contract of its own; `TokenWithoutDigits` and `TokenAroundDecimal` carry it. |
| HolidayParsing.TokenWithoutDigits | index.js:35 | A token with no digits stands for 0. |
| HolidayParsing.TokenAroundDecimal | index.js:35 | Non-digit text before or after a day number, as in "25рж", does not change the number it stands for. |
| HolidayParsing.ParseHolidays | index.js:35 | The holiday list `holyDays`: one number per comma-separated token. It has no contract of its own; `ParseConcat`, `ParseAppend`, `ParseNoDigitToken` and `ParseExample` carry it. |
| HolidayParsing.SplitConcat | index.js:35 | Splitting a string at one comma gives the tokens of the left side followed by those of the right side. |
| HolidayParsing.ParseConcat | index.js:35 | The holidays of two strings joined by a comma are the holidays of the first followed by those of the second. |
| HolidayParsing.ParseNoDigitToken | index.js:35 | A comma-free token without digits gives exactly the holiday list [0]. |
| HolidayParsing.ParseAppend | index.js:35 | One more token appends its number to the holiday list. |
| HolidayParsing.ParseExample | index.js:35 | "5,12,25рж" parses to the holidays 5, 12 and 25. |
| Partitioner.Without | index.js:37-38 | The filtered list is no longer than the input and contains exactly the input's elements that are not holidays. |
| Partitioner.WithoutAscending | index.js:37-38 | Filtering a strictly ascending list gives a strictly ascending list. |
| Partitioner.WithoutConcat | index.js:37-38 | Filtering a concatenation is the concatenation of the filtered parts, so order is kept. |
| Partitioner.WithoutIgnoresAbsent | index.js:37-38 | A holiday number that is not in the list removes nothing. |
| Partitioner.FirstHalf | index.js:34 | `slice(0, 15)`: the first min(15, n) days, a prefix of the list. |
| Partitioner.SecondHalf | index.js:34 | `slice(15)`: the rest, so that the first half followed by it is the whole list. |
| Partitioner.Part | index.js:32-40 | `getPart`. It has no contract of its own; `PartMembership`, `PartAscending`, `PartSubsets` and `HalvesRecombine` carry it. |
| Partitioner.PartMembership | index.js:32-39 | A day is in `total` exactly when 1 <= d <= n and no token names it. It is in `part` exactly when it is in `total` and in 1..15 (first half) or 16..n (second half). |
| Partitioner.PartAscending | index.js:32-39 | `part` and `total` are strictly ascending. |
| Partitioner.PartSubsets | index.js:32-39 | Every day of `part` is in `total`, and every day of `total` is in the month's day list. |
| Partitioner.HalvesRecombine | index.js:34-38 | `total` does not depend on the half. The first half's `part` followed by the second half's `part` equals `total`. |
| Partitioner.WithoutAgreesOffZero | index.js:37-38 | On a list without 0, two holiday lists that contain the same nonzero numbers filter out the same days. |
| Partitioner.PartAgreesOffZero | index.js:32-39 | Two holiday strings that name the same nonzero numbers give the same partition. |
| Partitioner.NoDigitTokenIsHarmless | index.js:35-38 | A token without digits, whether first, between two tokens or last, gives the same partition as the string without it. |
| Partitioner.PartOfJanuary | index.js:32-39 | In a 31-day month with holidays 5, 12 and 25, the first half holds 1..15 except 5 and 12, and `total` holds 1..31 except 5, 12 and 25. |
| Partitioner.PartExample | index.js:32-39 | The same facts for the holiday string "5,12,25рж". |
| Aggregator.EntriesOfMonth | index.js:23 | The filter result is no longer than the input and contains exactly the input's records whose month is the requested one. |
| Aggregator.MonthData | index.js:20-25 | The year is unchanged. Every kept entry is a record of the requested month, and every such record of the input is kept. |
| Aggregator.EntriesOfMonthConcat | index.js:23 | Filtering distributes over concatenation, so the original order is kept. |
| Aggregator.MonthDataIdempotent | index.js:20-25 | Filtering twice for the same month gives the same result as filtering once. |
| Aggregator.MonthDataCounts | index.js:23 | Each matching record is kept as many times as it occurs, and no other entry is kept. |
| Aggregator.LastMonth | index.js:68-77 | A missing or empty list gives `{}`. Otherwise the result is the last record, with month set to 0 and the holiday string unchanged. |
| Aggregator.MissingPriorYearIsRejected | index.js:68-77 | With no prior month list, or an empty one, and at least one target month, the spliced list has two or more entries and starts with `{}`, which `formatCalendar` cannot process. |
| Aggregator.Splice | index.js:113-116 | The year is the target year's. The prior year's re-tagged last month is at index 0, followed by the target year's records in order. |
| Aggregator.FormatCalendar | index.js:42-66 | The year is unchanged. For L entries there are L - 1 breakdowns (none for an empty list). Entry k is the breakdown of the pair (k, k + 1). |
| Aggregator.PrevYear | index.js:54 | The year passed for the previous month: one less when that month is 0. It has no contract of its own; `BreakdownContents` and `SpliceFirstBreakdown` carry it. |
| Aggregator.Breakdown | index.js:50-60 | The object stored for one pair of months. It has no contract of its own; `BreakdownContents` and `AdjacentHalvesRecombine` carry it, and `FormatCalendar` is proved against it. |
| Aggregator.BreakdownContents | index.js:47-60 | A breakdown has the current month's number, and its day list is exactly 1..n for that month. The previous working days are days 16..n of the previous month, in the decremented year when that month is 0, minus its holidays; their `total` is days 1..n of that month minus its holidays. The current working days are days 1..15 of the current month minus its holidays, and their `total` is its day list minus its holidays. |
| Aggregator.AdjacentHalvesRecombine | index.js:53-59 | For consecutive breakdowns, the current working days of one followed by the previous working days of the next equal that shared month's working days. This holds for a month-0 record too. |
| Aggregator.SpliceFirstBreakdown | index.js:53-58 | On a spliced year, the first breakdown is for the target year's first month. Its previous working days are days 16..31 of the prior year's last record (December in a complete feed), re-tagged as month 0, minus that record's holidays. |

## Left out

- The HTTP route handler (index.js:102-127) is not modelled, apart from the splice expression at index.js:113-116. This covers routing, query parsing, the 404 responses and the CORS header. The requested month is taken as an integer; the numeric coercion of the query string is not modelled.
- `fetchCalendar` and the upstream HTTP client (index.js:12-18, index.js:79-100) are network calls and a foreign cache library. Not modelled: the upstream fetch, the cache, and the cache write that stores a single-year object on every set (so caching one year evicts the others).
- The concurrent fan-out of the two fetches (`Promise.all`) is not modelled.
- Exceptions are stated as preconditions instead of being modelled. The code throws on a missing previous year (`getLastMonth(null)`), on a `{}` placeholder reaching `formatCalendar` as one of two or more entries (in `getTotalDays`), and on a record without `days` (in `days.split`); the model's records always have a holiday string.
- Month values outside 0..12 are outside the model's domain. For them, `Date` normalises an overflowing month into another year.
- Years are unbounded integers. `Date` gives an invalid date beyond about 275,000 years from 1970, which the model does not capture.
- Holiday numbers are unbounded integers. JavaScript's unary plus reads a digit string as a double, which is rounded only when the digits' value exceeds 2^53 (leading zeros do not matter). Such a value is never a day number, so the partitions are the same.
- `console.log` and `console.error` calls are not modelled.
- The assignment `newMonths[i - 1] = ...` on an initially empty array is modelled as appending, because that index is always the current length of the array.
