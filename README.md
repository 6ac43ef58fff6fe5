# kosvid-api statistics manager, modelled in Dafny

This project models `StatisticsManager` of the kosvid-api service
(src/manager/statistics_manager.ts). The service keeps one year of daily
COVID-19 figures for one country in memory. The model covers four parts:

- **The store.** `statistics` is an append-only list of `Statistic` records.
  `Manager.StatisticsManager` is a class whose `seq<Statistic>` field is only
  ever extended.
- **`parseNumber`.** A cell that is blank after JavaScript's `trim()` becomes 0.
  Any other cell goes through `Number(...)`. Integer and plain decimal numerals
  are evaluated exactly. Every other outcome (NaN, exponent, hexadecimal and
  `Infinity` forms) is kept as `Unparsed(text)`. Module `NumberParsing`.
- **The update cycle.** This is the `data` handler of `updateData`, run over a
  finite sequence of already-parsed CSV rows. `UpdateData` is a loop with the
  `hasSeenTarget` flag and a `break` where the handler ends the stream.
  - Rows for other locations are skipped.
  - So are target rows of another year.
  - Current-year target rows are converted and pushed.
  - After the first push, the first row for another location ends the stream.
  
  The contract of `UpdateData` ties the new store to two specification
  functions: `Kept`, which lists the records of the accepted rows, and
  `StopIndex`, which gives where the stream ends. Lemmas characterise both.
- **The read accessors.**
  - `GetDailyData` returns the last record.
  - `GetDataInRange` is the `while` loop as written. It steps a `moment` day by
    day and reads `statistics[dayOfYear]`.
  - `GetWeeklyData` and `GetMonthlyData` are range queries.
  
  Module `Moments` models the part of `moment` these use:
  - year, 1-based day of the year, and time of day;
  - adding and subtracting a day across year ends with the Gregorian leap rule;
  - `isBefore`.

Behaviour of the code that the model keeps as written:

- `dayOfYear()` is 1-based, but it is used directly as a store index. A range
  starting on 1 January therefore starts at the second stored record
  (`Manager.RangeScenario`).
- The loop visits the days from `start` through the day after `end`. It visits
  one day more when `start` is earlier in its day than `end`, because the
  bound is `end` plus one day at its own time of day
  (`Moments.RangeWalkInYear`).
- When the walk runs past the end of the store, the records read so far are
  returned, not an empty list (`Manager.RangeScenario`).
- A record is never removed or replaced. A second update cycle appends the
  same year's records again after the first ones (the `old(statistics) + ...`
  of `UpdateData`).
- A row for another location that comes after the first pushed record ends the
  cycle, even when more target rows follow it (`Manager.UpdateScenario`).
  Rows before the first pushed record, including target rows of earlier years,
  never end it (`Manager.StopIndexIsFirstEnd`).

## Model

The definitions that carry no contract of their own (`Trim`, `NumberOf`,
`IsTarget`, `Accepted`, `Kept`, `StopIndex`, `Walk`, `Collect`'s day
lists) are pinned down by the lemmas below that state their properties.

| member | source | states |
|---|---|---|
| NumberParsing.TrimSpec | src/manager/statistics_manager.ts:16 | `trim()` yields the empty string exactly for input made only of JavaScript whitespace; otherwise the result starts and ends with a non-whitespace character |
| NumberParsing.TrimPadded | src/manager/statistics_manager.ts:16 | `trim()` removes exactly the whitespace padding around a token that neither starts nor ends with whitespace |
| NumberParsing.ParseNumber | src/manager/statistics_manager.ts:15-17 | a blank cell (empty or all whitespace) parses to 0; any other cell is `Number` of the trimmed cell, because exactly the blank cells trim to nothing |
| NumberParsing.NumberOfSigned | src/manager/statistics_manager.ts:16 | `Number`'s optional sign: `+` keeps the value of the unsigned numeral, `-` negates it, and a sign never makes unreadable text a number |
| NumberParsing.ParseNumberOfShowInt | src/manager/statistics_manager.ts:15-17 | round trip: the decimal numeral of any integer, with any whitespace around it, parses back to that integer |
| NumberParsing.FractionValueBounds | src/manager/statistics_manager.ts:16 | the digits after a decimal point add a proper fraction: at least 0 and below 1 |
| NumberParsing.FractionValueOfZeros | src/manager/statistics_manager.ts:16 | a fraction made only of zeros adds nothing |
| NumberParsing.DecimalValueOfParts | src/manager/statistics_manager.ts:16 | `Number("w.f")` for digit strings `w` and `f` (not both empty) is the value of `w` plus the fraction `0.f` |
| NumberParsing.ParseNumberOfPadded | src/manager/statistics_manager.ts:15-17 | an unsigned numeral with whitespace on both sides parses to the numeral's own value |
| NumberParsing.ParseNumberOfDecimal | src/manager/statistics_manager.ts:15-17 | round trip for decimal cells: a numeral with digits around its point, with any whitespace around it, parses to the whole part plus the fraction |
| NumberParsing.ParseNumberOfZeroFraction | src/manager/statistics_manager.ts:15-17 | a count written as `n.0` (any number of zeros), with any whitespace around it, parses to `n` |
| Moments.IsBeforeOrder | src/manager/statistics_manager.ts:52 | `isBefore` is irreflexive, asymmetric, transitive and total on distinct moments |
| Moments.NextDay | src/manager/statistics_manager.ts:49 | `add(1, "days")` keeps the time of day, moves strictly later, and steps to the next day of the year or to 1 January of the next year |
| Moments.PrevDay | src/manager/statistics_manager.ts:50 | `subtract(1, "days")` keeps the time of day, moves strictly earlier, and steps to the previous day or to the last day of the previous year |
| Moments.NextDayUndoesPrevDay | src/manager/statistics_manager.ts:49-50 | adding a day and subtracting a day are mutually inverse |
| Moments.SubtractDays | src/manager/statistics_manager.ts:76 | subtracting `n` days keeps the time of day, moves earlier when `n > 0`, and within one year lowers the day of the year by `n` |
| Moments.WalkDays | src/manager/statistics_manager.ts:52-54 | the day indices the loop reads are all at least 1, so the first stored record is never read |
| Moments.WalkInYear | src/manager/statistics_manager.ts:52-54 | within one year, the loop reads the consecutive days after the cursor up to the bound's day, plus one more when the cursor is earlier in its day |
| Moments.RangeWalkInYear | src/manager/statistics_manager.ts:48-54 | after the inclusive adjustments, the loop reads the days from `start` through `end + 1`, or `end + 2` when `start` is earlier in its day than `end` |
| Manager.YearOf | src/manager/statistics_manager.ts:113 | a date has a year exactly when it is a valid ISO `YYYY`, `YYYY-MM` or `YYYY-MM-DD` date (existing month, existing day of that month, leap years counted), and the year is a four-digit year |
| Manager.YearOfFormatted | src/manager/statistics_manager.ts:113 | round trip: every existing day written `YYYY-MM-DD` as the feed writes it is read back with its own year |
| Manager.YearOfInvalid | src/manager/statistics_manager.ts:113 | dates moment rejects (month 13, 31 April, 29 February of a common year, non-date text) have no year and so never match the current year; 29 February of a leap year does |
| Manager.ToStatisticFields | src/manager/statistics_manager.ts:118-126 | the pushed record keeps the row's date, and each numeric field is the parse of its own column: 0 for a blank cell, otherwise `Number` of the trimmed cell |
| Manager.HandleRow | src/manager/statistics_manager.ts:102-126 | the handler ends the stream iff a target row was already pushed and this row is for another location; it pushes iff the row is for the target in the current year, and then pushes the mapped record; another location never pushes |
| Manager.FirstAccepted | src/manager/statistics_manager.ts:113-117 | the first row that the handler pushes: that row is accepted and no earlier row is |
| Manager.FirstNonTarget | src/manager/statistics_manager.ts:103-105 | the first row for another location from a given position: every row before it is for the target |
| Manager.StopIndexIsFirstEnd | src/manager/statistics_manager.ts:99-110 | the cycle stops at a row for another location that comes after an accepted row, and every row between an accepted row and the stop is for the target |
| Manager.HandleRowAdvances | src/manager/statistics_manager.ts:99-117 | row by row, the handler ends the stream exactly at the stop index, and `hasSeenTarget` becomes true exactly after the first accepted row |
| Manager.StopIgnoresLaterRows | src/manager/statistics_manager.ts:103-105 | rows appended after the one that ends the stream change neither where the cycle stops nor the records it stores |
| Manager.KeptStep | src/manager/statistics_manager.ts:117-126 | reading one more row appends that row's record exactly when it is accepted |
| Manager.KeptConcat | src/manager/statistics_manager.ts:108-126 | order preservation: the records of concatenated row sequences are the concatenation of their records |
| Manager.KeptAround | src/manager/statistics_manager.ts:108-126 | a rejected row (another location or another year) adds nothing, and an accepted row adds exactly its own record in place |
| Manager.KeptFromAccepted | src/manager/statistics_manager.ts:108-126 | every stored record is the mapped record of some accepted row |
| Manager.KeptCountsAccepted | src/manager/statistics_manager.ts:108-126 | exactly one record is stored per accepted row: the number of records equals the number of accepted rows, so with no accepted row nothing is stored |
| Manager.UpdateScenario | src/manager/statistics_manager.ts:99-126 | on a feed sorted by location, earlier countries and last year's target row are skipped, this year's two target rows are pushed in order (a padded cell parsed to its count), and the next country stops the cycle before a later target row |
| Manager.UpdateThenDaily | src/manager/statistics_manager.ts:67-69 | after one update cycle of a new manager over the scenario feed, `getDailyData()` returns the record of the last target row read before the stream ended, with its padded cell parsed to its count |
| Manager.Collect | src/manager/statistics_manager.ts:52-59 | the range result has at most one record per visited day |
| Manager.CollectReadsStore | src/manager/statistics_manager.ts:52-59 | the k-th record of the range result is the stored record at the k-th visited index, and a result shorter than the walk stops exactly at a visited index past the end of the store |
| Manager.CollectStep | src/manager/statistics_manager.ts:52-58 | one loop step: the cursor advances a day and its record is read, or the result is final when that index is past the store |
| Manager.CollectInterval | src/manager/statistics_manager.ts:52-59 | reading consecutive indices yields a contiguous slice of the store, cut short at its end |
| Manager.RangeInYear | src/manager/statistics_manager.ts:42-61 | within one year, `getDataInRange(start, end)` is the slice of the store from index `start.dayOfYear()` through `end.dayOfYear() + 1` (+1 when `start` is earlier in its day), cut at the end of the store |
| Manager.WeeklyInYear | src/manager/statistics_manager.ts:75-77 | within one year, the weekly data is the slice of the store from seven days before now through one or two days past the end moment |
| Manager.RangeScenario | src/manager/statistics_manager.ts:52-59 | a one-day range on 1 January returns the second and third records, and a range past the end of a two-record store returns the one record read before the end |
| Manager.StatisticsManager.constructor | src/manager/statistics_manager.ts:23 | a new manager has an empty store |
| Manager.StatisticsManager.UpdateData | src/manager/statistics_manager.ts:91-134 | the store becomes the old store followed by the records of the accepted rows read before the stop index, in input order; earlier records are unchanged |
| Manager.StatisticsManager.GetDailyData | src/manager/statistics_manager.ts:67-69 | nothing (`undefined`) exactly when the store is empty, otherwise the last stored record |
| Manager.StatisticsManager.GetDataInRange | src/manager/statistics_manager.ts:42-61 | the loop returns the stored records at the walked day indices, stopping at the first index past the end of the store; the store is not modified |
| Manager.StatisticsManager.GetWeeklyData | src/manager/statistics_manager.ts:75-77 | the range query from one week before now to the default end moment |
| Manager.StatisticsManager.GetMonthlyData | src/manager/statistics_manager.ts:83-85 | the range query from the month-ago moment to the default end moment |

## Left out

- The daily self-rescheduling timer in the constructor (src/manager/statistics_manager.ts:25-34) is timer scheduling. The model exposes one update cycle as a method.
- The download, the CSV parser and the stream's `error` handler (src/manager/statistics_manager.ts:92-101, 128-133) are I/O and foreign-library behaviour. `UpdateData` takes the finite sequence of parsed rows, and ending the stream is leaving the loop.
- Rows that the stream library may still deliver after `emit("end")` are not modelled: no row after the stop is read.
- `async`/`Promise` wrappers add no logic and are left out.
- Manager.StatisticsManager.GetDataInRange: the source also advances the caller's `start` and `end` objects in place (it mutates them). The model takes values and does not model that aliasing.
- Manager.StatisticsManager.GetMonthlyData: `moment().subtract(1, "month")` (calendar-month arithmetic, clamped to the month's length) is not modelled. The month-ago moment is a parameter.
- Manager.StatisticsManager.GetWeeklyData: the clock (`moment()`) is read twice in the source, once for the start and once for the default end. Both readings are parameters (`now`, `later`).
- Manager.YearOf: only the ISO 8601 calendar forms `YYYY`, `YYYY-MM` and `YYYY-MM-DD` are given a year. moment's other ISO forms (week and ordinal dates, the basic forms without `-`, a time-of-day suffix, six-digit years, leading whitespace) and its fallback to the JavaScript `Date` parser for other text give no year in the model. Time zones and daylight-saving shifts are not modelled.
- NumberParsing.ParseNumber: `Number(...)` is evaluated exactly only for an optional sign followed by an integer or plain decimal numeral. Exponent, hexadecimal, octal, binary and `Infinity` forms, and NaN, all stay `Unparsed`. Binary64 rounding is not modelled; values are exact reals.
- Manager.RangeInYear and Manager.WeeklyInYear: these describe ranges that stay within one year. Ranges that cross 31 December are covered only by the general contract of `GetDataInRange`, which ties the result to `Collect` over `Walk`.
- The unused columns of `FetchedRow` (src/manager/statistics_manager.ts:140-206) are not modelled. The model keeps location, date and the six numeric cells.
- The HTTP controller and the server start-up are not part of this model.
