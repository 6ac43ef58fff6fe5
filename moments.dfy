/** The part of the `moment` date library that `getDataInRange` relies on
    (src/manager/statistics_manager.ts:42-61): a local calendar day, given
    as its year and its 1-based day of the year (what `dayOfYear()`
    returns), and a time of day in milliseconds. Adding or subtracting a
    day keeps the time of day; `isBefore` compares to the millisecond. */
module Moments {

  const MsPerDay: int := 86_400_000

  /** Days in a year of the proleptic Gregorian calendar. */
  function DaysInYear(year: int): int {
    if (year % 4 == 0 && year % 100 != 0) || year % 400 == 0 then 366 else 365
  }

  /** Days in `month` (1 to 12) of `year`. */
  function DaysInMonth(year: int, month: int): int {
    if month == 2 then (if DaysInYear(year) == 366 then 29 else 28)
    else if month == 4 || month == 6 || month == 9 || month == 11 then 30
    else 31
  }

  datatype Moment = Moment(year: int, dayOfYear: int, msOfDay: int)

  /** Every moment the library produces names an existing day. */
  predicate Valid(m: Moment) {
    1 <= m.dayOfYear <= DaysInYear(m.year) && 0 <= m.msOfDay < MsPerDay
  }

  /** `a.isBefore(b)`. */
  predicate IsBefore(a: Moment, b: Moment) {
    || a.year < b.year
    || (a.year == b.year && a.dayOfYear < b.dayOfYear)
    || (a.year == b.year && a.dayOfYear == b.dayOfYear && a.msOfDay < b.msOfDay)
  }

  /** `isBefore` is a strict total order on moments. */
  lemma IsBeforeOrder(a: Moment, b: Moment, c: Moment)
    ensures !IsBefore(a, a)
    ensures IsBefore(a, b) ==> !IsBefore(b, a)
    ensures IsBefore(a, b) && IsBefore(b, c) ==> IsBefore(a, c)
    ensures a != b ==> IsBefore(a, b) || IsBefore(b, a)
  {
  }

  /** `m.add(1, "days")`: the same time on the next calendar day. */
  function NextDay(m: Moment): (r: Moment)
    requires Valid(m)
    ensures Valid(r) && IsBefore(m, r) && r.msOfDay == m.msOfDay
    ensures m.dayOfYear < DaysInYear(m.year) ==> r.year == m.year && r.dayOfYear == m.dayOfYear + 1
    ensures m.dayOfYear == DaysInYear(m.year) ==> r.year == m.year + 1 && r.dayOfYear == 1
  {
    if m.dayOfYear == DaysInYear(m.year) then Moment(m.year + 1, 1, m.msOfDay)
    else Moment(m.year, m.dayOfYear + 1, m.msOfDay)
  }

  /** `m.subtract(1, "days")`: the same time on the previous calendar day. */
  function PrevDay(m: Moment): (r: Moment)
    requires Valid(m)
    ensures Valid(r) && IsBefore(r, m) && r.msOfDay == m.msOfDay
    ensures m.dayOfYear > 1 ==> r.year == m.year && r.dayOfYear == m.dayOfYear - 1
    ensures m.dayOfYear == 1 ==> r.year == m.year - 1 && r.dayOfYear == DaysInYear(m.year - 1)
  {
    if m.dayOfYear == 1 then Moment(m.year - 1, DaysInYear(m.year - 1), m.msOfDay)
    else Moment(m.year, m.dayOfYear - 1, m.msOfDay)
  }

  /** Stepping a day back and a day forward are inverse. */
  lemma NextDayUndoesPrevDay(m: Moment)
    requires Valid(m)
    ensures NextDay(PrevDay(m)) == m && PrevDay(NextDay(m)) == m
  {
  }

  /** `m.subtract(n, "days")`. */
  function SubtractDays(m: Moment, n: nat): (r: Moment)
    requires Valid(m)
    ensures Valid(r) && r.msOfDay == m.msOfDay
    ensures n < m.dayOfYear ==> r.year == m.year && r.dayOfYear == m.dayOfYear - n
    ensures n > 0 ==> IsBefore(r, m)
  {
    if n == 0 then m else PrevDay(SubtractDays(m, n - 1))
  }

  /** The days `lo`, `lo + 1`, ..., `hi` (none when `lo > hi`). */
  function Interval(lo: nat, hi: int): (s: seq<nat>)
    ensures |s| == if lo <= hi then hi - lo + 1 else 0
    decreases hi - lo
  {
    if lo > hi then [] else [lo] + Interval(lo + 1, hi)
  }

  /** The `dayOfYear()` values `getDataInRange` reads when its cursor starts
      at `cur` and its bound is `stop`: before each read the cursor steps one
      day forward, for as long as it is before the bound. */
  function Walk(cur: Moment, stop: Moment): (days: seq<nat>)
    requires Valid(cur)
    decreases stop.year - cur.year, DaysInYear(cur.year) - cur.dayOfYear
  {
    if IsBefore(cur, stop) then
      var next := NextDay(cur);
      [next.dayOfYear as nat] + Walk(next, stop)
    else []
  }

  /** Every day the walk reads is a day of the year counted from 1, so day
      index 0 is never read. */
  lemma {:induction false} WalkDays(cur: Moment, stop: Moment)
    requires Valid(cur)
    ensures var days := Walk(cur, stop);
      forall k :: 0 <= k < |days| ==> days[k] >= 1
    decreases stop.year - cur.year, DaysInYear(cur.year) - cur.dayOfYear
  {
    if IsBefore(cur, stop) {
      var next := NextDay(cur);
      WalkDays(next, stop);
      assert Walk(cur, stop) == [next.dayOfYear as nat] + Walk(next, stop);
    }
  }

  /** Within one year the walk reads the consecutive days after the cursor
      up to the bound's day, and one day more when the cursor's time of day
      is earlier than the bound's. */
  lemma {:induction false} WalkInYear(cur: Moment, stop: Moment)
    requires Valid(cur) && Valid(stop) && cur.year == stop.year
    requires stop.dayOfYear < DaysInYear(stop.year)
    ensures Walk(cur, stop) ==
      Interval(cur.dayOfYear + 1, stop.dayOfYear + if cur.msOfDay < stop.msOfDay then 1 else 0)
    decreases stop.dayOfYear - cur.dayOfYear + 1
  {
    var hi := stop.dayOfYear + if cur.msOfDay < stop.msOfDay then 1 else 0;
    if IsBefore(cur, stop) {
      var next := NextDay(cur);
      assert next.year == cur.year && next.dayOfYear == cur.dayOfYear + 1;
      WalkInYear(next, stop);
    }
  }

  /** The walk `getDataInRange` performs for `start` and `end` (its cursor
      starts the day before `start`, its bound is the day after `end`)
      reads every day from `start` to one past `end` when both moments
      carry the same time of day, and two past `end` when `start`'s time is
      earlier, provided the year does not end in between. */
  lemma RangeWalkInYear(start: Moment, end: Moment)
    requires Valid(start) && Valid(end) && start.year == end.year
    requires end.dayOfYear + 1 < DaysInYear(end.year)
    ensures Walk(PrevDay(start), NextDay(end)) ==
      Interval(start.dayOfYear, end.dayOfYear + 1 + if start.msOfDay < end.msOfDay then 1 else 0)
  {
    var cur, stop := PrevDay(start), NextDay(end);
    if start.dayOfYear > 1 {
      WalkInYear(cur, stop);
    } else {
      assert IsBefore(cur, stop);
      assert NextDay(cur) == start;
      WalkInYear(start, stop);
    }
  }
}
