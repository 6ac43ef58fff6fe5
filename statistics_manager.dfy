/** `StatisticsManager` of src/manager/statistics_manager.ts: an
    append-only store of daily records, the per-row filter that fills it
    from the data feed, and the read accessors over it. */
module Manager {
  import opened Statistics
  import opened NumberParsing
  import opened Moments

  /** One parsed CSV row of the feed, reduced to the columns the manager
      reads. Every cell is text. */
  datatype Row = Row(
    location: string,
    date: string,
    newCases: string,
    newDeaths: string,
    newVaccinations: string,
    totalCases: string,
    totalDeaths: string,
    totalVaccinations: string
  )

  /** Two decimal digits as a number. */
  function TwoDigits(tens: char, units: char): nat
    requires IsDigit(tens) && IsDigit(units)
  {
    10 * DigitValue(tens) + DigitValue(units)
  }

  /** The four leading digits of a date as a year. */
  function YearDigits(date: string): nat
    requires |date| >= 4 && IsDigit(date[0]) && IsDigit(date[1]) && IsDigit(date[2]) && IsDigit(date[3])
  {
    1000 * DigitValue(date[0]) + 100 * DigitValue(date[1]) + 10 * DigitValue(date[2]) + DigitValue(date[3])
  }

  /** The ISO 8601 calendar dates `YYYY`, `YYYY-MM` and `YYYY-MM-DD` that
      moment reads as a valid date: the month from 1 to 12, the day one
      that exists in that month of that year. */
  predicate IsIsoDate(date: string) {
    && |date| >= 4
    && IsDigit(date[0]) && IsDigit(date[1]) && IsDigit(date[2]) && IsDigit(date[3])
    && (|date| == 4 || (|date| >= 7 && HasMonth(date) && (|date| == 7 || (|date| == 10 && HasDay(date)))))
  }

  /** `-MM` after the year, with a month from 1 to 12. */
  predicate HasMonth(date: string)
    requires |date| >= 7
  {
    date[4] == '-' && IsDigit(date[5]) && IsDigit(date[6]) && 1 <= TwoDigits(date[5], date[6]) <= 12
  }

  /** `-DD` after the month, with a day that exists in that month. */
  predicate HasDay(date: string)
    requires |date| == 10 && IsDigit(date[0]) && IsDigit(date[1]) && IsDigit(date[2]) && IsDigit(date[3])
    requires HasMonth(date)
  {
    && date[7] == '-' && IsDigit(date[8]) && IsDigit(date[9])
    && 1 <= TwoDigits(date[8], date[9]) <= DaysInMonth(YearDigits(date), TwoDigits(date[5], date[6]))
  }

  /** `moment(date).year()`: the year of a valid ISO date. Any other text,
      including a well-shaped date with no such month or day, is an invalid
      date, whose year is NaN and so equals no year (None). */
  function YearOf(date: string): (y: Option<int>)
    ensures y.Some? <==> IsIsoDate(date)
    ensures y.Some? ==> 0 <= y.value <= 9999
  {
    if IsIsoDate(date) then Some(YearDigits(date)) else None
  }

  /** How the feed writes a date: `YYYY-MM-DD`, zero-padded. */
  function FormatDate(year: nat, month: nat, day: nat): (s: string)
    requires year <= 9999 && month <= 99 && day <= 99
    ensures |s| == 10
  {
    var tens := year / 10;
    var hundreds := tens / 10;
    [Digit(hundreds / 10), Digit(hundreds % 10), Digit(tens % 10), Digit(year % 10), '-',
     Digit(month / 10), Digit(month % 10), '-', Digit(day / 10), Digit(day % 10)]
  }

  /** Round trip: every existing day written as the feed writes it is read
      back with its own year. */
  lemma YearOfFormatted(year: nat, month: nat, day: nat)
    requires year <= 9999 && 1 <= month <= 12 && 1 <= day <= DaysInMonth(year, month)
    ensures YearOf(FormatDate(year, month, day)) == Some(year)
  {
    var s := FormatDate(year, month, day);
    var tens := year / 10;
    var hundreds := tens / 10;
    assert year == 10 * tens + year % 10 && tens == 10 * hundreds + tens % 10;
    assert hundreds == 10 * (hundreds / 10) + hundreds % 10;
    assert YearDigits(s) == year;
    assert TwoDigits(s[5], s[6]) == month;
    assert TwoDigits(s[8], s[9]) == day;
  }

  /** Dates moment rejects have no year: a month or a day that does not
      exist, and text that is not a date. 29 February counts only in a leap
      year. */
  lemma YearOfInvalid()
    ensures YearOf("2024-13-01") == None && YearOf("2024-04-31") == None
    ensures YearOf("2023-02-29") == None && YearOf("2024-02-29") == Some(2024)
    ensures YearOf("2024-xx") == None && YearOf("") == None
  {
    assert DaysInMonth(2024, 4) == 30;
    assert DaysInMonth(2023, 2) == 28 && DaysInMonth(2024, 2) == 29;
  }

  /** `row.location === process.env.COUNTRY`; an unset variable (None)
      matches no location. */
  predicate IsTarget(row: Row, country: Option<string>) {
    country == Some(row.location)
  }

  /** A row the handler turns into a record: the target location, dated in
      the current year. */
  predicate Accepted(row: Row, country: Option<string>, currentYear: int) {
    IsTarget(row, country) && YearOf(row.date) == Some(currentYear)
  }

  /** The record pushed for an accepted row. */
  function ToStatistic(row: Row): Statistic {
    Statistic(
      date := row.date,
      vaccinations := ParseNumber(row.newVaccinations),
      deaths := ParseNumber(row.newDeaths),
      confirmed := ParseNumber(row.newCases),
      totalVaccinations := ParseNumber(row.totalVaccinations),
      totalConfirmed := ParseNumber(row.totalCases),
      totalDeaths := ParseNumber(row.totalDeaths)
    )
  }

  /** A numeric field holds what `parseNumber` makes of its cell: 0 for a
      blank cell, otherwise `Number` of the trimmed cell. */
  predicate ParsedFrom(cell: string, field: Num) {
    && (IsBlank(cell) ==> field == Value(0.0))
    && (!IsBlank(cell) ==> field == NumberOf(Trim(cell)))
  }

  /** The record keeps the row's date and fills each numeric field from
      its own column: new cases, deaths and vaccinations and the three
      running totals. */
  lemma ToStatisticFields(row: Row)
    ensures var r := ToStatistic(row);
      && r.date == row.date
      && ParsedFrom(row.newCases, r.confirmed) && ParsedFrom(row.newDeaths, r.deaths)
      && ParsedFrom(row.newVaccinations, r.vaccinations)
      && ParsedFrom(row.totalCases, r.totalConfirmed) && ParsedFrom(row.totalDeaths, r.totalDeaths)
      && ParsedFrom(row.totalVaccinations, r.totalVaccinations)
  {
  }

  /** What the `data` handler does with one row. */
  datatype Reaction = EndStream | Skip | Push(record: Statistic)

  /** The `data` handler's decision for `row`, given whether a target row
      has already been pushed in this cycle. */
  function HandleRow(row: Row, hasSeenTarget: bool, country: Option<string>, currentYear: int): (r: Reaction)
    ensures r.EndStream? <==> hasSeenTarget && !IsTarget(row, country)
    ensures r.Push? <==> Accepted(row, country, currentYear)
    ensures r.Push? ==> r.record == ToStatistic(row)
    ensures !IsTarget(row, country) ==> !r.Push?
  {
    if !IsTarget(row, country) && hasSeenTarget then EndStream
    else if !IsTarget(row, country) then Skip
    else if YearOf(row.date) != Some(currentYear) then Skip
    else Push(ToStatistic(row))
  }

  /** The records of the accepted rows of `rows`, in order. */
  function Kept(rows: seq<Row>, country: Option<string>, currentYear: int): seq<Statistic> {
    if rows == [] then []
    else
      var last := rows[|rows| - 1];
      Kept(rows[..|rows| - 1], country, currentYear)
        + (if Accepted(last, country, currentYear) then [ToStatistic(last)] else [])
  }

  /** Reading one more row appends that row's record, if it is accepted. */
  lemma KeptStep(rows: seq<Row>, i: nat, country: Option<string>, currentYear: int)
    requires i < |rows|
    ensures Kept(rows[..i + 1], country, currentYear) == Kept(rows[..i], country, currentYear)
      + (if Accepted(rows[i], country, currentYear) then [ToStatistic(rows[i])] else [])
  {
    assert rows[..i + 1][..i] == rows[..i];
  }

  /** Index of the first accepted row at or after `from`, or |rows|. */
  function FirstAccepted(rows: seq<Row>, country: Option<string>, currentYear: int, from: nat): (k: nat)
    requires from <= |rows|
    ensures from <= k <= |rows|
    ensures k < |rows| ==> Accepted(rows[k], country, currentYear)
    ensures forall j :: from <= j < k ==> !Accepted(rows[j], country, currentYear)
    decreases |rows| - from
  {
    if from == |rows| || Accepted(rows[from], country, currentYear) then from
    else FirstAccepted(rows, country, currentYear, from + 1)
  }

  /** Index of the first row at or after `from` for another location, or |rows|. */
  function FirstNonTarget(rows: seq<Row>, country: Option<string>, from: nat): (k: nat)
    requires from <= |rows|
    ensures from <= k <= |rows|
    ensures k < |rows| ==> !IsTarget(rows[k], country)
    ensures forall j :: from <= j < k ==> IsTarget(rows[j], country)
    decreases |rows| - from
  {
    if from == |rows| || !IsTarget(rows[from], country) then from
    else FirstNonTarget(rows, country, from + 1)
  }

  /** Where a cycle stops reading: the first row for another location that
      follows the first accepted row, or the end of the input. */
  function StopIndex(rows: seq<Row>, country: Option<string>, currentYear: int): (k: nat)
    ensures k <= |rows|
  {
    FirstNonTarget(rows, country, FirstAccepted(rows, country, currentYear, 0))
  }

  /** The rows a cycle reads stop exactly at the first row for another
      location after the first accepted row: nothing earlier ends the
      stream, in particular no row before the first accepted one (other
      locations, target rows of other years). */
  lemma StopIndexIsFirstEnd(rows: seq<Row>, country: Option<string>, currentYear: int)
    ensures var k := StopIndex(rows, country, currentYear);
      && (k < |rows| ==> !IsTarget(rows[k], country)
                         && exists a :: 0 <= a < k && Accepted(rows[a], country, currentYear))
      && forall j, a :: 0 <= a < j < k && Accepted(rows[a], country, currentYear) ==> IsTarget(rows[j], country)
  {
    var a := FirstAccepted(rows, country, currentYear, 0);
    var k := StopIndex(rows, country, currentYear);
    if k < |rows| {
      if a < |rows| {
        assert IsTarget(rows[a], country);
      }
    }
    forall j, b | 0 <= b < j < k && Accepted(rows[b], country, currentYear)
      ensures IsTarget(rows[j], country)
    {
      assert a <= b;
    }
  }

  /** The handler ends the stream exactly at the stop index, and before it
      the flag `hasSeenTarget` is set exactly once the first accepted row
      has been read. */
  lemma HandleRowAdvances(rows: seq<Row>, i: nat, hasSeenTarget: bool, country: Option<string>, currentYear: int)
    requires i < |rows|
    requires i <= StopIndex(rows, country, currentYear)
    requires hasSeenTarget <==> FirstAccepted(rows, country, currentYear, 0) < i
    ensures var r := HandleRow(rows[i], hasSeenTarget, country, currentYear);
      && (r.EndStream? ==> i == StopIndex(rows, country, currentYear))
      && (!r.EndStream? ==>
            && i + 1 <= StopIndex(rows, country, currentYear)
            && ((hasSeenTarget || r.Push?) <==> FirstAccepted(rows, country, currentYear, 0) < i + 1)
            && Kept(rows[..i + 1], country, currentYear) ==
                 Kept(rows[..i], country, currentYear) + (if r.Push? then [r.record] else []))
  {
    var first := FirstAccepted(rows, country, currentYear, 0);
    var stop := StopIndex(rows, country, currentYear);
    KeptStep(rows, i, country, currentYear);
    if !IsTarget(rows[i], country) && !hasSeenTarget {
      assert i < first;
    }
  }

  /** Rows appended after an accepted row do not move the first one. */
  lemma {:induction false} FirstAcceptedPrefix(rows: seq<Row>, more: seq<Row>, country: Option<string>, currentYear: int, from: nat)
    requires from <= |rows| && FirstAccepted(rows, country, currentYear, from) < |rows|
    ensures FirstAccepted(rows + more, country, currentYear, from) == FirstAccepted(rows, country, currentYear, from)
    decreases |rows| - from
  {
    assert (rows + more)[from] == rows[from];
    if !Accepted(rows[from], country, currentYear) {
      FirstAcceptedPrefix(rows, more, country, currentYear, from + 1);
    }
  }

  /** Rows appended after a row for another location do not move the
      first such row. */
  lemma {:induction false} FirstNonTargetPrefix(rows: seq<Row>, more: seq<Row>, country: Option<string>, from: nat)
    requires from <= |rows| && FirstNonTarget(rows, country, from) < |rows|
    ensures FirstNonTarget(rows + more, country, from) == FirstNonTarget(rows, country, from)
    decreases |rows| - from
  {
    assert (rows + more)[from] == rows[from];
    if IsTarget(rows[from], country) {
      FirstNonTargetPrefix(rows, more, country, from + 1);
    }
  }

  /** Once a row has ended the stream, the rows after it change neither
      where the cycle stops nor the records it stores. */
  lemma StopIgnoresLaterRows(rows: seq<Row>, more: seq<Row>, country: Option<string>, currentYear: int)
    requires StopIndex(rows, country, currentYear) < |rows|
    ensures StopIndex(rows + more, country, currentYear) == StopIndex(rows, country, currentYear)
    ensures var k := StopIndex(rows, country, currentYear);
      Kept((rows + more)[..k], country, currentYear) == Kept(rows[..k], country, currentYear)
  {
    var a := FirstAccepted(rows, country, currentYear, 0);
    var k := StopIndex(rows, country, currentYear);
    FirstAcceptedPrefix(rows, more, country, currentYear, 0);
    FirstNonTargetPrefix(rows, more, country, a);
    assert (rows + more)[..k] == rows[..k];
  }

  /** Order preservation: the records of a concatenation are the records
      of its parts, in order. */
  lemma {:induction false} KeptConcat(a: seq<Row>, b: seq<Row>, country: Option<string>, currentYear: int)
    ensures Kept(a + b, country, currentYear) == Kept(a, country, currentYear) + Kept(b, country, currentYear)
    decreases |b|
  {
    if b == [] {
      assert a + b == a;
    } else {
      var b' := b[..|b| - 1];
      assert (a + b)[..|a + b| - 1] == a + b';
      assert (a + b)[|a + b| - 1] == b[|b| - 1];
      KeptConcat(a, b', country, currentYear);
    }
  }

  /** A row that is not accepted (another location, or another year)
      contributes no record; an accepted row contributes exactly its own,
      in place. */
  lemma KeptAround(a: seq<Row>, row: Row, b: seq<Row>, country: Option<string>, currentYear: int)
    ensures Kept(a + [row] + b, country, currentYear) ==
      Kept(a, country, currentYear)
        + (if Accepted(row, country, currentYear) then [ToStatistic(row)] else [])
        + Kept(b, country, currentYear)
  {
    KeptConcat(a, [row], country, currentYear);
    KeptConcat(a + [row], b, country, currentYear);
    assert [row][..0] == [];
  }

  /** Every record comes from an accepted row, mapped by `ToStatistic`. */
  lemma {:induction false} KeptFromAccepted(rows: seq<Row>, country: Option<string>, currentYear: int)
    ensures forall s :: s in Kept(rows, country, currentYear) ==>
      exists j :: 0 <= j < |rows| && Accepted(rows[j], country, currentYear) && s == ToStatistic(rows[j])
  {
    if rows != [] {
      var init := rows[..|rows| - 1];
      KeptFromAccepted(init, country, currentYear);
      forall s | s in Kept(rows, country, currentYear)
        ensures exists j :: 0 <= j < |rows| && Accepted(rows[j], country, currentYear) && s == ToStatistic(rows[j])
      {
        if s in Kept(init, country, currentYear) {
          var j :| 0 <= j < |init| && Accepted(init[j], country, currentYear) && s == ToStatistic(init[j]);
          assert rows[j] == init[j];
        } else {
          assert s == ToStatistic(rows[|rows| - 1]);
        }
      }
    }
  }

  /** Positions of the accepted rows. */
  function AcceptedIndices(rows: seq<Row>, country: Option<string>, currentYear: int): set<int> {
    set j | 0 <= j < |rows| && Accepted(rows[j], country, currentYear)
  }

  lemma AcceptedIndicesSnoc(rows: seq<Row>, country: Option<string>, currentYear: int)
    requires rows != []
    ensures var n := |rows| - 1;
      AcceptedIndices(rows, country, currentYear) ==
        AcceptedIndices(rows[..n], country, currentYear)
          + (if Accepted(rows[n], country, currentYear) then {n} else {})
  {
    var n := |rows| - 1;
    var init := rows[..n];
    forall j | 0 <= j < n
      ensures Accepted(rows[j], country, currentYear) == Accepted(init[j], country, currentYear)
    {
      assert rows[j] == init[j];
    }
  }

  /** Each accepted row yields exactly one record, so the number of records
      is the number of accepted rows (none when no row is accepted). */
  lemma {:induction false} KeptCountsAccepted(rows: seq<Row>, country: Option<string>, currentYear: int)
    ensures |Kept(rows, country, currentYear)| == |AcceptedIndices(rows, country, currentYear)|
  {
    if rows != [] {
      var n := |rows| - 1;
      KeptCountsAccepted(rows[..n], country, currentYear);
      AcceptedIndicesSnoc(rows, country, currentYear);
      assert n !in AcceptedIndices(rows[..n], country, currentYear);
    }
  }

  /** A feed sorted by location: rows for another country and a target
      row of the previous year come first; then two current-year target
      rows, the second with a padded cell; then the next country, and after
      it one more target row. */
  function ScenarioFeed(): seq<Row> {
    [
      Row("Denmark", "2024-01-01", "3", "", "", "", "", ""),
      Row("Norway", "2023-12-31", "2", "", "", "", "", ""),
      Row("Norway", "2024-01-01", "5", "", "", "", "", ""),
      Row("Norway", "2024-01-02", " 7 ", "", "", "", "", ""),
      Row("Poland", "2024-01-01", "9", "", "", "", "", ""),
      Row("Norway", "2024-01-03", "11", "", "", "", "", "")
    ]
  }

  lemma ScenarioStop()
    ensures StopIndex(ScenarioFeed(), Some("Norway"), 2024) == 4
  {
    var rows := ScenarioFeed();
    assert YearOf(rows[1].date) == Some(2023);
    assert YearOf(rows[2].date) == Some(2024);
    assert FirstAccepted(rows, Some("Norway"), 2024, 0) == 2;
  }

  lemma ScenarioKept()
    ensures var rows := ScenarioFeed();
      Kept(rows[..4], Some("Norway"), 2024) == [ToStatistic(rows[2]), ToStatistic(rows[3])]
  {
    var rows, country := ScenarioFeed(), Some("Norway");
    assert YearOf(rows[1].date) == Some(2023);
    assert YearOf(rows[2].date) == Some(2024);
    assert YearOf(rows[3].date) == Some(2024);
    assert !Accepted(rows[0], country, 2024) && !Accepted(rows[1], country, 2024);
    assert Accepted(rows[2], country, 2024) && Accepted(rows[3], country, 2024);
    assert rows[..0] == [];
    KeptStep(rows, 0, country, 2024);
    KeptStep(rows, 1, country, 2024);
    KeptStep(rows, 2, country, 2024);
    KeptStep(rows, 3, country, 2024);
  }

  lemma PaddedCount()
    ensures ParseNumber(" 7 ") == Value(7.0)
  {
    assert ShowInt(7) == "7";
    ParseNumberOfShowInt(" ", 7, " ");
    assert " " + "7" + " " == " 7 ";
  }

  /** One update cycle over the scenario feed: the other country and last
      year's target row are skipped without ending the stream, the two
      current-year target rows are pushed in order with the padded cell
      parsed to its count, and the next country ends the stream before the
      later target row. */
  lemma UpdateScenario()
    ensures var rows, country := ScenarioFeed(), Some("Norway");
      var kept := Kept(rows[..StopIndex(rows, country, 2024)], country, 2024);
      && StopIndex(rows, country, 2024) == 4
      && kept == [ToStatistic(rows[2]), ToStatistic(rows[3])]
      && kept[1].confirmed == Value(7.0)
  {
    ScenarioStop();
    ScenarioKept();
    PaddedCount();
  }

  /** The round trip of one cycle and the daily query: after updating a
      new manager from the scenario feed, `getDailyData()` returns the
      record of the last target row read before the stream ended. */
  method UpdateThenDaily() returns (daily: Option<Statistic>)
    ensures daily == Some(ToStatistic(ScenarioFeed()[3]))
    ensures daily.value.confirmed == Value(7.0)
  {
    var manager := new StatisticsManager();
    manager.UpdateData(ScenarioFeed(), Some("Norway"), 2024);
    UpdateScenario();
    daily := manager.GetDailyData();
  }

  /** What `getDataInRange` returns for the day indices its loop visits,
      in order: the stored record at each index, up to the first index
      past the end of the store. */
  function Collect(statistics: seq<Statistic>, days: seq<nat>): (r: seq<Statistic>)
    ensures |r| <= |days|
  {
    if days == [] || |statistics| <= days[0] then []
    else [statistics[days[0]]] + Collect(statistics, days[1..])
  }

  /** The range result reads the store at the visited indices, in order,
      and is cut short exactly at the first index past the end of the
      store. */
  lemma {:induction false} CollectReadsStore(statistics: seq<Statistic>, days: seq<nat>)
    ensures var r := Collect(statistics, days);
      && (forall k :: 0 <= k < |r| ==> days[k] < |statistics| && r[k] == statistics[days[k]])
      && (|r| < |days| ==> days[|r|] >= |statistics|)
  {
    if days != [] && days[0] < |statistics| {
      CollectReadsStore(statistics, days[1..]);
    }
  }

  /** One step of the range loop: the cursor moves to the next day, whose
      record is read unless that day is past the end of the store. */
  lemma CollectStep(statistics: seq<Statistic>, cursor: Moment, stop: Moment)
    requires Valid(cursor) && IsBefore(cursor, stop)
    ensures var day := NextDay(cursor).dayOfYear;
      Collect(statistics, Walk(cursor, stop)) ==
        if |statistics| <= day then []
        else [statistics[day]] + Collect(statistics, Walk(NextDay(cursor), stop))
  {
    var ahead := Walk(cursor, stop);
    assert ahead[1..] == Walk(NextDay(cursor), stop);
  }

  /** The stored records at indices `lo` through `hi`, cut short at the end
      of the store; empty when `lo` is already past the end. */
  function Window(statistics: seq<Statistic>, lo: nat, hi: int): seq<Statistic> {
    if lo <= hi && lo < |statistics| then statistics[lo..if hi < |statistics| then hi + 1 else |statistics|]
    else []
  }

  lemma CollectCons(statistics: seq<Statistic>, day: nat, rest: seq<nat>)
    ensures Collect(statistics, [day] + rest) ==
      if |statistics| <= day then [] else [statistics[day]] + Collect(statistics, rest)
  {
    assert ([day] + rest)[1..] == rest;
  }

  lemma WindowCons(statistics: seq<Statistic>, lo: nat, hi: int)
    requires lo <= hi && lo < |statistics|
    ensures Window(statistics, lo, hi) == [statistics[lo]] + Window(statistics, lo + 1, hi)
  {
    var end := if hi < |statistics| then hi + 1 else |statistics|;
    assert statistics[lo..end] == [statistics[lo]] + statistics[lo + 1..end];
  }

  /** On consecutive day indices the result is a window of the store. */
  lemma {:induction false} CollectInterval(statistics: seq<Statistic>, lo: nat, hi: int)
    ensures Collect(statistics, Interval(lo, hi)) == Window(statistics, lo, hi)
    decreases hi - lo
  {
    if lo <= hi {
      CollectCons(statistics, lo, Interval(lo + 1, hi));
      if lo < |statistics| {
        CollectInterval(statistics, lo + 1, hi);
        WindowCons(statistics, lo, hi);
      }
    }
  }

  /** `getDataInRange(start, end)` within one year: the records at day
      indices `start.dayOfYear()` through `end.dayOfYear() + 1` (one more
      when `start` is earlier in its day than `end`), cut short at the end
      of the store. */
  lemma RangeInYear(statistics: seq<Statistic>, start: Moment, end: Moment)
    requires Valid(start) && Valid(end) && start.year == end.year
    requires end.dayOfYear + 1 < DaysInYear(end.year)
    ensures Collect(statistics, Walk(PrevDay(start), NextDay(end))) ==
      Window(statistics, start.dayOfYear, end.dayOfYear + 1 + if start.msOfDay < end.msOfDay then 1 else 0)
  {
    var last := end.dayOfYear + 1 + if start.msOfDay < end.msOfDay then 1 else 0;
    var days := Walk(PrevDay(start), NextDay(end));
    RangeWalkInYear(start, end);
    CollectInterval(statistics, start.dayOfYear, last);
    assert Collect(statistics, days) == Collect(statistics, Interval(start.dayOfYear, last));
  }

  /** `getWeeklyData()` within one year: the records at day indices from
      seven days before `now` through one past `later` (two past when `now`
      is earlier in its day than `later`), cut short at the end of the
      store. */
  lemma WeeklyInYear(statistics: seq<Statistic>, now: Moment, later: Moment)
    requires Valid(now) && Valid(later) && now.year == later.year
    requires 7 < now.dayOfYear && later.dayOfYear + 1 < DaysInYear(later.year)
    ensures Collect(statistics, Walk(PrevDay(SubtractDays(now, 7)), NextDay(later))) ==
      Window(statistics, now.dayOfYear - 7, later.dayOfYear + 1 + if now.msOfDay < later.msOfDay then 1 else 0)
  {
    var start := SubtractDays(now, 7);
    assert start.year == now.year && start.dayOfYear == now.dayOfYear - 7 && start.msOfDay == now.msOfDay;
    RangeInYear(statistics, start, later);
  }

  /** The day index of a moment is read as a store index: a range of one
      day, 1 January, returns the second and third records and never the
      first; and a range that runs past the end of the store returns the
      records read before that point rather than nothing. */
  lemma RangeScenario(a: Statistic, b: Statistic, c: Statistic, ms: int)
    requires 0 <= ms < MsPerDay
    ensures var jan1 := Moment(2024, 1, ms);
      Collect([a, b, c], Walk(PrevDay(jan1), NextDay(jan1))) == [b, c]
    ensures var jan1, jan5 := Moment(2024, 1, ms), Moment(2024, 5, ms);
      Collect([a, b], Walk(PrevDay(jan1), NextDay(jan5))) == [b]
  {
    var jan1, jan5 := Moment(2024, 1, ms), Moment(2024, 5, ms);
    RangeInYear([a, b, c], jan1, jan1);
    RangeInYear([a, b], jan1, jan5);
  }

  class StatisticsManager {
    /** The store: records in the order they were pushed. */
    var statistics: seq<Statistic>

    /** A new manager starts with an empty store (the daily update timer it
        also starts is not part of this model). */
    constructor ()
      ensures statistics == []
    {
      statistics := [];
    }

    /** One update cycle over the parsed rows of the feed: rows for other
        locations are skipped until a record has been pushed, after which
        the first such row ends the stream; target rows of other years are
        skipped; the others are pushed in order. */
    method UpdateData(rows: seq<Row>, country: Option<string>, currentYear: int)
      modifies this
      ensures statistics ==
        old(statistics) + Kept(rows[..StopIndex(rows, country, currentYear)], country, currentYear)
    {
      ghost var first := FirstAccepted(rows, country, currentYear, 0);
      ghost var stop := StopIndex(rows, country, currentYear);
      var hasSeenTarget := false;
      var i := 0;
      while i < |rows|
        invariant 0 <= i <= stop
        invariant hasSeenTarget <==> first < i
        invariant statistics == old(statistics) + Kept(rows[..i], country, currentYear)
      {
        var reaction := HandleRow(rows[i], hasSeenTarget, country, currentYear);
        HandleRowAdvances(rows, i, hasSeenTarget, country, currentYear);
        if reaction.EndStream? {
          assert i == stop;
          break;
        }
        ghost var read := Kept(rows[..i + 1], country, currentYear);
        assert read == Kept(rows[..i], country, currentYear)
          + (if reaction.Push? then [reaction.record] else []);
        if reaction.Push? {
          hasSeenTarget := true;
          statistics := statistics + [reaction.record];
        }
        assert statistics == old(statistics) + read;
        i := i + 1;
      }
      assert i == stop;
    }

    /** `getDailyData()`: the most recently pushed record, nothing
        (`undefined`) while the store is empty. */
    function GetDailyData(): (r: Option<Statistic>)
      reads this
      ensures r.None? <==> statistics == []
      ensures r.Some? ==> r.value == statistics[|statistics| - 1]
    {
      if |statistics| == 0 then None else Some(statistics[|statistics| - 1])
    }

    /** `getDataInRange(start, end)`: steps a cursor from the day before
        `start` while it is before the day after `end`, reading the record
        at the cursor's day of the year after each step, and returns what it
        has read as soon as that index is past the end of the store. */
    method GetDataInRange(start: Moment, end: Moment) returns (result: seq<Statistic>)
      requires Valid(start) && Valid(end)
      ensures result == Collect(statistics, Walk(PrevDay(start), NextDay(end)))
    {
      result := [];
      var cursor := PrevDay(start);
      var stop := NextDay(end);
      ghost var days := Walk(cursor, stop);
      while IsBefore(cursor, stop)
        invariant Valid(cursor)
        invariant result + Collect(statistics, Walk(cursor, stop)) == Collect(statistics, days)
        decreases stop.year - cursor.year, DaysInYear(cursor.year) - cursor.dayOfYear
      {
        CollectStep(statistics, cursor, stop);
        cursor := NextDay(cursor);
        var dayOfYear := cursor.dayOfYear;
        if |statistics| <= dayOfYear {
          return;
        }
        result := result + [statistics[dayOfYear]];
      }
    }

    /** `getWeeklyData()`: the range from a week before the clock reading
        `now` to the later reading `later` that `getDataInRange` takes as
        its default end. */
    method GetWeeklyData(now: Moment, later: Moment) returns (result: seq<Statistic>)
      requires Valid(now) && Valid(later)
      ensures result == Collect(statistics, Walk(PrevDay(SubtractDays(now, 7)), NextDay(later)))
    {
      result := GetDataInRange(SubtractDays(now, 7), later);
    }

    /** `getMonthlyData()`: the range from `monthAgo`, the clock reading
        moved back one calendar month, to the later reading `later`. */
    method GetMonthlyData(monthAgo: Moment, later: Moment) returns (result: seq<Statistic>)
      requires Valid(monthAgo) && Valid(later)
      ensures result == Collect(statistics, Walk(PrevDay(monthAgo), NextDay(later)))
    {
      result := GetDataInRange(monthAgo, later);
    }
  }
}
