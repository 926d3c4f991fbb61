/** Calendar dates as day numbers. A day is an integer counted from 1970-01-01
    (day 0); comparing two dates at local midnight, as the application does with
    `Date` objects, is comparing their day numbers. Time zones and daylight-saving
    shifts are not modelled. */
module Calendar {
  import opened Text
  import opened Wire

  predicate IsLeapYear(y: int)
  {
    y % 4 == 0 && (y % 100 != 0 || y % 400 == 0)
  }

  function DaysInMonth(y: int, m: int): (n: int)
    requires 1 <= m <= 12
    ensures 28 <= n <= 31
    ensures n == 29 <==> m == 2 && IsLeapYear(y)
  {
    if m == 2 then (if IsLeapYear(y) then 29 else 28)
    else if m == 4 || m == 6 || m == 9 || m == 11 then 30
    else 31
  }

  /** (y, m, d) names a day of the proleptic Gregorian calendar. */
  predicate IsCalendarDate(y: int, m: int, d: int)
  {
    1 <= m <= 12 && 1 <= d <= DaysInMonth(y, m)
  }

  /** The day number of year `y`, month `m`, day `d` (civil-to-days conversion over
      400-year eras). Days past the end of the month simply continue counting. */
  function DayNumber(y: int, m: int, d: int): int
    requires 1 <= m <= 12
  {
    var y' := if m <= 2 then y - 1 else y;
    var era := y' / 400;
    var yoe := y' - era * 400;
    var mp := if m > 2 then m - 3 else m + 9;
    var doy := (153 * mp + 2) / 5 + d - 1;
    var doe := yoe * 365 + yoe / 4 - yoe / 100 + doy;
    era * 146097 + doe - 719468
  }

  /** Day 0 is 1 January 1970. */
  lemma EpochIsDayZero()
    ensures DayNumber(1970, 1, 1) == 0
  {
  }

  /** The day after (y, m, d) is (y, m, d + 1) inside a month, the first of the next
      month after its last day, and 1 January after 31 December: DayNumber counts
      calendar days with no gaps. */
  lemma DayNumberNextDay(y: int, m: int, d: int)
    requires IsCalendarDate(y, m, d)
    ensures d < DaysInMonth(y, m) ==> DayNumber(y, m, d + 1) == DayNumber(y, m, d) + 1
    ensures d == DaysInMonth(y, m) && m < 12 ==> DayNumber(y, m + 1, 1) == DayNumber(y, m, d) + 1
    ensures d == 31 && m == 12 ==> DayNumber(y + 1, 1, 1) == DayNumber(y, m, d) + 1
  {
    if d < DaysInMonth(y, m) {
      DayNumberShift(y, m, d);
      DayNumberShift(y, m, d + 1);
    } else if m == 2 {
      MarchFollowsFebruary(y);
    } else if m < 12 {
      DayNumberShift(y, m, d);
      MonthStep(y, m);
    } else {
      DayNumberShift(y, m, d);
      assert DayNumber(y + 1, 1, 1) == DayNumber(y, 12, 1) + 31;
    }
  }

  /** Outside February the first of the next month follows the month's last day
      (the year used for the era does not change between the two months). */
  lemma MonthStep(y: int, m: int)
    requires 1 <= m < 12 && m != 2
    ensures DayNumber(y, m + 1, 1) == DayNumber(y, m, 1) + DaysInMonth(y, m)
  {
    var mp := if m > 2 then m - 3 else m + 9;
    assert (153 * (mp + 1) + 2) / 5 - (153 * mp + 2) / 5 == DaysInMonth(y, m);
  }

  // Arithmetic steps behind MarchFollowsFebruary.

  lemma DivUnique(y: int, q: int, r: int)
    requires y == q * 400 + r && 0 <= r < 400
    ensures y / 400 == q && y % 400 == r
  {}
  lemma FebLast(y: int, era: int, yoe: int)
    requires y - 1 == era * 400 + yoe && 0 <= yoe < 400
    ensures DayNumber(y, 2, DaysInMonth(y, 2)) == era * 146097 + yoe * 365 + yoe / 4 - yoe / 100 + 336 + DaysInMonth(y, 2) - 719468
  { DivUnique(y - 1, era, yoe); }
  lemma MarchFirst(y: int, era: int, yoe: int)
    requires y - 1 == era * 400 + yoe && 0 <= yoe < 399
    ensures DayNumber(y, 3, 1) == era * 146097 + (yoe + 1) * 365 + (yoe + 1) / 4 - (yoe + 1) / 100 - 719468
  { DivUnique(y, era, yoe + 1); }
  lemma MarchFirstEra(y: int, era: int)
    requires y == (era + 1) * 400
    ensures DayNumber(y, 3, 1) == (era + 1) * 146097 - 719468
  { DivUnique(y, era + 1, 0); }
  lemma ModOfEraOffset(y: int, era: int, r: int)
    requires y == era * 400 + r && 0 <= r < 400
    ensures y % 4 == r % 4 && y % 100 == r % 100 && y % 400 == r
  {
    DivUnique(y, era, r);
    Mod4Unique(y, era * 100 + r / 4, r % 4);
    Mod100Unique(y, era * 4 + r / 100, r % 100);
  }
  lemma Mod4Unique(y: int, q: int, r: int)
    requires y == q * 4 + r && 0 <= r < 4
    ensures y % 4 == r
  {}
  lemma Mod100Unique(y: int, q: int, r: int)
    requires y == q * 100 + r && 0 <= r < 100
    ensures y % 100 == r
  {}
  lemma QuotientStep(k: int, n: int)
    requires n == 4 || n == 100
    ensures (k + 1) / n - k / n == (if (k + 1) % n == 0 then 1 else 0)
  {
    var q := k / n;
    var r := k % n;
    assert k == q * n + r && 0 <= r < n;
    if r == n - 1 {
      assert k + 1 == (q + 1) * n;
    } else {
      assert k + 1 == q * n + (r + 1);
    }
  }
  /** 1 March follows the last day of February: the era arithmetic counts the leap day
      exactly in leap years. */
  lemma MarchFollowsFebruary(y: int)
    ensures DayNumber(y, 3, 1) == DayNumber(y, 2, DaysInMonth(y, 2)) + 1
  {
    var era := (y - 1) / 400;
    var yoe := (y - 1) % 400;
    FebLast(y, era, yoe);
    if yoe == 399 {
      MarchFirstEra(y, era);
      ModOfEraOffset(y, era + 1, 0);
    } else {
      MarchFirst(y, era, yoe);
      QuotientStep(yoe, 4);
      QuotientStep(yoe, 100);
      ModOfEraOffset(y, era, yoe + 1);
    }
  }

  // ---------------------------------------------------------------------------
  // `YYYY-MM-DD` strings
  // ---------------------------------------------------------------------------

  /** The string matches `/^\d{4}-\d{2}-\d{2}$/`. */
  predicate IsIsoShape(s: string)
  {
    |s| == 10 && AllDigits(s[..4]) && s[4] == '-' && AllDigits(s[5..7]) && s[7] == '-' && AllDigits(s[8..])
  }

  /** Splitting a `YYYY-MM-DD` string on `-` gives its three digit groups. */
  lemma IsoShapeSplit(s: string)
    requires IsIsoShape(s)
    ensures Split(s, '-') == [s[..4], s[5..7], s[8..]]
  {
    assert '-' !in s[..4] by { assert forall i :: 0 <= i < 4 ==> IsDigit(s[..4][i]); }
    assert '-' !in s[5..7] by { assert forall i :: 0 <= i < 2 ==> IsDigit(s[5..7][i]); }
    assert '-' !in s[8..] by { assert forall i :: 0 <= i < 2 ==> IsDigit(s[8..][i]); }
    assert s == s[..4] + ['-'] + (s[5..7] + ['-'] + s[8..]);
    SplitAtFirst(s[..4], '-', s[5..7] + ['-'] + s[8..]);
    SplitAtFirst(s[5..7], '-', s[8..]);
    SplitWithoutSeparator(s[8..], '-');
  }

  /** The day a `YYYY-MM-DD` string names when read by `new Date(s + 'T00:00:00')`:
      None (an Invalid Date) unless the digits form a calendar date. */
  function IsoDay(s: string): (r: Option<int>)
    requires IsIsoShape(s)
    ensures r.Some? <==> IsCalendarDate(DigitsValue(s[..4]), DigitsValue(s[5..7]), DigitsValue(s[8..]))
    ensures r.Some? ==> r.value == DayNumber(DigitsValue(s[..4]), DigitsValue(s[5..7]), DigitsValue(s[8..]))
  {
    var y := DigitsValue(s[..4]);
    var m := DigitsValue(s[5..7]);
    var d := DigitsValue(s[8..]);
    if IsCalendarDate(y, m, d) then Some(DayNumber(y, m, d)) else None
  }

  /** A `YYYY-MM-DD` string that names a calendar date: what a DATE column accepts
      from a string and what `DATE_FORMAT(d, '%Y-%m-%d')` gives back for it. */
  predicate IsIsoDate(s: string)
  {
    IsIsoShape(s) && IsoDay(s).Some?
  }

  /** The day a `YYYY-MM-DD` calendar date names. */
  function IsoDateDay(s: string): int
    requires IsIsoDate(s)
  {
    IsoDay(s).value
  }

  // ---------------------------------------------------------------------------
  // `new Date(year, monthIndex, day)`
  // ---------------------------------------------------------------------------

  /** A JavaScript Date holds at most 100,000,000 days either side of the epoch. */
  const MaxDay: int := 100_000_000

  /** The day `new Date(year, monthIndex, day)` denotes, None for an Invalid Date.
      Following the ECMAScript MakeDay operation, a year 0..99 means 1900..1999, months
      outside 0..11 carry into the year, and days outside the month carry into the
      neighbouring months. */
  function LocalDay(year: Num, monthIndex: Num, day: Num): (r: Option<int>)
    ensures r.Some? ==> -MaxDay <= r.value <= MaxDay
    ensures year.NaN? || monthIndex.NaN? || day.NaN? ==> r.None?
  {
    if year.NaN? || monthIndex.NaN? || day.NaN? then None
    else
      var y := if 0 <= year.value <= 99 then 1900 + year.value else year.value;
      var ym := y + monthIndex.value / 12;
      var mn := monthIndex.value % 12;
      var t := DayNumber(ym, mn + 1, 1) + day.value - 1;
      if -MaxDay <= t <= MaxDay then Some(t) else None
  }

  /** For a calendar date whose year is not 0..99, `new Date(y, m - 1, d)` is exactly
      that date: the lenient constructor agrees with the calendar on real dates. */
  lemma LocalDayOfCalendarDate(y: int, m: int, d: int)
    requires IsCalendarDate(y, m, d) && !(0 <= y <= 99)
    requires -MaxDay <= DayNumber(y, m, d) <= MaxDay
    ensures LocalDay(Int(y), Int(m - 1), Int(d)) == Some(DayNumber(y, m, d))
  {
    assert (m - 1) / 12 == 0 && (m - 1) % 12 == m - 1;
    DayNumberShift(y, m, d);
  }

  /** Within a month, day numbers grow one by one from the first. */
  lemma DayNumberShift(y: int, m: int, d: int)
    requires 1 <= m <= 12
    ensures DayNumber(y, m, d) == DayNumber(y, m, 1) + d - 1
  {
  }

  /** Every four-digit year's dates lie within the Date range. */
  lemma FourDigitYearsInRange(y: int, m: int, d: int)
    requires 0 <= y <= 9999 && IsCalendarDate(y, m, d)
    ensures -MaxDay <= DayNumber(y, m, d) <= MaxDay
  {
  }
}
