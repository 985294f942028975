/** Week numbering as `java.time.temporal.WeekFields` computes
    `weekOfWeekBasedYear`, and the weekly bucket key the statistics view
    builds from it. The ambient `Locale.getDefault()` becomes an explicit
    `WeekDefinition` parameter. */
module Weeks {
  import opened Text
  import opened Calendar

  /** `WeekFields.of(locale)`: the first day of the week (1 = Monday ...
      7 = Sunday) and the minimal number of days of the year in week 1. */
  datatype WeekDefinition = WeekDefinition(firstDayOfWeek: int, minimalDays: int)

  predicate ValidWeekDefinition(wd: WeekDefinition) {
    1 <= wd.firstDayOfWeek <= 7 && 1 <= wd.minimalDays <= 7
  }

  /** ISO 8601 weeks: Monday first, week 1 holds at least four days. */
  const IsoWeeks := WeekDefinition(1, 4)

  /** Days of the year before the first of month `m`. */
  function DaysBeforeMonth(y: int, m: int): (n: int)
    requires 1 <= m <= 12
    ensures 0 <= n && n + MonthLength(y, m) <= YearLength(y)
  {
    var common :=
      if m == 1 then 0 else if m == 2 then 31 else if m == 3 then 59
      else if m == 4 then 90 else if m == 5 then 120 else if m == 6 then 151
      else if m == 7 then 181 else if m == 8 then 212 else if m == 9 then 243
      else if m == 10 then 273 else if m == 11 then 304 else 334;
    if m > 2 && IsLeapYear(y) then common + 1 else common
  }

  /** `date.getDayOfYear()`. */
  function DayOfYear(d: LocalDate): (n: int)
    ensures 1 <= n <= YearLength(d.year)
  {
    DaysBeforeMonth(d.year, d.month) + d.day
  }

  /** Days from 0000-01-01 to January 1 of year `y`. */
  function DaysBeforeYear(y: nat): (n: int) {
    365 * y + (y + 3) / 4 - (y + 99) / 100 + (y + 399) / 400
  }

  /** `date.getDayOfWeek().getValue()`: 1 = Monday ... 7 = Sunday;
      0000-01-01 was a Saturday (6). */
  function IsoDayOfWeek(d: LocalDate): (n: int)
    ensures 1 <= n <= 7
  {
    (DaysBeforeYear(d.year) + DayOfYear(d) - 1 + 5) % 7 + 1
  }

  /** The day of the week counted from the locale's first day (1 ... 7). */
  function LocalizedDayOfWeek(wd: WeekDefinition, isoDow: int): (n: int)
    ensures 1 <= n <= 7
  {
    (isoDow - wd.firstDayOfWeek) % 7 + 1
  }

  /** `WeekFields.startOfWeekOffset`: where, relative to day 1 of the year,
      the first week starts. */
  function StartOfWeekOffset(wd: WeekDefinition, day: int, dow: int): (offset: int)
    requires ValidWeekDefinition(wd)
    ensures -6 <= offset <= 6
    ensures offset > 0 ==> 7 - offset >= wd.minimalDays
  {
    var weekStart := (day - dow) % 7;
    if weekStart + 1 > wd.minimalDays then 7 - weekStart else -weekStart
  }

  /** `WeekFields.computeWeek`. */
  function ComputeWeek(offset: int, day: int): (w: int) {
    (7 + offset + (day - 1)) / 7
  }

  /** The week of day `doy` of a year of `yearLen` days whose localized
      weekday is `dow`, before the `week == 0` case is handled: late days
      that belong to week 1 of the next year are renumbered. */
  function WeekInYear(wd: WeekDefinition, doy: int, yearLen: int, dow: int): (w: int)
    requires ValidWeekDefinition(wd)
    requires 365 <= yearLen <= 366 && 1 <= doy <= yearLen
    ensures 0 <= w <= 53
    ensures doy == yearLen ==> w >= 1
  {
    var offset := StartOfWeekOffset(wd, doy, dow);
    var week := ComputeWeek(offset, doy);
    if week > 50 then
      var newYearWeek := ComputeWeek(offset, yearLen + wd.minimalDays);
      if week >= newYearWeek then week - newYearWeek + 1 else week
    else week
  }

  /** `date.get(weekFields.weekOfWeekBasedYear())`. A day before week 1 takes
      the week of December 31 of the previous year. */
  function WeekOfWeekBasedYear(wd: WeekDefinition, d: LocalDate): (w: int)
    requires ValidWeekDefinition(wd)
    ensures 1 <= w <= 53
  {
    var dow := LocalizedDayOfWeek(wd, IsoDayOfWeek(d));
    var doy := DayOfYear(d);
    var week := WeekInYear(wd, doy, YearLength(d.year), dow);
    if week == 0 then
      var previousLength := YearLength(d.year - 1);
      WeekInYear(wd, previousLength, previousLength, (dow - 1 - doy) % 7 + 1)
    else week
  }

  /** The weekly bucket key: `getYear() + "-W" + String.format("%02d", week)`.
      The year is the calendar year, not the week-based year. */
  function WeekKey(wd: WeekDefinition, d: LocalDate): (key: string)
    requires ValidWeekDefinition(wd)
  {
    NatToString(d.year) + "-W" + FixedDigits(WeekOfWeekBasedYear(wd, d), 2)
  }

  /** Two-field keys `y + "-W" + w` with equally long years sort by year,
      then by week text. */
  lemma WeekFieldsOrder(ya: string, wa: string, yb: string, wb: string)
    requires |ya| == |yb|
    ensures StringLess(ya + "-W" + wa, yb + "-W" + wb)
            <==> StringLess(ya, yb) || (ya == yb && StringLess(wa, wb))
  {
    assert ya + "-W" + wa == ya + ("-W" + wa);
    assert yb + "-W" + wb == yb + ("-W" + wb);
    if ya != yb {
      StringLessHeads(ya, yb, "-W" + wa, "-W" + wb);
    } else {
      StringLessIrreflexive(ya);
      StringLessCommonPrefix(ya, "-W" + wa, "-W" + wb);
      StringLessCommonPrefix("-W", wa, wb);
    }
  }

  /** For four-digit years, sorting weekly keys as strings sorts them by
      (calendar year, week). */
  lemma WeekKeyOrder(wd: WeekDefinition, a: LocalDate, b: LocalDate)
    requires ValidWeekDefinition(wd)
    requires 1000 <= a.year && 1000 <= b.year
    ensures var wa, wb := WeekOfWeekBasedYear(wd, a), WeekOfWeekBasedYear(wd, b);
            StringLess(WeekKey(wd, a), WeekKey(wd, b))
            <==> a.year < b.year || (a.year == b.year && wa < wb)
  {
    var wa, wb := WeekOfWeekBasedYear(wd, a), WeekOfWeekBasedYear(wd, b);
    NatToStringFixed(a.year, 4);
    NatToStringFixed(b.year, 4);
    FixedDigitsOrder(a.year, b.year, 4);
    FixedDigitsOrder(wa, wb, 2);
    FixedDigitsRoundTrip(a.year, 4);
    FixedDigitsRoundTrip(b.year, 4);
    WeekFieldsOrder(FixedDigits(a.year, 4), FixedDigits(wa, 2), FixedDigits(b.year, 4), FixedDigits(wb, 2));
  }

  /** The first character of a weekly key is the first digit of the year. */
  lemma WeekKeyStartsWithYear(wd: WeekDefinition, d: LocalDate)
    requires ValidWeekDefinition(wd)
    ensures WeekKey(wd, d)[0] == NatToString(d.year)[0]
  {
  }

  /** Below year 1000 the year has fewer digits and string order breaks:
      a week of year 999 sorts after a week of year 1000. */
  lemma WeekKeyShortYearSortsLate()
    ensures StringLess(WeekKey(IsoWeeks, Date(1000, 6, 1)), WeekKey(IsoWeeks, Date(999, 6, 1)))
  {
    WeekKeyStartsWithYear(IsoWeeks, Date(1000, 6, 1));
    WeekKeyStartsWithYear(IsoWeeks, Date(999, 6, 1));
    assert NatToString(1000)[0] == '1' by {
      assert NatToString(1) == "1";
      assert 1000 / 10 == 100 && 100 / 10 == 10 && 10 / 10 == 1;
      assert NatToString(1000)[0] == NatToString(100)[0] == NatToString(10)[0] == NatToString(1)[0];
    }
    assert NatToString(999)[0] == '9' by {
      assert NatToString(9) == "9";
      assert 999 / 10 == 99 && 99 / 10 == 9;
      assert NatToString(999)[0] == NatToString(99)[0] == NatToString(9)[0];
    }
  }

  lemma ModShift(x: int, k: int)
    ensures (x + 7 * k) % 7 == x % 7
  {
    var q, r := x / 7, x % 7;
    assert x + 7 * k == 7 * (q + k) + r;
  }

  /** 2024 is a leap year and December 30 is its 365th day. */
  lemma LastDaysOf2024()
    ensures YearLength(2024) == 366
    ensures DayOfYear(Date(2024, 12, 30)) == 365
  {
    assert IsLeapYear(2024) by { assert 2024 % 4 == 0 && 2024 % 100 == 24; }
  }

  lemma DaysBefore2024()
    ensures DaysBeforeYear(2024) == 739251
  {
    assert 2027 / 4 == 506 && 2123 / 100 == 21 && 2423 / 400 == 6;
  }

  /** A date whose day count since 0000-01-01, shifted to Monday, is a
      multiple of seven is a Monday. */
  lemma MondayFromDayCount(d: LocalDate, before: int, doy: int, weeks: int)
    requires DaysBeforeYear(d.year) == before && DayOfYear(d) == doy
    requires before + doy + 4 == 7 * weeks
    ensures IsoDayOfWeek(d) == 1
  {
    ModShift(0, weeks);
  }

  /** 2024-12-30 is a Monday. */
  lemma MondayDecember30(d: LocalDate)
    requires d.year == 2024 && d.month == 12 && d.day == 30
    ensures IsoDayOfWeek(d) == 1
  {
    assert DaysBeforeYear(d.year) == 739251 by { DaysBefore2024(); }
    assert DayOfYear(d) == 365 by { LastDaysOf2024(); }
    MondayFromDayCount(d, 739251, 365, 105660);
  }

  lemma DivOfMultiple(q: int, r: int)
    requires 0 <= r < 7
    ensures (7 * q + r) / 7 == q && (7 * q + r) % 7 == r
  {
  }

  /** ISO weeks start on Monday, so the localized weekday is the ISO one. */
  lemma IsoWeeksCountFromMonday(isoDow: int)
    requires 1 <= isoDow <= 7
    ensures LocalizedDayOfWeek(IsoWeeks, isoDow) == isoDow
  {
    assert IsoWeeks.firstDayOfWeek == 1;
    DivOfMultiple(0, isoDow - 1);
  }

  /** In a leap year, day 365 on a Monday is in ISO week 1 of the next
      year. */
  lemma LateMondayInWeekOne(doy: int, yearLen: int)
    requires doy == 365 && yearLen == 366
    ensures WeekInYear(IsoWeeks, doy, yearLen, 1) == 1
  {
    DivOfMultiple(52, 0);
    assert StartOfWeekOffset(IsoWeeks, doy, 1) == 0;
    DivOfMultiple(53, 0);
    DivOfMultiple(53, 5);
  }

  /** Day 1 on a Monday is in ISO week 1. */
  lemma FirstMondayInWeekOne(doy: int, yearLen: int)
    requires doy == 1 && 365 <= yearLen <= 366
    ensures WeekInYear(IsoWeeks, doy, yearLen, 1) == 1
  {
    DivOfMultiple(0, 0);
    assert StartOfWeekOffset(IsoWeeks, doy, 1) == 0;
    DivOfMultiple(1, 0);
  }

  /** A Monday whose day of the year falls in ISO week 1 has week 1. */
  lemma MondayInWeekOne(d: LocalDate, doy: int, yearLen: int)
    requires IsoDayOfWeek(d) == 1 && DayOfYear(d) == doy && YearLength(d.year) == yearLen
    requires 365 <= yearLen <= 366 && 1 <= doy <= yearLen
    requires WeekInYear(IsoWeeks, doy, yearLen, 1) == 1
    ensures WeekOfWeekBasedYear(IsoWeeks, d) == 1
  {
    IsoWeeksCountFromMonday(1);
  }

  /** A year that starts on a Monday starts with ISO week 1. */
  lemma NewYearMondayInWeekOne(d: LocalDate)
    requires IsoDayOfWeek(d) == 1 && DayOfYear(d) == 1
    ensures WeekOfWeekBasedYear(IsoWeeks, d) == 1
  {
    var yearLen := YearLength(d.year);
    FirstMondayInWeekOne(1, yearLen);
    MondayInWeekOne(d, 1, yearLen);
  }

  lemma LateWeek(late: LocalDate)
    requires late.year == 2024 && late.month == 12 && late.day == 30
    ensures WeekOfWeekBasedYear(IsoWeeks, late) == 1
  {
    MondayDecember30(late);
    assert DayOfYear(late) == 365 && YearLength(late.year) == 366 by { LastDaysOf2024(); }
    LateMondayInWeekOne(365, 366);
    MondayInWeekOne(late, 365, 366);
  }

  lemma YearText2024()
    ensures NatToString(2024) == "2024"
  {
    assert 2024 / 10 == 202 && 202 / 10 == 20 && 20 / 10 == 2;
    assert 2024 % 10 == 4 && 202 % 10 == 2 && 20 % 10 == 0;
    assert NatToString(2) == "2";
    assert NatToString(20) == "20";
    assert NatToString(202) == "202";
  }

  /** In ISO weeks, Monday 2024-12-30 is in week 1 of week-based year 2025,
      but its key takes the calendar year: it lands in bucket "2024-W01",
      the bucket of the first week of January 2024. */
  lemma WeekKeyUsesCalendarYear(late: LocalDate)
    requires late.year == 2024 && late.month == 12 && late.day == 30
    ensures WeekOfWeekBasedYear(IsoWeeks, late) == 1
    ensures WeekKey(IsoWeeks, late) == "2024-W01"
  {
    LateWeek(late);
    assert NatToString(late.year) == "2024" by { YearText2024(); }
    assert FixedDigits(1, 2) == "01" by {
      assert FixedDigits(0, 1) == FixedDigits(0, 0) + "0";
    }
    WeekKeyFromParts(IsoWeeks, late, 1, "2024", "01");
  }

  lemma WeekKeyFromParts(wd: WeekDefinition, d: LocalDate, week: int, yearText: string, weekText: string)
    requires ValidWeekDefinition(wd)
    requires WeekOfWeekBasedYear(wd, d) == week && 0 <= week
    requires NatToString(d.year) == yearText && FixedDigits(week, 2) == weekText
    ensures WeekKey(wd, d) == yearText + "-W" + weekText
  {
  }

  /** Any two dates in week 1 of one calendar year share a bucket, whether
      the week belongs to that year or the next. */
  lemma WeekOneSharesBucket(wd: WeekDefinition, a: LocalDate, b: LocalDate)
    requires ValidWeekDefinition(wd) && a.year == b.year
    requires WeekOfWeekBasedYear(wd, a) == 1 && WeekOfWeekBasedYear(wd, b) == 1
    ensures WeekKey(wd, a) == WeekKey(wd, b)
  {
  }
}
