/** Calendar dates as `java.time.LocalDate` holds them, their ISO 8601
    calendar-date text `YYYY-MM-DD` (ISO 8601:2004 section 4.1.2.2, extended
    format), and the two parsers the expense tracker uses: the store's
    `DateTimeFormatter.ISO_LOCAL_DATE` (STRICT resolution) and the input
    dialog's `DateTimeFormatter.ofPattern("yyyy-MM-dd")` (SMART resolution).
    Years are limited to 0000-9999, the range that both write with four
    unsigned digits. */
module Calendar {
  import opened Wrappers
  import opened Text

  datatype Date = Date(year: int, month: int, day: int)

  /** Proleptic Gregorian leap years, as `Year.isLeap`. */
  predicate IsLeapYear(y: int) {
    y % 4 == 0 && (y % 100 != 0 || y % 400 == 0)
  }

  function MonthLength(y: int, m: int): (n: int)
    requires 1 <= m <= 12
    ensures 28 <= n <= 31
  {
    if m == 2 then (if IsLeapYear(y) then 29 else 28)
    else if m == 4 || m == 6 || m == 9 || m == 11 then 30
    else 31
  }

  function YearLength(y: int): (n: int) {
    if IsLeapYear(y) then 366 else 365
  }

  predicate IsCalendarDate(d: Date) {
    && 0 <= d.year <= 9999
    && 1 <= d.month <= 12
    && 1 <= d.day <= MonthLength(d.year, d.month)
  }

  /** A date that exists in the proleptic Gregorian calendar, years 0000-9999. */
  type LocalDate = d: Date | IsCalendarDate(d) witness Date(2000, 1, 1)

  /** `LocalDate.compareTo(...) < 0`: year, then month, then day. */
  predicate DateBefore(a: LocalDate, b: LocalDate) {
    a.year < b.year
    || (a.year == b.year && a.month < b.month)
    || (a.year == b.year && a.month == b.month && a.day < b.day)
  }

  // ---------------------------------------------------------------------
  // Text form
  // ---------------------------------------------------------------------

  /** `date.format(ISO_LOCAL_DATE)`, equally `date.toString()`. */
  function FormatIsoDate(d: LocalDate): (s: string)
    ensures |s| == 10 && ',' !in s && OnOneLine(s)
  {
    FixedDigits(d.year, 4) + "-" + FixedDigits(d.month, 2) + "-" + FixedDigits(d.day, 2)
  }

  /** The `YYYY-MM-DD` shape: ten characters, digits around two dashes. */
  predicate IsDateShape(s: string) {
    && |s| == 10
    && AllDigits(s[0..4]) && s[4] == '-'
    && AllDigits(s[5..7]) && s[7] == '-'
    && AllDigits(s[8..10])
  }

  /** `LocalDate.parse(s, ISO_LOCAL_DATE)`: the shape, then STRICT
      resolution, which rejects every day that the month does not have.
      `None` stands for `DateTimeParseException`. */
  function ParseIsoDate(s: string): (r: Option<LocalDate>)
    ensures r.Some? ==> IsDateShape(s)
  {
    if !IsDateShape(s) then None
    else
      var d := Date(DigitsValue(s[0..4]), DigitsValue(s[5..7]), DigitsValue(s[8..10]));
      if IsCalendarDate(d) then Some(d) else None
  }

  /** `LocalDate.parse(s, ofPattern("yyyy-MM-dd"))`. The pattern reads a
      year-of-era, so SMART resolution rejects year 0000; it accepts any day
      from 01 to 31 and moves a day the month lacks back to the month's last
      day. */
  function ParseDialogDate(s: string): (r: Option<LocalDate>)
    ensures r.Some? ==> IsDateShape(s) && r.value.year >= 1
  {
    if !IsDateShape(s) then None
    else
      var y, m, d := DigitsValue(s[0..4]), DigitsValue(s[5..7]), DigitsValue(s[8..10]);
      if 1 <= y && 1 <= m <= 12 && 1 <= d <= 31 then
        Some(Date(y, m, if d <= MonthLength(y, m) then d else MonthLength(y, m)))
      else None
  }

  lemma FormatIsoDateShape(d: LocalDate)
    ensures IsDateShape(FormatIsoDate(d))
    ensures var s := FormatIsoDate(d);
            s[0..4] == FixedDigits(d.year, 4) && s[5..7] == FixedDigits(d.month, 2)
            && s[8..10] == FixedDigits(d.day, 2)
  {
    var s := FormatIsoDate(d);
    assert s[0..4] == FixedDigits(d.year, 4);
    assert s[5..7] == FixedDigits(d.month, 2);
    assert s[8..10] == FixedDigits(d.day, 2);
  }

  /** The store reads back every date it writes. */
  lemma IsoDateRoundTrip(d: LocalDate)
    ensures ParseIsoDate(FormatIsoDate(d)) == Some(d)
  {
    FormatIsoDateShape(d);
    FixedDigitsRoundTrip(d.year, 4);
    FixedDigitsRoundTrip(d.month, 2);
    FixedDigitsRoundTrip(d.day, 2);
  }

  /** The store accepts a date text only in the form it writes itself. */
  lemma IsoDateCanonical(s: string)
    requires ParseIsoDate(s).Some?
    ensures FormatIsoDate(ParseIsoDate(s).value) == s
  {
    var d := ParseIsoDate(s).value;
    DigitsCanonical(s[0..4]);
    DigitsCanonical(s[5..7]);
    DigitsCanonical(s[8..10]);
    assert FixedDigits(d.year, 4) == s[0..4];
    assert FixedDigits(d.month, 2) == s[5..7];
    assert FixedDigits(d.day, 2) == s[8..10];
    assert s == s[0..4] + s[4..5] + s[5..7] + s[7..8] + s[8..10];
    assert s[4..5] == "-" && s[7..8] == "-";
  }

  /** On the canonical text of a date from year 0001 on, the dialog's parser
      and the store's parser agree. */
  lemma DialogDateOnCanonical(d: LocalDate)
    requires d.year >= 1
    ensures ParseDialogDate(FormatIsoDate(d)) == Some(d)
  {
    FormatIsoDateShape(d);
    FixedDigitsRoundTrip(d.year, 4);
    FixedDigitsRoundTrip(d.month, 2);
    FixedDigitsRoundTrip(d.day, 2);
  }

  /** The dialog accepts more than the store: what the store accepts from
      year 0001 on, the dialog accepts with the same meaning, and a day the
      month lacks is accepted by the dialog alone. */
  lemma {:induction false} DialogDateExtendsIsoDate(s: string)
    requires ParseIsoDate(s).Some? && ParseIsoDate(s).value.year >= 1
    ensures ParseDialogDate(s) == ParseIsoDate(s)
  {
  }

  /** The two parsers differ on a day the month lacks: the dialog clamps it
      to the month's last day, the store rejects it. */
  lemma DialogClampsStoreRejects()
    ensures ParseDialogDate("2023-02-30") == Some(Date(2023, 2, 28))
    ensures ParseIsoDate("2023-02-30") == None
  {
    var feb30 := "2023-02-30";
    assert feb30[0..4] == "2023" && feb30[5..7] == "02" && feb30[8..10] == "30";
    assert DigitsValue("2023") == 2023 by {
      assert "2023"[..3] == "202" && "202"[..2] == "20" && "20"[..1] == "2";
    }
    assert DigitsValue("02") == 2 by { assert "02"[..1] == "0"; }
    assert DigitsValue("30") == 30 by { assert "30"[..1] == "3"; }
  }

  /** The two parsers differ on year 0000: the dialog's year of era must be
      at least 1, the store's proleptic year may be 0. */
  lemma StoreAcceptsYearZero()
    ensures ParseDialogDate("0000-01-01") == None
    ensures ParseIsoDate("0000-01-01") == Some(Date(0, 1, 1))
  {
    var zero := "0000-01-01";
    assert zero[0..4] == "0000";
    assert zero[5..7] == "01";
    assert zero[8..10] == "01";
    assert DigitsValue("0000") == 0 by {
      assert "0000"[..3] == "000" && "000"[..2] == "00" && "00"[..1] == "0";
    }
    assert DigitsValue("01") == 1 by { assert "01"[..1] == "0"; }
  }

  // ---------------------------------------------------------------------
  // Year-month, as java.time.YearMonth
  // ---------------------------------------------------------------------

  datatype YearMonth = YearMonth(year: int, month: int)

  function MonthOf(d: LocalDate): (ym: YearMonth) {
    YearMonth(d.year, d.month)
  }

  /** `YearMonth.compareTo(...) < 0`: year, then month. */
  predicate MonthBefore(a: YearMonth, b: YearMonth) {
    a.year < b.year || (a.year == b.year && a.month < b.month)
  }

  /** `ym.format(ofPattern("yyyy-MM"))`. The pattern prints the year of era,
      so year 0000 (1 BCE) is labelled 0001. */
  function MonthLabel(ym: YearMonth): (s: string)
    requires 0 <= ym.year <= 9999 && 1 <= ym.month <= 12
    ensures |s| == 7 && s[4] == '-'
  {
    var yearOfEra := if ym.year >= 1 then ym.year else 1 - ym.year;
    FixedDigits(yearOfEra, 4) + "-" + FixedDigits(ym.month, 2)
  }

  /** From year 0001 on, a month's label is the first seven characters of
      the ISO text of any of its days. */
  lemma MonthLabelIsDatePrefix(d: LocalDate)
    requires d.year >= 1
    ensures MonthLabel(MonthOf(d)) == FormatIsoDate(d)[..7]
  {
    FormatIsoDateShape(d);
  }

  /** From year 0001 on, two different months never share a label. */
  lemma MonthLabelInjective(a: YearMonth, b: YearMonth)
    requires 1 <= a.year <= 9999 && 1 <= a.month <= 12
    requires 1 <= b.year <= 9999 && 1 <= b.month <= 12
    requires MonthLabel(a) == MonthLabel(b)
    ensures a == b
  {
    assert MonthLabel(a)[0..4] == FixedDigits(a.year, 4);
    assert MonthLabel(b)[0..4] == FixedDigits(b.year, 4);
    assert MonthLabel(a)[5..7] == FixedDigits(a.month, 2);
    assert MonthLabel(b)[5..7] == FixedDigits(b.month, 2);
    FixedDigitsRoundTrip(a.year, 4);
    FixedDigitsRoundTrip(b.year, 4);
    FixedDigitsRoundTrip(a.month, 2);
    FixedDigitsRoundTrip(b.month, 2);
  }

  /** Every month of year 0000 has the label of the same month of year
      0001. */
  lemma MonthLabelYearZero(m: int)
    requires 1 <= m <= 12
    ensures MonthLabel(YearMonth(0, m)) == MonthLabel(YearMonth(1, m))
  {
  }

  /** Three fixed-width fields joined by dashes sort field by field. */
  lemma DashedFieldsOrder(ya: string, ma: string, da: string, yb: string, mb: string, db: string)
    requires |ya| == |yb| && |ma| == |mb|
    ensures StringLess(ya + "-" + ma + "-" + da, yb + "-" + mb + "-" + db)
            <==> StringLess(ya, yb) || (ya == yb && (StringLess(ma, mb) || (ma == mb && StringLess(da, db))))
  {
    var ta, tb := "-" + ma + "-" + da, "-" + mb + "-" + db;
    assert ya + "-" + ma + "-" + da == ya + ta;
    assert yb + "-" + mb + "-" + db == yb + tb;
    if ya != yb {
      StringLessHeads(ya, yb, ta, tb);
    } else {
      StringLessIrreflexive(ya);
      StringLessCommonPrefix(ya, ta, tb);
      StringLessCommonPrefix("-", ma + "-" + da, mb + "-" + db);
      assert ta == "-" + (ma + "-" + da) && tb == "-" + (mb + "-" + db);
      assert ma + "-" + da == ma + ("-" + da) && mb + "-" + db == mb + ("-" + db);
      if ma != mb {
        StringLessHeads(ma, mb, "-" + da, "-" + db);
      } else {
        StringLessCommonPrefix(ma, "-" + da, "-" + db);
        StringLessCommonPrefix("-", da, db);
        StringLessIrreflexive(ma);
      }
    }
  }

  /** Fixed-width texts of small enough numbers are equal only for equal
      numbers. */
  lemma FixedDigitsInjective(a: nat, b: nat, w: nat)
    requires a < Pow10(w) && b < Pow10(w)
    ensures FixedDigits(a, w) == FixedDigits(b, w) <==> a == b
  {
    FixedDigitsRoundTrip(a, w);
    FixedDigitsRoundTrip(b, w);
  }

  /** The ISO text of dates sorts as the dates do. */
  lemma IsoDateTextOrder(a: LocalDate, b: LocalDate)
    ensures StringLess(FormatIsoDate(a), FormatIsoDate(b)) <==> DateBefore(a, b)
  {
    FixedDigitsOrder(a.year, b.year, 4);
    FixedDigitsOrder(a.month, b.month, 2);
    FixedDigitsOrder(a.day, b.day, 2);
    FixedDigitsInjective(a.year, b.year, 4);
    FixedDigitsInjective(a.month, b.month, 2);
    DashedFieldsOrder(FixedDigits(a.year, 4), FixedDigits(a.month, 2), FixedDigits(a.day, 2),
                      FixedDigits(b.year, 4), FixedDigits(b.month, 2), FixedDigits(b.day, 2));
  }
}
