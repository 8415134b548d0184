/**
 * Calendar arithmetic of the planner, following the ECMAScript Date algorithms
 * the browser runs (section 21.4.1 of ECMA-262: DayFromYear, MakeDay, MakeDate,
 * WeekDay) on local wall-clock time. Months are numbered from 0 (January) as
 * getMonth() returns them. Time zones and daylight saving are not modelled: an
 * instant is a count of local milliseconds since 1970-01-01 00:00.
 */
module Dates {
  import Text

  const MS_PER_HOUR: int := 3600000
  const MS_PER_DAY: int := 86400000

  predicate IsLeapYear(y: int) {
    y % 4 == 0 && (y % 100 != 0 || y % 400 == 0)
  }

  function YearLength(y: int): int {
    if IsLeapYear(y) then 366 else 365
  }

  /** The proleptic Gregorian length of month `m` (0 = January) of year `y`. */
  function DaysInMonth(y: int, m: int): (n: int)
    requires 0 <= m < 12
    ensures 28 <= n <= 31
    ensures n == 29 <==> m == 1 && IsLeapYear(y)
    ensures n == 28 <==> m == 1 && !IsLeapYear(y)
  {
    if m == 1 then (if IsLeapYear(y) then 29 else 28)
    else if m == 3 || m == 5 || m == 8 || m == 10 then 30
    else 31
  }

  /** Days of year `y` that precede the first day of month `m` (m = 12: the whole year). */
  function DaysBeforeMonth(y: int, m: int): int
    requires 0 <= m <= 12
  {
    var leap := if IsLeapYear(y) && m >= 2 then 1 else 0;
    leap + (
      if m == 0 then 0 else if m == 1 then 31 else if m == 2 then 59
      else if m == 3 then 90 else if m == 4 then 120 else if m == 5 then 151
      else if m == 6 then 181 else if m == 7 then 212 else if m == 8 then 243
      else if m == 9 then 273 else if m == 10 then 304 else if m == 11 then 334
      else 365)
  }

  lemma DaysBeforeNextMonth(y: int, m: int)
    requires 0 <= m < 12
    ensures DaysBeforeMonth(y, m + 1) == DaysBeforeMonth(y, m) + DaysInMonth(y, m)
  {
  }

  /** ECMAScript DayFromYear, as the standard writes it: the day number of
      1 January of year `y`, with floor division. */
  function DayFromYearFormula(y: int): int {
    365 * (y - 1970) + (y - 1969) / 4 - (y - 1901) / 100 + (y - 1601) / 400
  }

  /** The day number of 1 January of year `y`, counted from 1970 one year at a time. */
  function DayFromYear(y: int): int
    decreases if y < 1970 then 1970 - y else y - 1970
  {
    if y == 1970 then 0
    else if y > 1970 then DayFromYear(y - 1) + YearLength(y - 1)
    else DayFromYear(y + 1) - YearLength(y)
  }

  /** Consecutive New Year's days lie one year length apart. */
  lemma YearStep(y: int)
    ensures DayFromYear(y + 1) == DayFromYear(y) + YearLength(y)
  {
  }

  lemma Step4(y: int)
    ensures (y - 1968) / 4 - (y - 1969) / 4 == if y % 4 == 0 then 1 else 0
  {
    var q, r := y / 4, y % 4;
    assert y - 1968 == 4 * (q - 492) + r;
  }

  lemma Step100(y: int)
    ensures (y - 1900) / 100 - (y - 1901) / 100 == if y % 100 == 0 then 1 else 0
  {
    var q, r := y / 100, y % 100;
    assert y - 1900 == 100 * (q - 19) + r;
  }

  lemma Step400(y: int)
    ensures (y - 1600) / 400 - (y - 1601) / 400 == if y % 400 == 0 then 1 else 0
  {
    var q, r := y / 400, y % 400;
    assert y - 1600 == 400 * (q - 4) + r;
  }

  /** The standard's closed form advances by one year length from year to year. */
  lemma FormulaStep(y: int)
    ensures DayFromYearFormula(y + 1) == DayFromYearFormula(y) + YearLength(y)
  {
    var d4 := (y - 1968) / 4 - (y - 1969) / 4;
    var d100 := (y - 1900) / 100 - (y - 1901) / 100;
    var d400 := (y - 1600) / 400 - (y - 1601) / 400;
    assert DayFromYearFormula(y + 1) == DayFromYearFormula(y) + 365 + d4 - d100 + d400;
    Step4(y);
    Step100(y);
    Step400(y);
    DivisorChain(y);
  }

  lemma DivisorChain(y: int)
    ensures y % 400 == 0 ==> y % 100 == 0
    ensures y % 100 == 0 ==> y % 4 == 0
  {
    var m, r := y / 100, y % 100;
    assert y == 100 * m + r && 0 <= r < 100;
    if y % 400 == 0 {
      var q := y / 400;
      assert y == 400 * q;
      assert r == 100 * (4 * q - m);
    }
    if r == 0 {
      var n, s := y / 4, y % 4;
      assert y == 4 * n + s && 0 <= s < 4;
      assert s == 4 * (25 * m - n);
    }
  }

  /** The year-by-year count is the standard's closed form. */
  lemma {:induction false} DayFromYearAgrees(y: int)
    ensures DayFromYear(y) == DayFromYearFormula(y)
    decreases if y < 1970 then 1970 - y else y - 1970
  {
    if y > 1970 {
      DayFromYearAgrees(y - 1);
      FormulaStep(y - 1);
    } else if y < 1970 {
      DayFromYearAgrees(y + 1);
      FormulaStep(y);
    }
  }

  lemma {:induction false} DayFromYearMonotone(y1: int, y2: int)
    requires y1 < y2
    ensures DayFromYear(y1) + YearLength(y1) <= DayFromYear(y2)
    decreases y2 - y1
  {
    YearStep(y1);
    if y1 + 1 < y2 {
      DayFromYearMonotone(y1 + 1, y2);
    }
  }

  /** ECMAScript MakeDay: the day number of date `date` of month `month` of `year`,
      where an out-of-range month carries into the year and an out-of-range date
      runs on into the neighbouring months. */
  function MakeDay(year: int, month: int, date: int): int {
    var ym := year + month / 12;
    var mn := month % 12;
    DayFromYear(ym) + DaysBeforeMonth(ym, mn) + date - 1
  }

  /** ECMAScript WeekDay: 0 is Sunday; day 0 (1970-01-01) was a Thursday. */
  function WeekDay(dayNumber: int): (w: int)
    ensures 0 <= w < 7
  {
    (dayNumber + 4) % 7
  }

  /** A calendar day as getFullYear(), getMonth() and getDate() report it. */
  datatype CivilDate = CivilDate(year: int, month: int, day: int) {
    predicate Valid() {
      0 <= month < 12 && 1 <= day <= DaysInMonth(year, month)
    }
  }

  function DayNumber(c: CivilDate): int {
    MakeDay(c.year, c.month, c.day)
  }

  /** Strict calendar order: year, then month, then day. */
  predicate Before(a: CivilDate, b: CivilDate) {
    a.year < b.year ||
    (a.year == b.year && (a.month < b.month || (a.month == b.month && a.day < b.day)))
  }

  /** For a valid date MakeDay needs no carrying: year start + month start + day. */
  lemma DayNumberOfValid(c: CivilDate)
    requires c.Valid()
    ensures DayNumber(c) == DayFromYear(c.year) + DaysBeforeMonth(c.year, c.month) + c.day - 1
  {
    assert c.month / 12 == 0 && c.month % 12 == c.month;
  }

  lemma DaysBeforeMonthMonotone(y: int, m1: int, m2: int)
    requires 0 <= m1 < m2 <= 12
    ensures DaysBeforeMonth(y, m1 + 1) <= DaysBeforeMonth(y, m2)
  {
  }

  lemma DayNumberWithinYear(c: CivilDate)
    requires c.Valid()
    ensures DayFromYear(c.year) <= DayNumber(c) < DayFromYear(c.year) + YearLength(c.year)
    ensures DaysBeforeMonth(c.year, c.month) <= DayNumber(c) - DayFromYear(c.year) < DaysBeforeMonth(c.year, c.month + 1)
  {
    DayNumberOfValid(c);
    DaysBeforeNextMonth(c.year, c.month);
    DaysBeforeMonthMonotone(c.year, c.month, 12);
  }

  lemma DayNumberIncreasing(a: CivilDate, b: CivilDate)
    requires a.Valid() && b.Valid() && Before(a, b)
    ensures DayNumber(a) < DayNumber(b)
  {
    DayNumberWithinYear(a);
    DayNumberWithinYear(b);
    if a.year < b.year {
      DayFromYearMonotone(a.year, b.year);
    } else if a.month < b.month {
      DaysBeforeMonthMonotone(a.year, a.month, b.month);
    } else {
      DayNumberOfValid(a);
      DayNumberOfValid(b);
    }
  }

  /** Day numbers order valid dates exactly as the calendar does. */
  lemma DayNumberOrder(a: CivilDate, b: CivilDate)
    requires a.Valid() && b.Valid()
    ensures DayNumber(a) < DayNumber(b) <==> Before(a, b)
    ensures DayNumber(a) == DayNumber(b) <==> a == b
  {
    if Before(a, b) {
      DayNumberIncreasing(a, b);
    } else if Before(b, a) {
      DayNumberIncreasing(b, a);
    } else {
      assert a == b;
    }
  }

  /** `new Date(y, m + 1, 0)` is the last day of month `m`: its date is DaysInMonth(y, m). */
  lemma DayZeroOfNextMonth(y: int, m: int)
    requires 0 <= m < 12
    ensures CivilDate(y, m, DaysInMonth(y, m)).Valid()
    ensures MakeDay(y, m + 1, 0) == DayNumber(CivilDate(y, m, DaysInMonth(y, m)))
  {
    DayNumberOfValid(CivilDate(y, m, DaysInMonth(y, m)));
    DaysBeforeNextMonth(y, m);
    if m == 11 {
      assert (m + 1) / 12 == 1 && (m + 1) % 12 == 0;
      YearStep(y);
    } else {
      assert (m + 1) / 12 == 0 && (m + 1) % 12 == m + 1;
    }
  }

  /** The day before a valid date. */
  function PrevDay(c: CivilDate): (r: CivilDate)
    requires c.Valid()
    ensures r.Valid()
    ensures DayNumber(r) == DayNumber(c) - 1
  {
    DayNumberOfValid(c);
    if c.day > 1 then
      DayNumberOfValid(CivilDate(c.year, c.month, c.day - 1));
      CivilDate(c.year, c.month, c.day - 1)
    else if c.month > 0 then
      DayNumberOfValid(CivilDate(c.year, c.month - 1, DaysInMonth(c.year, c.month - 1)));
      DaysBeforeNextMonth(c.year, c.month - 1);
      CivilDate(c.year, c.month - 1, DaysInMonth(c.year, c.month - 1))
    else
      DayNumberOfValid(CivilDate(c.year - 1, 11, 31));
      YearStep(c.year - 1);
      CivilDate(c.year - 1, 11, 31)
  }

  /** The calendar day `n` days before `c`: what `setDate(getDate() - n)` lands on. */
  function DaysBack(c: CivilDate, n: nat): (r: CivilDate)
    requires c.Valid()
    ensures r.Valid()
    ensures DayNumber(r) == DayNumber(c) - n
    ensures DayNumber(r) == MakeDay(c.year, c.month, c.day - n)
  {
    if n == 0 then c else PrevDay(DaysBack(c, n - 1))
  }

  /** `setMonth(getMonth() - 1)` keeps the date and moves back by the length of the
      previous month, so from the 29th-31st it can land in the current month. */
  lemma MonthBack(c: CivilDate)
    requires c.Valid()
    ensures var py := if c.month == 0 then c.year - 1 else c.year;
            var pm := if c.month == 0 then 11 else c.month - 1;
            MakeDay(c.year, c.month - 1, c.day) == DayNumber(c) - DaysInMonth(py, pm)
  {
    DayNumberOfValid(c);
    if c.month == 0 {
      assert (c.month - 1) / 12 == -1 && (c.month - 1) % 12 == 11;
      YearStep(c.year - 1);
    } else {
      assert (c.month - 1) / 12 == 0 && (c.month - 1) % 12 == c.month - 1;
      DaysBeforeNextMonth(c.year, c.month - 1);
    }
  }

  // ---------------------------------------------------------------------------
  // Date-times and instants.

  /** A local wall-clock date-time, as a due date picked in the form denotes it. */
  datatype DateTime = DateTime(date: CivilDate, msOfDay: int) {
    predicate Valid() {
      date.Valid() && 0 <= msOfDay < MS_PER_DAY
    }
  }

  /** ECMAScript MakeDate: milliseconds since the epoch. */
  function Instant(t: DateTime): int {
    DayNumber(t.date) * 86400000 + t.msOfDay
  }

  /** Instants order valid date-times by day, then by time of day. */
  lemma InstantOrder(a: DateTime, b: DateTime)
    requires a.Valid() && b.Valid()
    ensures Instant(a) < Instant(b) <==>
            Before(a.date, b.date) || (a.date == b.date && a.msOfDay < b.msOfDay)
    ensures Instant(a) == Instant(b) <==> a == b
  {
    DayNumberOrder(a.date, b.date);
  }

  // ---------------------------------------------------------------------------
  // The same-day key: formatDateForComparison renders a date as "Y-MM-DD".

  function DayKey(c: CivilDate): string {
    Text.IntToString(c.year) + "-" + Text.PadStart2(Text.IntToString(c.month + 1)) +
    "-" + Text.PadStart2(Text.IntToString(c.day))
  }

  /** Reads a day key back: the year before the last six characters, then two
      two-digit fields. */
  function ParseDayKey(k: string): CivilDate {
    if |k| < 6 then CivilDate(0, 0, 0)
    else CivilDate(Text.ParseInt(k[..|k| - 6]),
                   Text.ParseNat(k[|k| - 5..|k| - 3]) - 1,
                   Text.ParseNat(k[|k| - 2..]))
  }

  lemma DayKeyRoundTrip(c: CivilDate)
    requires c.Valid()
    ensures ParseDayKey(DayKey(c)) == c
  {
    var y := Text.IntToString(c.year);
    var mm := Text.PadStart2(Text.IntToString(c.month + 1));
    var dd := Text.PadStart2(Text.IntToString(c.day));
    assert |mm| == 2 && Text.ParseNat(mm) == c.month + 1 by {
      Text.PaddedRoundTrip(c.month + 1);
    }
    assert |dd| == 2 && Text.ParseNat(dd) == c.day by {
      Text.PaddedRoundTrip(c.day);
    }
    assert Text.ParseInt(y) == c.year by {
      Text.IntToStringRoundTrip(c.year);
    }
    assert DayKey(c) == y + "-" + mm + "-" + dd;
    KeyFields(y, mm, dd);
  }

  /** A key is read back field by field: the year before the last six characters,
      then the two-digit month and day. */
  lemma KeyFields(y: string, mm: string, dd: string)
    requires |mm| == 2 && |dd| == 2
    ensures ParseDayKey(y + "-" + mm + "-" + dd) ==
            CivilDate(Text.ParseInt(y), Text.ParseNat(mm) - 1, Text.ParseNat(dd))
  {
    var k := y + "-" + mm + "-" + dd;
    assert k[..|k| - 6] == y;
    assert k[|k| - 5..|k| - 3] == mm;
    assert k[|k| - 2..] == dd;
  }

  /** Two valid dates share a comparison key exactly when they are the same day. */
  lemma SameDayKey(a: CivilDate, b: CivilDate)
    requires a.Valid() && b.Valid()
    ensures DayKey(a) == DayKey(b) <==> a == b
  {
    DayKeyRoundTrip(a);
    DayKeyRoundTrip(b);
  }
}
