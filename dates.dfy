/**
 * The UTC calendar arithmetic that JavaScript's Date performs for the
 * ingester: instants are milliseconds since 1970-01-01T00:00:00Z, a UTC day
 * is an integer day number counted from 1970-01-01 (negative before it), and
 * civil dates follow the proleptic Gregorian calendar from year 0 on.
 */
module Dates {
  import opened Common

  const MsPerDay: int := 86400000

  /** Day number of 1970-01-01 counted from 0000-01-01. */
  const EpochOffset: nat := 719528

  predicate IsLeapYear(y: int) {
    y % 4 == 0 && (y % 100 != 0 || y % 400 == 0)
  }

  function DaysInYear(y: int): int {
    if IsLeapYear(y) then 366 else 365
  }

  function DaysInMonth(y: int, m: int): int
    requires 1 <= m <= 12
  {
    if m == 2 then (if IsLeapYear(y) then 29 else 28)
    else if m == 4 || m == 6 || m == 9 || m == 11 then 30
    else 31
  }

  /** Days of year y before the first of month m (m = 13 gives the whole year). */
  function DaysBeforeMonth(y: int, m: int): int
    requires 1 <= m <= 13
  {
    var common :=
      if m == 1 then 0 else if m == 2 then 31 else if m == 3 then 59
      else if m == 4 then 90 else if m == 5 then 120 else if m == 6 then 151
      else if m == 7 then 181 else if m == 8 then 212 else if m == 9 then 243
      else if m == 10 then 273 else if m == 11 then 304 else if m == 12 then 334
      else 365;
    common + (if m > 2 && IsLeapYear(y) then 1 else 0)
  }

  /** Days from 0000-01-01 to the first of January of year y. */
  function DaysBeforeYear(y: nat): int {
    365 * y + (y + 3) / 4 - (y + 99) / 100 + (y + 399) / 400
  }

  /** The count of multiples of k (k = 4, 100, 400) below y + 1 grows by one exactly at a multiple. */
  lemma MultiplesStep(y: nat)
    ensures (y + 4) / 4 - (y + 3) / 4 == (if y % 4 == 0 then 1 else 0)
    ensures (y + 100) / 100 - (y + 99) / 100 == (if y % 100 == 0 then 1 else 0)
    ensures (y + 400) / 400 - (y + 399) / 400 == (if y % 400 == 0 then 1 else 0)
  {
    var q4, q100, q400 := y / 4, y / 100, y / 400;
    assert y == 4 * q4 + y % 4 && y == 100 * q100 + y % 100 && y == 400 * q400 + y % 400;
  }

  /** A multiple of 400 is a multiple of 100, which is a multiple of 4. */
  lemma MultiplesNest(y: nat)
    ensures y % 100 == 0 ==> y % 4 == 0
    ensures y % 400 == 0 ==> y % 100 == 0
  {
    if y % 100 == 0 {
      assert y == 4 * (25 * (y / 100));
    }
    if y % 400 == 0 {
      assert y == 100 * (4 * (y / 400));
    }
  }

  lemma DaysBeforeYearStep(y: nat)
    ensures DaysBeforeYear(y + 1) == DaysBeforeYear(y) + DaysInYear(y)
  {
    MultiplesStep(y);
    MultiplesNest(y);
    var leap4, leap100, leap400 := y % 4 == 0, y % 100 == 0, y % 400 == 0;
    assert DaysInYear(y) == 365 + (if leap4 then 1 else 0) - (if leap100 then 1 else 0) + (if leap400 then 1 else 0);
  }

  /**
   * Day number from 0000-01-01 of year/month/day, where the day of month may
   * run past the month's end or below 1 (the engine's MakeDay carries it over).
   */
  function DayFromCivil(year: nat, month: int, day: int): int
    requires 1 <= month <= 12
  {
    DaysBeforeYear(year) + DaysBeforeMonth(year, month) + day - 1
  }

  datatype Civil = Civil(year: nat, month: int, day: int)

  predicate ValidCivil(c: Civil) {
    1 <= c.month <= 12 && 1 <= c.day <= DaysInMonth(c.year, c.month)
  }

  /** The year holding day `rem` of year y and later, and the day's offset in that year. */
  function YearOf(y: nat, rem: nat): (r: (nat, nat))
    ensures r.0 >= y && r.1 < DaysInYear(r.0)
    ensures DaysBeforeYear(r.0) + r.1 == DaysBeforeYear(y) + rem
    decreases rem
  {
    DaysBeforeYearStep(y);
    if rem < DaysInYear(y) then (y, rem) else YearOf(y + 1, rem - DaysInYear(y))
  }

  /** The month of year y holding day `rem` after the start of month m, and the offset in it. */
  function MonthOf(y: nat, m: int, rem: nat): (r: (int, nat))
    requires 1 <= m <= 12 && DaysBeforeMonth(y, m) + rem < DaysInYear(y)
    ensures m <= r.0 <= 12 && r.1 < DaysInMonth(y, r.0)
    ensures DaysBeforeMonth(y, r.0) + r.1 == DaysBeforeMonth(y, m) + rem
    decreases 12 - m
  {
    if rem < DaysInMonth(y, m) then (m, rem) else MonthOf(y, m + 1, rem - DaysInMonth(y, m))
  }

  /** The civil date of a day number counted from 0000-01-01. */
  function CivilFromDay(p: nat): (c: Civil)
    ensures ValidCivil(c) && DayFromCivil(c.year, c.month, c.day) == p
  {
    var yr := YearOf(0, p);
    var mo := MonthOf(yr.0, 1, yr.1);
    Civil(yr.0, mo.0, mo.1 + 1)
  }

  // ---------------------------------------------------------------------
  // UTC days of instants

  /** The UTC day (days since 1970-01-01) of an instant in milliseconds: floor division. */
  function UtcDay(ms: int): int {
    ms / MsPerDay
  }

  /** `getUTCDay()` of any instant of UTC day `day`: 0 is Sunday; 1970-01-01 was a Thursday. */
  function WeekdayOf(day: int): int {
    (day + 4) % 7
  }

  /** Days on or after 0000-01-01, the range the model gives a civil date to. */
  predicate InCalendarRange(day: int) {
    day + EpochOffset >= 0
  }

  function CivilOfDay(day: int): Civil
    requires InCalendarRange(day)
  {
    CivilFromDay(day + EpochOffset)
  }

  /** UTC day of a civil date whose day of month may overflow. */
  function DayOfCivil(year: nat, month: int, day: int): int
    requires 1 <= month <= 12
  {
    DayFromCivil(year, month, day) - EpochOffset
  }

  lemma EpochIsDayZero()
    ensures DayOfCivil(1970, 1, 1) == 0
  {
  }

  /** `${year}-${MM}-${DD}` of a civil date, month and day zero-padded. */
  function FormatCivil(c: Civil): string
    requires ValidCivil(c)
  {
    NatToString(c.year) + "-" + Pad2(c.month) + "-" + Pad2(c.day)
  }

  /** `${getUTCFullYear()}-${MM}-${DD}` of UTC day `day`. */
  function FormatYMD(day: int): string
    requires InCalendarRange(day)
  {
    FormatCivil(CivilOfDay(day))
  }

  /**
   * The UTC day of `new Date(s)` for a date-only ISO string `YYYY-MM-DD`
   * (UTC midnight), or None for an Invalid Date. The engine accepts a day
   * of month from 01 to 31 and carries an overflow into the next month.
   */
  function ParseIsoDay(s: string): Option<int> {
    if |s| == 10 && s[4] == '-' && s[7] == '-'
       && AllDigits(s[..4]) && AllDigits(s[5..7]) && AllDigits(s[8..])
    then
      var y := DigitsValue(s[..4]);
      var m := DigitsValue(s[5..7]);
      var d := DigitsValue(s[8..]);
      if 1 <= m <= 12 && 1 <= d <= 31 then Some(DayOfCivil(y, m, d)) else None
    else None
  }

  /** The three fields of a formatted civil date sit at fixed distances from its end. */
  lemma FormatCivilParts(c: Civil)
    requires ValidCivil(c)
    ensures var s := FormatCivil(c);
      && |s| >= 7
      && s[..|s| - 6] == NatToString(c.year)
      && s[|s| - 5..|s| - 3] == Pad2(c.month)
      && s[|s| - 2..] == Pad2(c.day)
  {
    var ys, ms, ds := NatToString(c.year), Pad2(c.month), Pad2(c.day);
    NatToStringRoundTrip(c.year);
    Pad2RoundTrip(c.month);
    Pad2RoundTrip(c.day);
    var s := FormatCivil(c);
    assert s == ys + "-" + ms + "-" + ds;
    assert |s| == |ys| + 6;
    assert s[..|s| - 6] == ys;
    assert s[|s| - 5..|s| - 3] == ms;
    assert s[|s| - 2..] == ds;
  }

  /** Two valid civil dates with the same text are the same date. */
  lemma FormatCivilInjective(a: Civil, b: Civil)
    requires ValidCivil(a) && ValidCivil(b)
    requires FormatCivil(a) == FormatCivil(b)
    ensures a == b
  {
    FormatCivilParts(a);
    FormatCivilParts(b);
    NatToStringRoundTrip(a.year);
    NatToStringRoundTrip(b.year);
    Pad2RoundTrip(a.month);
    Pad2RoundTrip(b.month);
    Pad2RoundTrip(a.day);
    Pad2RoundTrip(b.day);
  }

  /** Two days in range with the same YMD text are the same day, for every year from 0 on. */
  lemma FormatYMDInjective(a: int, b: int)
    requires InCalendarRange(a) && InCalendarRange(b)
    requires FormatYMD(a) == FormatYMD(b)
    ensures a == b
  {
    FormatCivilInjective(CivilOfDay(a), CivilOfDay(b));
  }

  /** A four-digit-year civil date reads back through the ISO date parser. */
  lemma IsoCivilRoundTrip(c: Civil)
    requires ValidCivil(c) && 1000 <= c.year <= 9999
    ensures ParseIsoDay(FormatCivil(c)) == Some(DayOfCivil(c.year, c.month, c.day))
  {
    var ys, ms, ds := NatToString(c.year), Pad2(c.month), Pad2(c.day);
    FourDigitNumber(c.year);
    NatToStringRoundTrip(c.year);
    Pad2RoundTrip(c.month);
    Pad2RoundTrip(c.day);
    var s := FormatCivil(c);
    assert s == ys + "-" + ms + "-" + ds;
    assert s[..4] == ys;
    assert s[5..7] == ms;
    assert s[8..] == ds;
  }

  /** For four-digit years, `new Date(utcDateToYMDFormat(d))` is UTC midnight of d's day. */
  lemma IsoRoundTrip(day: int)
    requires InCalendarRange(day) && 1000 <= CivilOfDay(day).year <= 9999
    ensures ParseIsoDay(FormatYMD(day)) == Some(day)
  {
    IsoCivilRoundTrip(CivilOfDay(day));
  }
}
