/**
 * Gregorian calendar arithmetic as ECMAScript defines it for Date values:
 * day numbers counted from 1970-01-01 (DayFromYear, MakeDay), times of day
 * in milliseconds (MakeTime), and calendar dates with their time value.
 * Months are numbered 0 (January) to 11 (December), as in getMonth().
 * The server's local time is taken to be UTC.
 */
module Calendar {

  const MsPerDay: int := 86_400_000

  predicate IsLeapYear(y: int) {
    y % 4 == 0 && (y % 100 != 0 || y % 400 == 0)
  }

  function DaysInYear(y: int): int {
    if IsLeapYear(y) then 366 else 365
  }

  /** Days of year `y` that come before month `m` (m == 12: the whole year). */
  function DaysBeforeMonth(y: int, m: int): int
    requires 0 <= m <= 12
  {
    var common :=
      if m == 0 then 0 else if m == 1 then 31 else if m == 2 then 59
      else if m == 3 then 90 else if m == 4 then 120 else if m == 5 then 151
      else if m == 6 then 181 else if m == 7 then 212 else if m == 8 then 243
      else if m == 9 then 273 else if m == 10 then 304 else if m == 11 then 334
      else 365;
    common + (if m >= 2 && IsLeapYear(y) then 1 else 0)
  }

  /** The length of month `m` of year `y`; February has 29 days exactly in leap years. */
  function DaysInMonth(y: int, m: int): (n: int)
    requires 0 <= m < 12
    ensures 28 <= n <= 31
    ensures n == DaysBeforeMonth(y, m + 1) - DaysBeforeMonth(y, m)
    ensures m == 1 ==> (n == 29 <==> IsLeapYear(y)) && (n == 28 <==> !IsLeapYear(y))
  {
    if m == 1 then (if IsLeapYear(y) then 29 else 28)
    else if m == 3 || m == 5 || m == 8 || m == 10 then 30
    else 31
  }

  lemma MonthsFillYear(y: int)
    ensures DaysBeforeMonth(y, 12) == DaysInYear(y)
  {
  }

  lemma DaysBeforeMonthIncreasing(y: int, i: int, j: int)
    requires 0 <= i <= j <= 12
    ensures DaysBeforeMonth(y, i) <= DaysBeforeMonth(y, j)
  {
  }

  /** ECMAScript DayFromYear: the day number of January 1 of year `y`. */
  function DayFromYear(y: int): int {
    365 * (y - 1970) + (y - 1969) / 4 - (y - 1901) / 100 + (y - 1601) / 400
  }

  /** Consecutive years are DaysInYear apart: the leap-year rule and the
      closed form of DayFromYear agree. */
  lemma DayFromYearStep(y: int)
    ensures DayFromYear(y + 1) == DayFromYear(y) + DaysInYear(y)
  {
    LeapCountStep4(y);
    LeapCountStep100(y);
    LeapCountStep400(y);
    LeapIndicator(y);
  }

  /** The three divisibility tests combine into the leap-year rule. */
  lemma LeapIndicator(y: int)
    ensures (if y % 4 == 0 then 1 else 0) - (if y % 100 == 0 then 1 else 0) + (if y % 400 == 0 then 1 else 0)
            == (if IsLeapYear(y) then 1 else 0)
  {
    if y % 400 == 0 {
      var k := y / 400;
      assert y == 100 * (4 * k) && y == 4 * (100 * k);
    } else if y % 100 == 0 {
      var k := y / 100;
      assert y == 4 * (25 * k);
    }
  }

  lemma LeapCountStep4(y: int)
    ensures (y - 1968) / 4 == (y - 1969) / 4 + (if y % 4 == 0 then 1 else 0)
  {
    var q, r := (y - 1969) / 4, (y - 1969) % 4;
    assert y == 4 * q + r + 1969;
    if r == 3 {
      assert y - 1968 == 4 * (q + 1) && y == 4 * (q + 493);
    } else {
      assert y - 1968 == 4 * q + (r + 1) && y == 4 * (q + 492) + (r + 1);
    }
  }

  lemma LeapCountStep100(y: int)
    ensures (y - 1900) / 100 == (y - 1901) / 100 + (if y % 100 == 0 then 1 else 0)
  {
    var q, r := (y - 1901) / 100, (y - 1901) % 100;
    assert y == 100 * q + r + 1901;
    if r == 99 {
      assert y - 1900 == 100 * (q + 1) && y == 100 * (q + 20);
    } else {
      assert y - 1900 == 100 * q + (r + 1) && y == 100 * (q + 19) + (r + 1);
    }
  }

  lemma LeapCountStep400(y: int)
    ensures (y - 1600) / 400 == (y - 1601) / 400 + (if y % 400 == 0 then 1 else 0)
  {
    var q, r := (y - 1601) / 400, (y - 1601) % 400;
    assert y == 400 * q + r + 1601;
    if r == 399 {
      assert y - 1600 == 400 * (q + 1) && y == 400 * (q + 5);
    } else {
      assert y - 1600 == 400 * q + (r + 1) && y == 400 * (q + 4) + (r + 1);
    }
  }

  lemma {:induction false} DayFromYearIncreasing(y: int, z: int)
    requires y < z
    ensures DayFromYear(y + 1) <= DayFromYear(z)
    decreases z - y
  {
    if y + 1 < z {
      DayFromYearIncreasing(y + 1, z);
      DayFromYearStep(y + 1);
    }
  }

  /** The day number of date `d` of month `m` of year `y`; `d` may lie outside the month. */
  function DayNumber(y: int, m: int, d: int): int
    requires 0 <= m < 12
  {
    DayFromYear(y) + DaysBeforeMonth(y, m) + d - 1
  }

  /** ECMAScript MakeDay for integral arguments: the month may be any integer
      and moves the year by whole multiples of twelve. */
  function MakeDay(y: int, m: int, d: int): int {
    DayNumber(y + m / 12, m % 12, d)
  }

  /** ECMAScript MakeTime for integral arguments. */
  function MakeTime(h: int, min: int, s: int, ms: int): int {
    h * 3_600_000 + min * 60_000 + s * 1_000 + ms
  }

  /** The month that follows month `m` of year `y`. */
  function MonthAfter(y: int, m: int): (r: (int, int))
    requires 0 <= m < 12
    ensures 0 <= r.1 < 12
  {
    if m == 11 then (y + 1, 0) else (y, m + 1)
  }

  /** The month that precedes month `m` of year `y`. */
  function MonthBefore(y: int, m: int): (r: (int, int))
    requires 0 <= m < 12
    ensures 0 <= r.1 < 12
    ensures MonthAfter(r.0, r.1) == (y, m)
  {
    if m == 0 then (y - 1, 11) else (y, m - 1)
  }

  /** For a month 0..11, MakeDay is DayNumber. */
  lemma MakeDayOfMonth(y: int, m: int, d: int)
    requires 0 <= m < 12
    ensures MakeDay(y, m, d) == DayNumber(y, m, d)
  {
    assert m / 12 == 0 && m % 12 == m;
  }

  /** Month m + 1 is the month after m, in the next year after December. */
  lemma MakeDayOfNextMonth(y: int, m: int, d: int)
    requires 0 <= m < 12
    ensures MakeDay(y, m + 1, d) == DayNumber(MonthAfter(y, m).0, MonthAfter(y, m).1, d)
  {
    if m == 11 {
      assert (m + 1) / 12 == 1 && (m + 1) % 12 == 0;
    } else {
      assert (m + 1) / 12 == 0 && (m + 1) % 12 == m + 1;
    }
  }

  /** Counting DaysInMonth days past a date of month `m` lands on the same
      date of the following month. */
  lemma DayNumberNextMonth(y: int, m: int, d: int)
    requires 0 <= m < 12
    ensures DayNumber(y, m, d + DaysInMonth(y, m)) == DayNumber(MonthAfter(y, m).0, MonthAfter(y, m).1, d)
  {
    if m == 11 {
      DayFromYearStep(y);
      MonthsFillYear(y);
    }
  }

  /** A calendar date with a time of day in milliseconds (a broken-down Date). */
  datatype DateTime = DateTime(year: int, month: int, date: int, time: int)
  {
    predicate Valid() {
      0 <= month < 12 && 1 <= date <= DaysInMonth(year, month) && 0 <= time < MsPerDay
    }

    function Day(): int
      requires 0 <= month < 12
    {
      DayNumber(year, month, date)
    }

    /** The ECMAScript time value: milliseconds since 1970-01-01T00:00:00.000. */
    function TimeValue(): int
      requires Valid()
    {
      Day() * MsPerDay + time
    }
  }

  /** A Date that holds a real calendar date. */
  type Date = d: DateTime | d.Valid() witness DateTime(1970, 0, 1, 0)

  /** 23:59:59.999 on the last day of month `m` of year `y`. */
  function LastInstant(y: int, m: int): (d: Date)
    requires 0 <= m < 12
    ensures d.year == y && d.month == m && d.date == DaysInMonth(y, m)
    ensures d.time == MakeTime(23, 59, 59, 999)
  {
    DateTime(y, m, DaysInMonth(y, m), MsPerDay - 1)
  }

  /** Calendar order: by year, then month, then date, then time of day. */
  predicate Earlier(a: DateTime, b: DateTime) {
    || a.year < b.year
    || (a.year == b.year && a.month < b.month)
    || (a.year == b.year && a.month == b.month && a.date < b.date)
    || (a.year == b.year && a.month == b.month && a.date == b.date && a.time < b.time)
  }

  lemma DayWithinYear(d: Date)
    ensures DayFromYear(d.year) <= d.Day() < DayFromYear(d.year + 1)
  {
    DayFromYearStep(d.year);
    MonthsFillYear(d.year);
    DaysBeforeMonthIncreasing(d.year, d.month + 1, 12);
  }

  lemma DaysScale(d1: int, t1: int, d2: int, t2: int)
    requires d1 < d2 && 0 <= t1 < MsPerDay && 0 <= t2
    ensures d1 * MsPerDay + t1 < d2 * MsPerDay + t2
  {
    assert d2 * MsPerDay >= (d1 + 1) * MsPerDay;
  }

  lemma EarlierHasSmallerTimeValue(a: Date, b: Date)
    requires Earlier(a, b)
    ensures a.TimeValue() < b.TimeValue()
  {
    if a.year != b.year || a.month != b.month || a.date != b.date {
      EarlierDayNumber(a, b);
      DaysScale(a.Day(), a.time, b.Day(), b.time);
    }
  }

  /** A calendar date earlier by year, month or date has a smaller day number. */
  lemma EarlierDayNumber(a: Date, b: Date)
    requires || a.year < b.year
             || (a.year == b.year && a.month < b.month)
             || (a.year == b.year && a.month == b.month && a.date < b.date)
    ensures a.Day() < b.Day()
  {
    if a.year < b.year {
      EarlierYearDayNumber(a, b);
    } else if a.month < b.month {
      DaysBeforeMonthIncreasing(a.year, a.month + 1, b.month);
    }
  }

  lemma EarlierYearDayNumber(a: Date, b: Date)
    requires a.year < b.year
    ensures a.Day() < b.Day()
  {
    DayWithinYear(a);
    DayWithinYear(b);
    DayFromYearIncreasing(a.year, b.year);
  }

  /** Calendar order is time-value order: the database compares Dates by
      time value, and this is what that comparison means for calendar dates. */
  lemma TimeValueOrder(a: Date, b: Date)
    ensures Earlier(a, b) <==> a.TimeValue() < b.TimeValue()
  {
    if Earlier(a, b) {
      EarlierHasSmallerTimeValue(a, b);
    } else if Earlier(b, a) {
      EarlierHasSmallerTimeValue(b, a);
    }
  }

  /** Two calendar dates with the same time value are the same date. */
  lemma TimeValueInjective(a: Date, b: Date)
    requires a.TimeValue() == b.TimeValue()
    ensures a == b
  {
    TimeValueOrder(a, b);
    TimeValueOrder(b, a);
  }

  /** Two calendar dates with the same day number are on the same day. */
  lemma DayNumberInjective(a: Date, b: Date)
    requires a.Day() == b.Day()
    ensures a.year == b.year && a.month == b.month && a.date == b.date
  {
    TimeValueInjective(a.(time := 0), b.(time := 0));
  }

  /** A date lies between the first and the last instant of a month, both
      bounds included, exactly when it falls in that month. */
  lemma WithinMonthIff(d: Date, y: int, m: int)
    requires 0 <= m < 12
    ensures DateTime(y, m, 1, 0).TimeValue() <= d.TimeValue() <= LastInstant(y, m).TimeValue()
        <==> d.year == y && d.month == m
  {
    TimeValueOrder(d, DateTime(y, m, 1, 0));
    TimeValueOrder(LastInstant(y, m), d);
  }
}
