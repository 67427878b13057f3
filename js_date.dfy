/**
 * A JavaScript Date object in local time, with the constructor and the
 * setters routes/bills.js uses, and the endOfMonth helper built from them.
 * Each setter is specified by the ECMAScript arithmetic it performs
 * (MakeDay, MakeTime); Normalize turns the resulting day number back into
 * calendar fields, as the Date getters do.
 */
module JsDates {
  import opened Calendar

  /** The Date constructor reads a year 0..99 as 1900..1999. */
  function FullYear(y: int): int {
    if 0 <= y <= 99 then 1900 + y else y
  }

  /** Splits the day MakeDay(y, m, d) into a real calendar date. */
  method Normalize(y: int, m: int, d: int) returns (year: int, month: int, date: int)
    ensures 0 <= month < 12 && 1 <= date <= DaysInMonth(year, month)
    ensures DayNumber(year, month, date) == MakeDay(y, m, d)
  {
    year, month, date := y + m / 12, m % 12, d;
    while date < 1
      invariant 0 <= month < 12
      invariant DayNumber(year, month, date) == MakeDay(y, m, d)
      decreases -date
    {
      var (py, pm) := MonthBefore(year, month);
      DayNumberNextMonth(py, pm, date);
      year, month, date := py, pm, date + DaysInMonth(py, pm);
    }
    while date > DaysInMonth(year, month)
      invariant 0 <= month < 12 && 1 <= date
      invariant DayNumber(year, month, date) == MakeDay(y, m, d)
      decreases date
    {
      var (ny, nm) := MonthAfter(year, month);
      DayNumberNextMonth(year, month, date - DaysInMonth(year, month));
      year, month, date := ny, nm, date - DaysInMonth(year, month);
    }
  }

  /** A Date object: its local calendar fields and time of day. */
  class LocalDate {
    var year: int
    var month: int
    var date: int
    var time: int

    function Value(): DateTime
      reads this
    {
      DateTime(year, month, date, time)
    }

    /** `new Date(y, m, d)`: midnight at the start of day MakeDay(FullYear(y), m, d). */
    constructor FromParts(y: int, m: int, d: int)
      ensures Value().Valid() && time == 0
      ensures Value().Day() == MakeDay(FullYear(y), m, d)
    {
      var yy, mm, dd := Normalize(FullYear(y), m, d);
      year, month, date, time := yy, mm, dd, 0;
    }

    /** `new Date(other)`: a copy. */
    constructor Copy(other: LocalDate)
      ensures Value() == other.Value()
    {
      year, month, date, time := other.year, other.month, other.date, other.time;
    }

    /** `setMonth(m)`: day MakeDay(year, m, date) at the same time of day; a
        date the new month does not have spills into the month after. */
    method SetMonth(m: int)
      requires Value().Valid()
      modifies this
      ensures Value().Valid() && time == old(time)
      ensures Value().Day() == MakeDay(old(year), m, old(date))
    {
      year, month, date := Normalize(year, m, date);
    }

    /** `setDate(d)`: day MakeDay(year, month, d) at the same time of day;
        0 is the last day of the month before. */
    method SetDate(d: int)
      requires Value().Valid()
      modifies this
      ensures Value().Valid() && time == old(time)
      ensures Value().Day() == MakeDay(old(year), old(month), d)
    {
      year, month, date := Normalize(year, month, d);
    }

    /** `setHours(h, min, s, ms)`: the same day at time MakeTime(h, min, s, ms),
        which may carry into earlier or later days. */
    method SetHours(h: int, min: int, s: int, ms: int)
      requires Value().Valid()
      modifies this
      ensures Value().Valid()
      ensures Value().TimeValue() == old(Value().Day()) * MsPerDay + MakeTime(h, min, s, ms)
    {
      var t := MakeTime(h, min, s, ms);
      var carry := t / MsPerDay;
      ghost var day := Value().Day();
      MakeDayOfMonth(year, month, date + carry);
      year, month, date := Normalize(year, month, date + carry);
      time := t % MsPerDay;
      assert Value().Day() == day + carry;
      assert Value().TimeValue() == (day + carry) * MsPerDay + t % MsPerDay;
    }
  }

  /** The month whose end EndOfMonth reaches from date `day` of month `m` of year `y`. */
  function EndOfMonthTarget(y: int, m: int, day: int): (r: (int, int))
    requires 0 <= m < 12
    ensures 0 <= r.1 < 12
  {
    var next := MonthAfter(y, m);
    if day <= DaysInMonth(next.0, next.1) then (y, m) else next
  }

  /** After setMonth(m + 1) from date `day` of month `m`, the Date is in the
      month that follows EndOfMonthTarget(y, m, day). */
  lemma SetNextMonthLandsAfterTarget(v: Date, y: int, m: int, day: int)
    requires 0 <= m < 12 && 1 <= day <= DaysInMonth(y, m)
    requires v.Day() == MakeDay(y, m + 1, day)
    ensures (v.year, v.month) == MonthAfter(EndOfMonthTarget(y, m, day).0, EndOfMonthTarget(y, m, day).1)
  {
    var next := MonthAfter(y, m);
    MakeDayOfNextMonth(y, m, day);
    if day <= DaysInMonth(next.0, next.1) {
      DayNumberInjective(v, DateTime(next.0, next.1, day, 0));
    } else {
      SpillsIntoMonthAfter(v, next.0, next.1, day);
    }
  }

  /** A date `day` past the end of month (y, m) lands in the month after. */
  lemma SpillsIntoMonthAfter(v: Date, y: int, m: int, day: int)
    requires 0 <= m < 12 && DaysInMonth(y, m) < day <= 31
    requires v.Day() == DayNumber(y, m, day)
    ensures (v.year, v.month) == MonthAfter(y, m)
  {
    var after := MonthAfter(y, m);
    var spill := day - DaysInMonth(y, m);
    DayNumberNextMonth(y, m, spill);
    DayNumberInjective(v, DateTime(after.0, after.1, spill, 0));
  }

  /** Day 0 of the month after (y, m) is the last day of (y, m). */
  lemma DayZeroIsLastDay(v: Date, y: int, m: int)
    requires 0 <= m < 12
    requires v.Day() == MakeDay(MonthAfter(y, m).0, MonthAfter(y, m).1, 0)
    ensures v.year == y && v.month == m && v.date == DaysInMonth(y, m)
  {
    var after := MonthAfter(y, m);
    MakeDayOfMonth(after.0, after.1, 0);
    DayNumberNextMonth(y, m, 0);
    DayNumberInjective(v, LastInstant(y, m));
  }

  /**
   * endOfMonth in routes/bills.js, as written: copy, move to the next month
   * keeping the date, step back to day 0 (the last day of the month before),
   * then set 23:59:59.999. When the date does not exist in the next month,
   * setMonth spills into the month after, and the result is the end of the
   * NEXT month.
   */
  method EndOfMonth(from: LocalDate) returns (d: LocalDate)
    requires from.Value().Valid()
    ensures fresh(d)
    ensures var next := MonthAfter(from.year, from.month);
            d.Value() == if from.date <= DaysInMonth(next.0, next.1)
                         then LastInstant(from.year, from.month)
                         else LastInstant(next.0, next.1)
  {
    d := new LocalDate.Copy(from);
    ghost var target := EndOfMonthTarget(from.year, from.month, from.date);
    ghost var after := MonthAfter(target.0, target.1);
    d.SetMonth(d.month + 1);
    SetNextMonthLandsAfterTarget(d.Value(), from.year, from.month, from.date);
    assert d.year == after.0 && d.month == after.1;
    d.SetDate(0);
    assert d.Value().Day() == MakeDay(after.0, after.1, 0);
    DayZeroIsLastDay(d.Value(), target.0, target.1);
    ghost var last := LastInstant(target.0, target.1);
    assert d.Value().Day() == last.Day();
    d.SetHours(23, 59, 59, 999);
    assert d.Value().TimeValue() == last.Day() * MsPerDay + last.time;
    TimeValueInjective(d.Value(), last);
  }

  /** January 31, 2024 goes through EndOfMonth to February 29, 2024 at
      23:59:59.999 instead of January 31. */
  method EndOfMonthFromJanuary31() returns (v: DateTime)
    ensures v == LastInstant(2024, 1) && v != LastInstant(2024, 0)
  {
    var jan31 := new LocalDate.FromParts(2024, 0, 31);
    DayNumberInjective(jan31.Value(), DateTime(2024, 0, 31, 0));
    var end := EndOfMonth(jan31);
    v := end.Value();
  }

  /** endOfMonth as evidently intended: the last instant of the month of
      `from`, for every date; it moves to day 1 before changing the month. */
  method EndOfSameMonth(from: LocalDate) returns (d: LocalDate)
    requires from.Value().Valid()
    ensures fresh(d)
    ensures d.Value() == LastInstant(from.year, from.month)
  {
    var first := new LocalDate.Copy(from);
    first.SetDate(1);
    MakeDayOfMonth(from.year, from.month, 1);
    DayNumberInjective(first.Value(), DateTime(from.year, from.month, 1, 0));
    d := EndOfMonth(first);
  }
}
