/**
 The proleptic Gregorian calendar without time zones, and the `Date` setters with the
 overflow meaning of section 21.4 of ECMA-262: a field beyond its range carries into
 the next larger one. Months count from 0 and days from 1, as `Date` has them.
 */
module Calendar {
  import opened Arithmetic

  datatype DateTime = DateTime(year: int, month: int, day: int, hour: int, minute: int)

  predicate Leap(year: int) {
    year % 4 == 0 && (year % 100 != 0 || year % 400 == 0)
  }

  function MonthLength(leap: bool, month: int): (days: int)
    ensures 28 <= days <= 31
  {
    if month == 1 then (if leap then 29 else 28)
    else if month == 3 || month == 5 || month == 8 || month == 10 then 30
    else 31
  }

  function DaysIn(year: int, month: int): int {
    MonthLength(Leap(year), month)
  }

  predicate Valid(t: DateTime) {
    && 0 <= t.month < 12 && 1 <= t.day <= DaysIn(t.year, t.month)
    && 0 <= t.hour < 24 && 0 <= t.minute < 60
  }

  // The number of the first day of the year, counted from 1 January 1970.
  function YearStart(year: int): int {
    365 * (year - 1970) + (year - 1969) / 4 - (year - 1901) / 100 + (year - 1601) / 400
  }

  function DaysBefore(leap: bool, month: int): int
    requires 0 <= month <= 12
  {
    if month == 0 then 0 else DaysBefore(leap, month - 1) + MonthLength(leap, month - 1)
  }

  function MonthStart(year: int, month: int): int
    requires 0 <= month < 12
  {
    YearStart(year) + DaysBefore(Leap(year), month)
  }

  function DayNumber(t: DateTime): int
    requires 0 <= t.month < 12
  {
    MonthStart(t.year, t.month) + t.day - 1
  }

  function Weekday(t: DateTime): int
    requires 0 <= t.month < 12
  {
    (DayNumber(t) + 4) % 7
  }

  // The time value in minutes; it orders the valid dates.
  function Minutes(t: DateTime): int
    requires 0 <= t.month < 12
  {
    DayNumber(t) * 1440 + t.hour * 60 + t.minute
  }

  // ---------------------------------------------------------------------------
  // Months and years follow one another without gaps

  function NextMonth(year: int, month: int): (int, int) {
    if month == 11 then (year + 1, 0) else (year, month + 1)
  }

  lemma DaysInYear(leap: bool)
    ensures DaysBefore(leap, 12) == if leap then 366 else 365
  {
    var february := DaysBefore(leap, 2);
    assert DaysBefore(leap, 1) == 31;
    assert DaysBefore(leap, 4) == february + 61;
    assert DaysBefore(leap, 6) == february + 122;
    assert DaysBefore(leap, 8) == february + 184;
    assert DaysBefore(leap, 10) == february + 245;
    assert DaysBefore(leap, 12) == february + 306;
  }

  lemma YearLength(year: int)
    ensures YearStart(year + 1) == YearStart(year) + DaysBefore(Leap(year), 12)
  {
    DaysInYear(Leap(year));
    DivStep(year - 1969, 4);
    ShiftMod(year, 4, 492);
    DivStep(year - 1901, 100);
    ShiftMod(year, 100, 19);
    DivStep(year - 1601, 400);
    ShiftMod(year, 400, 4);
    LeapDays(year);
  }

  lemma LeapDays(year: int)
    ensures (if Leap(year) then 1 else 0) ==
      (if year % 4 == 0 then 1 else 0) - (if year % 100 == 0 then 1 else 0) + (if year % 400 == 0 then 1 else 0)
  {
    MultipleMod(100, 4 * (year / 400));
    MultipleMod(4, 25 * (year / 100));
  }

  lemma NextMonthStart(year: int, month: int)
    requires 0 <= month < 12
    ensures var (y, m) := NextMonth(year, month);
      MonthStart(y, m) == MonthStart(year, month) + DaysIn(year, month)
  {
    YearLength(year);
  }

  lemma {:induction false} MonthOrder(year: int, month: int, year': int, month': int)
    requires 0 <= month < 12 && 0 <= month' < 12
    requires year < year' || (year == year' && month < month')
    ensures MonthStart(year, month) + DaysIn(year, month) <= MonthStart(year', month')
    decreases 12 * (year' - year) + month' - month
  {
    var (y, m) := NextMonth(year, month);
    NextMonthStart(year, month);
    if (y, m) != (year', month') {
      MonthOrder(y, m, year', month');
    }
  }

  // Times within one month share its name, times within one day share its date.
  lemma SameMonth(t: DateTime, year: int, month: int)
    requires Valid(t) && 0 <= month < 12
    requires MonthStart(year, month) * 1440 <= Minutes(t) < (MonthStart(year, month) + DaysIn(year, month)) * 1440
    ensures t.year == year && t.month == month
  {
    if t.year < year || (t.year == year && t.month < month) {
      MonthOrder(t.year, t.month, year, month);
    } else if year < t.year || (year == t.year && month < t.month) {
      MonthOrder(year, month, t.year, t.month);
    }
  }

  lemma SameDay(t: DateTime, u: DateTime)
    requires Valid(t) && Valid(u) && DayNumber(t) == DayNumber(u)
    ensures t.year == u.year && t.month == u.month && t.day == u.day
  {
    SameMonth(t, u.year, u.month);
  }

  lemma MinutesDecompose(t: DateTime)
    requires Valid(t)
    ensures Minutes(t) / 1440 == DayNumber(t) && (Minutes(t) / 60) % 24 == t.hour && Minutes(t) % 60 == t.minute
  {
    var d := DayNumber(t);
    DivUnique(Minutes(t), 1440, d, t.hour * 60 + t.minute);
    DivUnique(Minutes(t), 60, d * 24 + t.hour, t.minute);
    DivUnique(d * 24 + t.hour, 24, d, t.hour);
  }

  lemma SameDayUntilMidnight(t: DateTime, u: DateTime)
    requires Valid(t) && Valid(u) && Minutes(t) <= Minutes(u) < (DayNumber(t) + 1) * 1440
    ensures DayNumber(u) == DayNumber(t) && Weekday(u) == Weekday(t)
    ensures t.year == u.year && t.month == u.month && t.day == u.day
  {
    MinutesDecompose(u);
    MinutesDecompose(t);
    SameDay(t, u);
  }

  lemma MinutesInjective(t: DateTime, u: DateTime)
    requires Valid(t) && Valid(u) && Minutes(t) == Minutes(u)
    ensures t == u
  {
    MinutesDecompose(t);
    MinutesDecompose(u);
    SameDay(t, u);
  }

  lemma LaterYear(t: DateTime, u: DateTime)
    requires Valid(t) && Valid(u) && t.year < u.year
    ensures Minutes(t) < Minutes(u)
  {
    MonthOrder(t.year, t.month, u.year, u.month);
  }

  // ---------------------------------------------------------------------------
  // Agreement with the civil calendar

  lemma MonthLengths(leap: bool, month: int)
    requires 0 <= month < 12
    ensures MonthLength(leap, month) ==
      [31, if leap then 29 else 28, 31, 30, 31, 30, 31, 31, 30, 31, 30, 31][month]
  {
  }

  lemma KnownYears()
    ensures Leap(2024) && !Leap(2023) && !Leap(1900) && Leap(2000)
    ensures YearStart(1970) == 0 && YearStart(2024) == 19723
  {
  }

  lemma January(t: DateTime)
    requires t.month == 0
    ensures Minutes(t) == (YearStart(t.year) + t.day - 1) * 1440 + t.hour * 60 + t.minute
    ensures Weekday(t) == (YearStart(t.year) + t.day + 3) % 7
  {
  }

  // 1 January 1970 was a Thursday, and the Unix time 1704586980 lies on a Sunday.
  lemma KnownDates(epoch: DateTime, sunday: DateTime, monday: DateTime)
    requires epoch == DateTime(1970, 0, 1, 0, 0)
    requires sunday == DateTime(2024, 0, 7, 0, 23) && monday == sunday.(day := 8)
    ensures Minutes(epoch) == 0 && Weekday(epoch) == 4
    ensures Minutes(sunday) * 60 == 1704586980 && Weekday(sunday) == 0 && Weekday(monday) == 1
  {
    hide *;
    KnownYears();
    January(epoch);
    January(sunday);
    January(monday);
  }

  lemma LeapCycle(year: int)
    ensures Leap(year + 400) == Leap(year) && YearStart(year + 400) == YearStart(year) + 146097
  {
    ShiftMod(year + 400, 4, 100);
    ShiftMod(year + 400, 100, 4);
    ShiftMod(year + 400, 400, 1);
  }

  // The calendar repeats after 400 years, weekdays included.
  lemma GregorianCycle(t: DateTime)
    requires Valid(t)
    ensures var u := t.(year := t.year + 400);
      Valid(u) && Minutes(u) == Minutes(t) + 146097 * 1440 && Weekday(u) == Weekday(t)
  {
    LeapCycle(t.year);
    hide YearStart, DaysBefore, Leap, Weekday;
    var u := t.(year := t.year + 400);
    WeekdaysApart(t, u, 146097);
    WeekdayRange(t);
  }

  lemma WeekdayRange(t: DateTime)
    requires 0 <= t.month < 12
    ensures 0 <= Weekday(t) < 7
  {
  }

  lemma WeekdaysApart(t: DateTime, u: DateTime, days: int)
    requires Valid(t) && Valid(u) && DayNumber(u) == DayNumber(t) + days
    ensures Weekday(u) == (Weekday(t) + days) % 7
  {
    var n := DayNumber(t) + 4;
    ShiftMod(n + days, 7, n / 7);
    assert n + days - 7 * (n / 7) == n % 7 + days;
  }

  // All times of a day share its weekday, and weekdays follow one another from day to day.
  lemma WeekdayFollows(t: DateTime, u: DateTime, days: int)
    requires Valid(t) && Valid(u) && Minutes(t) / 1440 + days == Minutes(u) / 1440
    ensures Weekday(u) == (Weekday(t) + days) % 7 && 0 <= Weekday(u) < 7
  {
    MinutesDecompose(t);
    MinutesDecompose(u);
    WeekdaysApart(t, u, days);
  }

  // ---------------------------------------------------------------------------
  // Setters

  // Day number day of the given month, however far beyond its end.
  function Roll(year: int, month: int, day: int): (r: (int, int, int))
    requires 0 <= month < 12 && day >= 1
    ensures 0 <= r.1 < 12 && 1 <= r.2 <= DaysIn(r.0, r.1)
    ensures MonthStart(r.0, r.1) + r.2 - 1 == MonthStart(year, month) + day - 1
    ensures day <= DaysIn(year, month) ==> r == (year, month, day)
    decreases day
  {
    if day <= DaysIn(year, month) then (year, month, day)
    else
      var (y, m) := NextMonth(year, month);
      NextMonthStart(year, month);
      Roll(y, m, day - DaysIn(year, month))
  }

  lemma RollOnce(year: int, month: int, day: int)
    requires 0 <= month < 12 && DaysIn(year, month) < day <= DaysIn(year, month) + 28
    ensures var (y, m) := NextMonth(year, month);
      Roll(year, month, day) == (y, m, day - DaysIn(year, month))
  {
  }

  function SetDate(t: DateTime, day: int): (r: DateTime)
    requires Valid(t) && day >= 1
    ensures Valid(r) && Minutes(r) == Minutes(t) + (day - t.day) * 1440
  {
    var (y, m, d) := Roll(t.year, t.month, day);
    DateTime(y, m, d, t.hour, t.minute)
  }

  function SetMonth(t: DateTime, month: int): (r: DateTime)
    requires Valid(t)
    ensures Valid(r)
    ensures DayNumber(r) == MonthStart(t.year + month / 12, month % 12) + t.day - 1
    ensures r.hour == t.hour && r.minute == t.minute
  {
    var (y, m, d) := Roll(t.year + month / 12, month % 12, t.day);
    DateTime(y, m, d, t.hour, t.minute)
  }

  function SetFullYear(t: DateTime, year: int): (r: DateTime)
    requires Valid(t)
    ensures Valid(r) && DayNumber(r) == MonthStart(year, t.month) + t.day - 1
    ensures r.hour == t.hour && r.minute == t.minute
  {
    var (y, m, d) := Roll(year, t.month, t.day);
    DateTime(y, m, d, t.hour, t.minute)
  }

  function SetHours(t: DateTime, hour: int): (r: DateTime)
    requires Valid(t) && hour >= 0
    ensures Valid(r) && Minutes(r) == Minutes(t) + (hour - t.hour) * 60
  {
    var (y, m, d) := Roll(t.year, t.month, t.day + hour / 24);
    DateTime(y, m, d, hour % 24, t.minute)
  }

  function SetMinutes(t: DateTime, minute: int): (r: DateTime)
    requires Valid(t) && minute >= 0
    ensures Valid(r) && Minutes(r) == Minutes(t) + minute - t.minute
  {
    var total := t.hour + minute / 60;
    var (y, m, d) := Roll(t.year, t.month, t.day + total / 24);
    DateTime(y, m, d, total % 24, minute % 60)
  }

  lemma SetDateInMonth(t: DateTime, day: int)
    requires Valid(t) && 1 <= day <= DaysIn(t.year, t.month)
    ensures SetDate(t, day) == t.(day := day)
  {
  }

  lemma SetHoursInDay(t: DateTime, hour: int)
    requires Valid(t) && 0 <= hour < 24
    ensures SetHours(t, hour) == t.(hour := hour)
  {
  }

  lemma SetMinutesInHour(t: DateTime, minute: int)
    requires Valid(t) && 0 <= minute < 60
    ensures SetMinutes(t, minute) == t.(minute := minute)
  {
  }

  // Every whole minute has a date: the calendar covers the time line.
  lemma EveryMinute(n: int) returns (t: DateTime)
    ensures Valid(t) && Minutes(t) == n
  {
    var year := if n >= 0 then 1970 else 1970 + n;
    t := DateTime(year, 0, 1, 0, 0);
    assert Minutes(t) == YearStart(year) * 1440;
    EarlyEnough(n);
    t := SetMinutes(t, n - Minutes(t));
  }

  lemma EarlyEnough(n: int)
    ensures YearStart(if n >= 0 then 1970 else 1970 + n) * 1440 <= n
  {
    if n < 0 {
      assert YearStart(1970 + n) <= n;
    }
  }
}
