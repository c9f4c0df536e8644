/** Cron schedules: `match`, the reference scan, and what `next` computes against it. */
module Cron {
  import opened Options
  import opened Arithmetic
  import opened Calendar

  // An empty set leaves its field unrestricted.
  datatype Cron = Cron(minutes: set<int>, hours: set<int>, days: set<int>, months: set<int>, weekdays: set<int>)

  predicate Allows(restriction: set<int>, value: int) {
    |restriction| == 0 || value in restriction
  }

  // The or-rule of POSIX.1-2017 crontab: two restricted day fields accept a day matching either.
  predicate DayAllowed(cron: Cron, day: int, weekday: int) {
    if |cron.days| == 0 && |cron.weekdays| == 0 then true
    else if |cron.weekdays| == 0 then day in cron.days
    else if |cron.days| == 0 then weekday in cron.weekdays
    else day in cron.days || weekday in cron.weekdays
  }

  predicate Match(cron: Cron, date: DateTime)
    requires 0 <= date.month < 12
  {
    && Allows(cron.minutes, date.minute)
    && Allows(cron.hours, date.hour)
    && Allows(cron.months, date.month + 1)
    && DayAllowed(cron, date.day, Weekday(date))
  }

  // Dates and weekdays restricted together accept either, restricted alone they must hold.
  lemma DayRule(days: set<int>, weekdays: set<int>, date: DateTime)
    requires 0 <= date.month < 12
    ensures Match(Cron({}, {}, days, {}, weekdays), date) <==>
      || (date.day in days)
      || (Weekday(date) in weekdays)
      || (days == {} && weekdays == {})
    ensures days == {} || weekdays == {} ==>
      (Match(Cron({}, {}, days, {}, weekdays), date) <==>
        (days == {} || date.day in days) && (weekdays == {} || Weekday(date) in weekdays))
  {
  }

  // `23 0-20/2 * * 0` matches on Sunday 7 January 2024 at 00:23 and not on the Monday after.
  lemma SundayMatches(cron: Cron, sunday: DateTime, monday: DateTime)
    requires cron.minutes == {23} && 0 in cron.hours && cron.days == cron.months == {} && cron.weekdays == {0}
    requires sunday == DateTime(2024, 0, 7, 0, 23) && monday == sunday.(day := 8)
    ensures Match(cron, sunday) && !Match(cron, monday)
  {
    hide Weekday, Minutes, DayNumber;
    KnownDates(DateTime(1970, 0, 1, 0, 0), sunday, monday);
  }

  // The shape of a schedule that was parsed.
  predicate WithinBounds(cron: Cron) {
    && (forall v :: v in cron.minutes ==> 0 <= v < 60) && (forall v :: v in cron.hours ==> 0 <= v < 24)
    && (forall v :: v in cron.days ==> 1 <= v <= 31) && (forall v :: v in cron.months ==> 1 <= v <= 12)
    && (forall v :: v in cron.weekdays ==> 0 <= v < 7)
  }

  // ---------------------------------------------------------------------------
  // The reference: try one minute after the other

  function Tick(t: DateTime): (r: DateTime)
    requires Valid(t)
    ensures Valid(r) && Minutes(r) == Minutes(t) + 1
  {
    SetMinutes(t, t.minute + 1)
  }

  function Scan(cron: Cron, t: DateTime, limit: int): Option<DateTime>
    requires Valid(t)
    decreases limit - Minutes(t)
  {
    if Minutes(t) > limit then None
    else if Match(cron, t) then Some(t)
    else Scan(cron, Tick(t), limit)
  }

  ghost predicate Quiet(cron: Cron, from: int, to: int) {
    forall u: DateTime :: Valid(u) && from <= Minutes(u) < to ==> !Match(cron, u)
  }

  // The scan finds the least matching minute up to the limit.
  lemma {:induction false} ScanIsLeast(cron: Cron, t: DateTime, limit: int)
    requires Valid(t)
    ensures match Scan(cron, t, limit)
      case Some(r) =>
        Valid(r) && Match(cron, r) && Minutes(t) <= Minutes(r) <= limit && Quiet(cron, Minutes(t), Minutes(r))
      case None => Quiet(cron, Minutes(t), limit + 1)
    decreases limit - Minutes(t)
  {
    if Minutes(t) <= limit && !Match(cron, t) {
      ScanIsLeast(cron, Tick(t), limit);
      forall u: DateTime | Valid(u) && Minutes(u) == Minutes(t)
        ensures !Match(cron, u)
      {
        MinutesInjective(t, u);
      }
    }
  }

  // Skipping minutes that do not match leaves the scan's result alone.
  lemma {:induction false} ScanSkips(cron: Cron, t: DateTime, u: DateTime, limit: int)
    requires Valid(t) && Valid(u) && Minutes(t) <= Minutes(u)
    requires Quiet(cron, Minutes(t), Minutes(u))
    ensures Scan(cron, t, limit) == Scan(cron, u, limit)
    decreases Minutes(u) - Minutes(t)
  {
    if Minutes(t) == Minutes(u) {
      MinutesInjective(t, u);
    } else if Minutes(t) <= limit {
      ScanSkips(cron, Tick(t), u, limit);
    }
  }

  // ---------------------------------------------------------------------------
  // Jumps of the search

  function First(now: DateTime): (r: DateTime)
    requires Valid(now)
    ensures Valid(r) && Minutes(r) == Minutes(now) + 1
  {
    Tick(now)
  }

  function Limit(first: DateTime): int
    requires Valid(first)
  {
    Minutes(SetFullYear(first, first.year + 8))
  }

  predicate MonthExcluded(cron: Cron, t: DateTime) {
    !Allows(cron.months, t.month + 1)
  }

  // setMonth(+1), setDate(1), setHours(0), setMinutes(0)
  function MonthJump(t: DateTime): (r: DateTime)
    requires Valid(t)
    ensures Valid(r)
  {
    SetMinutes(SetHours(SetDate(SetMonth(t, t.month + 1), 1), 0), 0)
  }

  function DayJump(t: DateTime): (r: DateTime)
    requires Valid(t)
    ensures Valid(r) && Minutes(r) == (DayNumber(t) + 1) * 1440
  {
    SetMinutes(SetHours(SetDate(t, t.day + 1), 0), 0)
  }

  function HourJump(t: DateTime): (r: DateTime)
    requires Valid(t)
    ensures Valid(r) && Minutes(r) == Minutes(t) - t.minute + 60
  {
    SetMinutes(SetHours(t, t.hour + 1), 0)
  }

  // Adding a month before resetting the day overflows when the next month is too short for it.
  predicate Overflows(t: DateTime)
    requires 0 <= t.month < 12
  {
    var (y, m) := NextMonth(t.year, t.month);
    t.day > DaysIn(y, m)
  }

  function MonthJumpTarget(t: DateTime): (r: DateTime)
    requires Valid(t)
    ensures Valid(r)
  {
    var (y, m) := NextMonth(t.year, t.month);
    var (y', m') := NextMonth(y, m);
    if Overflows(t) then DateTime(y', m', 1, 0, 0) else DateTime(y, m, 1, 0, 0)
  }

  lemma MonthJumpResets(t: DateTime)
    requires Valid(t)
    ensures MonthJump(t) == SetMonth(t, t.month + 1).(day := 1, hour := 0, minute := 0)
  {
    hide Roll, DaysBefore, YearStart, SetMonth, SetDate, SetHours, SetMinutes;
    var moved := SetMonth(t, t.month + 1);
    SetDateInMonth(moved, 1);
    SetHoursInDay(moved.(day := 1), 0);
    SetMinutesInHour(moved.(day := 1, hour := 0), 0);
  }

  lemma MonthJumpLands(t: DateTime)
    requires Valid(t)
    ensures MonthJump(t) == MonthJumpTarget(t)
  {
    hide Roll, SetMonth, MonthJump;
    MonthJumpResets(t);
    MovedMonth(t);
  }

  lemma MovedMonth(t: DateTime)
    requires Valid(t)
    ensures var moved, target := SetMonth(t, t.month + 1), MonthJumpTarget(t);
      moved.year == target.year && moved.month == target.month
  {
    hide MonthLength, YearStart, DaysBefore;
    var (y, m) := NextMonth(t.year, t.month);
    assert (t.year + (t.month + 1) / 12, (t.month + 1) % 12) == (y, m);
    assert SetMonth(t, t.month + 1).year == Roll(y, m, t.day).0;
    assert SetMonth(t, t.month + 1).month == Roll(y, m, t.day).1;
    hide Roll;
    if Overflows(t) {
      RollOnce(y, m, t.day);
    }
  }

  lemma MonthJumpAdvances(t: DateTime)
    requires Valid(t)
    ensures Minutes(t) < Minutes(MonthJump(t))
  {
    var (y, m) := NextMonth(t.year, t.month);
    NextMonthStart(t.year, t.month);
    NextMonthStart(y, m);
    MonthJumpLands(t);
  }

  lemma ExcludedMonthIsQuiet(cron: Cron, t: DateTime)
    requires Valid(t) && MonthExcluded(cron, t)
    ensures var (y, m) := NextMonth(t.year, t.month);
      Quiet(cron, Minutes(t), Minutes(DateTime(y, m, 1, 0, 0)))
  {
    var (y, m) := NextMonth(t.year, t.month);
    NextMonthStart(t.year, t.month);
    forall u: DateTime | Valid(u) && Minutes(t) <= Minutes(u) < Minutes(DateTime(y, m, 1, 0, 0))
      ensures !Match(cron, u)
    {
      SameMonth(u, t.year, t.month);
    }
  }

  lemma ExcludedDayIsQuiet(cron: Cron, t: DateTime)
    requires Valid(t) && !DayAllowed(cron, t.day, Weekday(t))
    ensures Minutes(t) < Minutes(DayJump(t))
    ensures Quiet(cron, Minutes(t), Minutes(DayJump(t)))
  {
    forall u: DateTime | Valid(u) && Minutes(t) <= Minutes(u) < Minutes(DayJump(t))
      ensures !Match(cron, u)
    {
      SameDayUntilMidnight(t, u);
    }
  }

  lemma ExcludedHourIsQuiet(cron: Cron, t: DateTime)
    requires Valid(t) && !Allows(cron.hours, t.hour)
    ensures Minutes(t) < Minutes(HourJump(t)) <= (DayNumber(t) + 1) * 1440
    ensures Quiet(cron, Minutes(t), Minutes(HourJump(t)))
  {
    forall u: DateTime | Valid(u) && Minutes(t) <= Minutes(u) < Minutes(HourJump(t))
      ensures !Match(cron, u)
    {
      MinutesDecompose(t);
      MinutesDecompose(u);
      var h := DayNumber(t) * 24 + t.hour;
      DivUnique(Minutes(u), 60, h, Minutes(u) - 60 * h);
      DivUnique(Minutes(t), 60, h, t.minute);
    }
  }

  lemma ExcludedMinuteIsQuiet(cron: Cron, t: DateTime)
    requires Valid(t) && !Allows(cron.minutes, t.minute)
    ensures Minutes(Tick(t)) <= (DayNumber(t) + 1) * 1440
    ensures Quiet(cron, Minutes(t), Minutes(Tick(t)))
  {
    forall u: DateTime | Valid(u) && Minutes(t) <= Minutes(u) < Minutes(Tick(t))
      ensures !Match(cron, u)
    {
      MinutesInjective(t, u);
    }
  }

  // ---------------------------------------------------------------------------
  // What `next` computes

  // Where the search begins in effect: an excluded first month is left by one month jump.
  function SearchStart(cron: Cron, first: DateTime): (r: DateTime)
    requires Valid(first)
    ensures Valid(r)
  {
    if MonthExcluded(cron, first) then MonthJump(first) else first
  }

  function NextRun(cron: Cron, now: DateTime): (r: Option<DateTime>)
    requires Valid(now)
    ensures r.Some? ==> Valid(r.value) && Match(cron, r.value) && Minutes(now) < Minutes(r.value)
  {
    MonthJumpAdvances(First(now));
    ScanIsLeast(cron, SearchStart(cron, First(now)), Limit(First(now)));
    Scan(cron, SearchStart(cron, First(now)), Limit(First(now)))
  }

  // Unless the month jump overflows, starting there is as good as starting at t.
  lemma SearchStartIsFaithful(cron: Cron, t: DateTime, limit: int)
    requires Valid(t)
    requires MonthExcluded(cron, t) ==> !Overflows(t)
    ensures Scan(cron, SearchStart(cron, t), limit) == Scan(cron, t, limit)
  {
    if MonthExcluded(cron, t) {
      MonthJumpLands(t);
      MonthJumpAdvances(t);
      ExcludedMonthIsQuiet(cron, t);
      ScanSkips(cron, t, MonthJump(t), limit);
    }
  }

  predicate DateAllowed(cron: Cron, year: int, month: int, day: int)
    requires 0 <= month < 12
  {
    DayAllowed(cron, day, Weekday(DateTime(year, month, day, 0, 0)))
  }

  // Some minute of the month matches, read off the five fields.
  predicate MonthHasRun(cron: Cron, year: int, month: int)
    requires 0 <= month < 12
  {
    && Allows(cron.months, month + 1)
    && (exists day | 1 <= day <= DaysIn(year, month) :: DateAllowed(cron, year, month, day))
    && (exists hour | 0 <= hour < 24 :: Allows(cron.hours, hour))
    && (exists minute | 0 <= minute < 60 :: Allows(cron.minutes, minute))
  }

  lemma MonthHasRunMeans(cron: Cron, year: int, month: int)
    requires 0 <= month < 12
    ensures MonthHasRun(cron, year, month) <==>
      exists u: DateTime :: Valid(u) && u.year == year && u.month == month && Match(cron, u)
  {
    if MonthHasRun(cron, year, month) {
      var day :| 1 <= day <= DaysIn(year, month) && DateAllowed(cron, year, month, day);
      var hour :| 0 <= hour < 24 && Allows(cron.hours, hour);
      var minute :| 0 <= minute < 60 && Allows(cron.minutes, minute);
      var u := DateTime(year, month, day, hour, minute);
      assert Valid(u) && Match(cron, u);
    }
    if u: DateTime :| Valid(u) && u.year == year && u.month == month && Match(cron, u) {
      assert DateAllowed(cron, year, month, u.day);
    }
  }

  // The first month is excluded, its jump overflows, and the month jumped over has a run.
  predicate SkipsARun(cron: Cron, first: DateTime)
    requires Valid(first)
  {
    var (y, m) := NextMonth(first.year, first.month);
    MonthExcluded(cron, first) && Overflows(first) && MonthHasRun(cron, y, m)
  }

  // `next` agrees with the minute-by-minute scan exactly when it does not jump over a run.
  lemma NextAgreesWithScan(cron: Cron, now: DateTime)
    requires Valid(now)
    ensures NextRun(cron, now) == Scan(cron, First(now), Limit(First(now))) <==> !SkipsARun(cron, First(now))
  {
    var t := First(now);
    var (y, m) := NextMonth(t.year, t.month);
    if !MonthExcluded(cron, t) || !Overflows(t) {
      SearchStartIsFaithful(cron, t, Limit(t));
    } else if MonthHasRun(cron, y, m) {
      RunIsSkipped(cron, t);
    } else {
      QuietMonthSkipped(cron, t, Limit(t));
    }
  }

  lemma OverflowSpan(t: DateTime)
    requires Valid(t) && Overflows(t)
    ensures var (y, m) := NextMonth(t.year, t.month);
      && Minutes(t) < MonthStart(y, m) * 1440
      && Minutes(MonthJump(t)) == (MonthStart(y, m) + DaysIn(y, m)) * 1440
      && Minutes(DateTime(y, m, 1, 0, 0)) == MonthStart(y, m) * 1440
  {
    var (y, m) := NextMonth(t.year, t.month);
    NextMonthStart(t.year, t.month);
    NextMonthStart(y, m);
    MonthJumpLands(t);
  }

  lemma BeforeLimit(u: DateTime, t: DateTime)
    requires Valid(u) && Valid(t) && u.year < t.year + 8
    ensures Minutes(u) < Limit(t)
  {
    MonthOrder(u.year, u.month, t.year + 8, t.month);
  }

  lemma RunIsSkipped(cron: Cron, t: DateTime)
    requires Valid(t) && SkipsARun(cron, t)
    ensures Scan(cron, MonthJump(t), Limit(t)) != Scan(cron, t, Limit(t))
  {
    hide Roll, YearStart, DaysBefore, MonthLength, Scan, Match, Allows, MonthJump, MonthHasRun;
    var (y, m) := NextMonth(t.year, t.month);
    MonthHasRunMeans(cron, y, m);
    var u: DateTime :| Valid(u) && u.year == y && u.month == m && Match(cron, u);
    OverflowSpan(t);
    BeforeLimit(u, t);
    ScanIsLeast(cron, t, Limit(t));
    ScanIsLeast(cron, MonthJump(t), Limit(t));
    assert Minutes(t) <= Minutes(u) < Minutes(MonthJump(t));
  }

  lemma QuietMonthSkipped(cron: Cron, t: DateTime, limit: int)
    requires Valid(t) && MonthExcluded(cron, t) && Overflows(t) && !SkipsARun(cron, t)
    ensures Scan(cron, MonthJump(t), limit) == Scan(cron, t, limit)
  {
    var (y, m) := NextMonth(t.year, t.month);
    MonthHasRunMeans(cron, y, m);
    OverflowSpan(t);
    ExcludedMonthIsQuiet(cron, t);
    forall u: DateTime | Valid(u) && Minutes(t) <= Minutes(u) < Minutes(MonthJump(t))
      ensures !Match(cron, u)
    {
      if Minutes(u) >= MonthStart(y, m) * 1440 {
        SameMonth(u, y, m);
      }
    }
    ScanSkips(cron, t, MonthJump(t), limit);
  }
}
