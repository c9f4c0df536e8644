/**
 What the runs of a schedule look like: when `next` gives the least one, and when the
 eight-year horizon makes it throw.
 */
module CronRuns {
  import opened Options
  import opened Arithmetic
  import opened Calendar
  import opened Cron

  // r is the least matching minute strictly after now, or there is none up to the horizon.
  ghost predicate IsLeastRun(cron: Cron, now: DateTime, r: Option<DateTime>)
    requires Valid(now)
  {
    match r
    case Some(t) =>
      && Valid(t) && Match(cron, t) && Minutes(now) < Minutes(t) <= Limit(First(now))
      && Quiet(cron, Minutes(now) + 1, Minutes(t))
    case None => Quiet(cron, Minutes(now) + 1, Limit(First(now)) + 1)
  }

  lemma ScanIsLeastRun(cron: Cron, now: DateTime)
    requires Valid(now)
    ensures IsLeastRun(cron, now, Scan(cron, First(now), Limit(First(now))))
  {
    ScanIsLeast(cron, First(now), Limit(First(now)));
  }

  lemma LeastRunIsUnique(cron: Cron, now: DateTime, r: Option<DateTime>, r': Option<DateTime>)
    requires Valid(now) && IsLeastRun(cron, now, r) && IsLeastRun(cron, now, r')
    ensures r == r'
  {
    hide Minutes, Match, First, Limit;
    match (r, r') {
      case (Some(t), Some(t')) =>
        if Minutes(t) == Minutes(t') {
          MinutesInjective(t, t');
        }
      case _ =>
    }
  }

  // `next` is right about the least run exactly when it does not jump over one.
  lemma NextIsLeast(cron: Cron, now: DateTime)
    requires Valid(now)
    ensures IsLeastRun(cron, now, NextRun(cron, now)) <==> !SkipsARun(cron, First(now))
  {
    hide IsLeastRun, SkipsARun;
    NextAgreesWithScan(cron, now);
    ScanIsLeastRun(cron, now);
    if IsLeastRun(cron, now, NextRun(cron, now)) {
      LeastRunIsUnique(cron, now, NextRun(cron, now), Scan(cron, First(now), Limit(First(now))));
    }
  }

  // A starting point on day 28 or earlier, or in an allowed month, is always fine.
  lemma NextIsLeastFromEarlyDays(cron: Cron, now: DateTime)
    requires Valid(now)
    requires First(now).day <= 28 || !MonthExcluded(cron, First(now))
    ensures IsLeastRun(cron, now, NextRun(cron, now))
  {
    NextIsLeast(cron, now);
  }

  // Late in an excluded January with a short February ahead, the search starts in March.
  lemma StartsInMarch(cron: Cron, now: DateTime)
    requires Valid(now) && now.month == 0 && now.day >= 30 && now.minute < 59 && MonthExcluded(cron, now)
    ensures First(now) == now.(minute := now.minute + 1)
    ensures SearchStart(cron, First(now)) == DateTime(now.year, 2, 1, 0, 0)
    ensures SkipsARun(cron, First(now)) <==> MonthHasRun(cron, now.year, 1)
  {
    SetMinutesInHour(now, now.minute + 1);
    LateJanuary(cron, now.(minute := now.minute + 1));
  }

  lemma LateJanuary(cron: Cron, t: DateTime)
    requires Valid(t) && t.month == 0 && t.day >= 30 && MonthExcluded(cron, t)
    ensures SearchStart(cron, t) == DateTime(t.year, 2, 1, 0, 0)
    ensures SkipsARun(cron, t) <==> MonthHasRun(cron, t.year, 1)
  {
    hide Roll, MonthJump, MonthHasRun, YearStart, DaysBefore, Leap;
    MonthJumpLands(t);
  }

  lemma QuietOutsideFebruary(cron: Cron, year: int, run: DateTime)
    requires Valid(run) && run.month == 1 && cron.months == {2} && year < run.year
    requires forall u: DateTime :: Valid(u) && Match(cron, u) ==> u.year <= year || Minutes(run) <= Minutes(u)
    ensures Quiet(cron, Minutes(DateTime(year, 2, 1, 0, 0)), Minutes(run))
    ensures Minutes(DateTime(year, 2, 1, 0, 0)) < Minutes(run)
  {
    var start := DateTime(year, 2, 1, 0, 0);
    LaterYear(start, run);
    forall u: DateTime | Valid(u) && Minutes(start) <= Minutes(u) < Minutes(run)
      ensures !Match(cron, u)
    {
      if Match(cron, u) {
        assert u.year <= year && u.month == 1;
        MonthOrder(u.year, 1, year, 2);
      }
    }
  }

  lemma FebruaryRunsFromMarch(cron: Cron, now: DateTime, run: DateTime)
    requires Valid(now) && now.month == 0 && now.day >= 30 && now.minute < 59
    requires Valid(run) && run.month == 1 && cron.months == {2} && now.year < run.year
    requires forall u: DateTime :: Valid(u) && Match(cron, u) ==> u.year <= now.year || Minutes(run) <= Minutes(u)
    ensures NextRun(cron, now) == Scan(cron, run, Limit(First(now)))
  {
    hide Roll, YearStart, DaysBefore, Scan, Quiet, Limit, Minutes, Match, MonthLength;
    assert Valid(DateTime(now.year, 2, 1, 0, 0));
    StartsInMarch(cron, now);
    QuietOutsideFebruary(cron, now.year, run);
    ScanSkips(cron, DateTime(now.year, 2, 1, 0, 0), run, Limit(First(now)));
  }

  lemma FebruaryMidnights(u: DateTime)
    requires Valid(u) && u.month == 1
    ensures u.year <= 2021 || Minutes(DateTime(2022, 1, 1, 0, 0)) <= Minutes(u)
  {
    if u.year > 2022 {
      LaterYear(DateTime(2022, 1, 1, 0, 0), u);
    }
  }

  lemma FirstOfFebruary(year: int)
    ensures Valid(DateTime(year, 1, 1, 0, 0)) && Match(Cron({0}, {0}, {}, {2}, {}), DateTime(year, 1, 1, 0, 0))
  {
  }

  // From 30 January 2021 a schedule for February finds 1 February 2022, a year too late.
  lemma NextCanSkipFebruary()
    ensures var cron, now := Cron({0}, {0}, {}, {2}, {}), DateTime(2021, 0, 30, 12, 0);
      && NextRun(cron, now) == Some(DateTime(2022, 1, 1, 0, 0))
      && Match(cron, DateTime(2021, 1, 1, 0, 0)) && SkipsARun(cron, First(now))
  {
    var cron, now := Cron({0}, {0}, {}, {2}, {}), DateTime(2021, 0, 30, 12, 0);
    var run := DateTime(2022, 1, 1, 0, 0);
    assert Valid(now) && MonthExcluded(cron, now);
    FirstOfFebruary(2021);
    FirstOfFebruary(2022);
    forall u: DateTime | Valid(u) && Match(cron, u)
      ensures u.year <= 2021 || Minutes(run) <= Minutes(u)
    {
      FebruaryMidnights(u);
    }
    hide *;
    FebruaryRunsFromMarch(cron, now, run);
    StartsInMarch(cron, now);
    BeforeLimit(run, First(now));
    MatchIsFound(cron, run, Limit(First(now)));
    MonthHasRunMeans(cron, 2021, 1);
  }

  lemma MatchIsFound(cron: Cron, t: DateTime, limit: int)
    requires Valid(t) && Match(cron, t) && Minutes(t) <= limit
    ensures Scan(cron, t, limit) == Some(t)
  {
  }

  // ---------------------------------------------------------------------------
  // The horizon

  // Some minute of every leap year, or of every other year, matches, read off the five fields.
  predicate YearHasRun(cron: Cron, leap: bool) {
    && (exists hour | 0 <= hour < 24 :: Allows(cron.hours, hour))
    && (exists minute | 0 <= minute < 60 :: Allows(cron.minutes, minute))
    && exists month | 0 <= month < 12 :: MonthServes(cron, leap, month)
  }

  predicate Satisfiable(cron: Cron) {
    YearHasRun(cron, true)
  }

  predicate RunsEveryYear(cron: Cron) {
    YearHasRun(cron, false)
  }

  predicate MonthServes(cron: Cron, leap: bool, month: int) {
    && Allows(cron.months, month + 1)
    && (|cron.days| + |cron.weekdays| == 0 || SomeWeekday(cron)
        || exists day :: 1 <= day <= MonthLength(leap, month) && day in cron.days)
  }

  predicate SomeWeekday(cron: Cron) {
    exists weekday :: 0 <= weekday < 7 && weekday in cron.weekdays
  }

  lemma MatchMakesSatisfiable(cron: Cron, t: DateTime)
    requires Valid(t) && Match(cron, t)
    ensures Satisfiable(cron)
  {
    assert Weekday(t) in cron.weekdays ==> SomeWeekday(cron);
    assert MonthServes(cron, true, t.month);
  }

  // The first seven days of a month bring every weekday.
  lemma WeekdayInMonth(year: int, month: int, weekday: int) returns (day: int)
    requires 0 <= month < 12 && 0 <= weekday < 7
    ensures 1 <= day <= 7 && Weekday(DateTime(year, month, day, 0, 0)) == weekday
  {
    var first := Weekday(DateTime(year, month, 1, 0, 0));
    day := 1 + (weekday - first) % 7;
    ModAdd(MonthStart(year, month) + 4, weekday);
  }

  lemma ModAdd(n: int, weekday: int)
    requires 0 <= weekday < 7
    ensures (n + (weekday - n % 7) % 7) % 7 == weekday
  {
  }

  // A day of the given month on which the schedule runs, or 0 when only 29 February will do and
  // the year has none.
  lemma DayWithinHorizon(cron: Cron, leap: bool, year: int, month: int) returns (day: int)
    requires 0 <= month < 12 && MonthServes(cron, leap, month)
    ensures
      || (day == 0 && leap && month == 1 && 29 in cron.days)
      || (1 <= day <= DaysIn(year, month) && DateAllowed(cron, year, month, day))
  {
    if |cron.days| + |cron.weekdays| == 0 {
      day := 1;
    } else if weekday :| 0 <= weekday < 7 && weekday in cron.weekdays {
      day := WeekdayInMonth(year, month, weekday);
    } else {
      day :| 1 <= day <= MonthLength(leap, month) && day in cron.days;
      if day > DaysIn(year, month) {
        day := 0;
      }
    }
  }

  lemma SkippedLeapYear(year: int)
    requires year % 4 == 0 && !Leap(year)
    ensures Leap(year - 4) && Leap(year + 4)
  {
    var q := year / 100;
    DivUnique(year + 4, 100, q, 4);
    DivUnique(year - 4, 100, q - 1, 96);
  }

  // Nine consecutive years contain a leap year strictly inside, or both ends are leap.
  lemma LeapYearNearby(year: int) returns (leap: int)
    ensures year <= leap < year + 8 && Leap(leap)
    ensures leap == year ==> Leap(year + 8)
  {
    leap := if year % 4 == 0 then year + 4 else year + 4 - year % 4;
    if !Leap(leap) {
      SkippedLeapYear(leap);
      leap := if year % 4 == 0 then year else leap + 4;
    }
  }

  lemma EightYearsOn(t: DateTime, u: DateTime)
    requires Valid(t) && Valid(u) && t.year == u.year && Leap(t.year) && Leap(t.year + 8)
    ensures Minutes(u.(year := u.year + 8)) - Limit(t) == Minutes(u) - Minutes(t)
    ensures Minutes(t) < Minutes(u.(year := u.year + 8))
  {
    var v := u.(year := u.year + 8);
    var limit := SetFullYear(t, t.year + 8);
    assert DayNumber(limit) - DayNumber(t) == YearStart(t.year + 8) - YearStart(t.year);
    assert DayNumber(v) - DayNumber(u) == YearStart(t.year + 8) - YearStart(t.year);
    hide YearStart, DaysBefore;
    LaterYear(t, v);
  }

  lemma LeapDayExists(year: int, hour: int, minute: int)
    requires Leap(year) && 0 <= hour < 24 && 0 <= minute < 60
    ensures Valid(DateTime(year, 1, 29, hour, minute))
  {
  }

  lemma LeapDayWithinHorizon(t: DateTime, hour: int, minute: int) returns (u: DateTime)
    requires Valid(t) && 0 <= hour < 24 && 0 <= minute < 60
    ensures Valid(u) && u.month == 1 && u.day == 29 && u.hour == hour && u.minute == minute
    ensures Minutes(t) <= Minutes(u) <= Limit(t)
  {
    hide Roll, YearStart, DaysBefore, Limit, Minutes, DayNumber, Leap;
    var year := LeapYearNearby(t.year);
    u := DateTime(year, 1, 29, hour, minute);
    LeapDayExists(year, hour, minute);
    if year > t.year {
      LaterYear(t, u);
      BeforeLimit(u, t);
    } else if Minutes(u) < Minutes(t) {
      var v := DateTime(year + 8, 1, 29, hour, minute);
      LeapDayExists(year + 8, hour, minute);
      EightYearsOn(t, u);
      u := v;
    } else {
      BeforeLimit(u, t);
    }
  }

  // A satisfiable schedule runs within eight years of any starting minute.
  lemma RunWithinHorizon(cron: Cron, t: DateTime) returns (u: DateTime)
    requires Valid(t) && Satisfiable(cron)
    ensures Valid(u) && Match(cron, u) && Minutes(t) <= Minutes(u) <= Limit(t)
  {
    hide Roll, YearStart, DaysBefore, Limit, Minutes, DayNumber, Match, DateAllowed;
    var hour :| 0 <= hour < 24 && Allows(cron.hours, hour);
    var minute :| 0 <= minute < 60 && Allows(cron.minutes, minute);
    var month :| 0 <= month < 12 && MonthServes(cron, true, month);
    var day := DayWithinHorizon(cron, true, t.year + 1, month);
    if day == 0 {
      u := LeapDayWithinHorizon(t, hour, minute);
      LeapDayMatches(cron, u);
    } else {
      u := DateTime(t.year + 1, month, day, hour, minute);
      DateMatches(cron, u);
      LaterYear(t, u);
      BeforeLimit(u, t);
    }
  }

  lemma LeapDayMatches(cron: Cron, u: DateTime)
    requires Valid(u) && u.month == 1 && u.day == 29 && 29 in cron.days
    requires Allows(cron.hours, u.hour) && Allows(cron.minutes, u.minute) && Allows(cron.months, 2)
    ensures Match(cron, u)
  {
  }

  lemma DateMatches(cron: Cron, u: DateTime)
    requires 0 <= u.month < 12 && DateAllowed(cron, u.year, u.month, u.day)
    requires Allows(cron.hours, u.hour) && Allows(cron.minutes, u.minute) && Allows(cron.months, u.month + 1)
    ensures Match(cron, u)
  {
    assert Weekday(u) == Weekday(DateTime(u.year, u.month, u.day, 0, 0));
  }

  lemma SatisfiableMeans(cron: Cron)
    ensures Satisfiable(cron) <==> exists t: DateTime :: Valid(t) && Match(cron, t)
  {
    hide Match, Satisfiable;
    if Satisfiable(cron) {
      var u := RunWithinHorizon(cron, DateTime(1970, 0, 1, 0, 0));
    }
    if t: DateTime :| Valid(t) && Match(cron, t) {
      MatchMakesSatisfiable(cron, t);
    }
  }

  // ---------------------------------------------------------------------------
  // When `next` throws

  lemma UnskippedHorizon(cron: Cron, now: DateTime)
    requires Valid(now) && Satisfiable(cron) && !SkipsARun(cron, First(now))
    ensures NextRun(cron, now).Some?
  {
    hide NextRun, Limit, Minutes, Match, SkipsARun;
    var t := First(now);
    NextAgreesWithScan(cron, now);
    ScanIsLeast(cron, t, Limit(t));
    var u := RunWithinHorizon(cron, t);
  }

  lemma FoundFrom(cron: Cron, now: DateTime, u: DateTime)
    requires Valid(now) && Valid(u) && Match(cron, u)
    requires Minutes(SearchStart(cron, First(now))) <= Minutes(u) <= Limit(First(now))
    ensures NextRun(cron, now).Some?
  {
    ScanIsLeast(cron, SearchStart(cron, First(now)), Limit(First(now)));
  }

  lemma NothingFound(cron: Cron, now: DateTime)
    requires Valid(now) && Quiet(cron, Minutes(SearchStart(cron, First(now))), Limit(First(now)) + 1)
    ensures NextRun(cron, now) == None
  {
    ScanIsLeast(cron, SearchStart(cron, First(now)), Limit(First(now)));
  }

  lemma YearlyRun(cron: Cron, year: int) returns (u: DateTime)
    requires RunsEveryYear(cron)
    ensures Valid(u) && Match(cron, u) && u.year == year
  {
    hide Match, DateAllowed;
    var hour :| 0 <= hour < 24 && Allows(cron.hours, hour);
    var minute :| 0 <= minute < 60 && Allows(cron.minutes, minute);
    var month :| 0 <= month < 12 && MonthServes(cron, false, month);
    var day := DayWithinHorizon(cron, false, year, month);
    u := DateTime(year, month, day, hour, minute);
    DateMatches(cron, u);
  }

  // Only months before November are long enough for the next one to be jumped over.
  lemma SkipsWithinYear(cron: Cron, t: DateTime)
    requires Valid(t) && SkipsARun(cron, t)
    ensures SearchStart(cron, t).year == t.year
  {
    hide MonthJump, MonthHasRun;
    MonthJumpLands(t);
  }

  // A schedule that misses some years runs on leap days alone.
  lemma OnlyLeapDays(cron: Cron, u: DateTime)
    requires Valid(u) && Match(cron, u) && !RunsEveryYear(cron)
    ensures u.month == 1 && u.day == 29 && Leap(u.year) && 29 in cron.days && Allows(cron.months, 2)
  {
    assert Weekday(u) in cron.weekdays ==> SomeWeekday(cron);
    assert !MonthServes(cron, false, u.month);
  }

  ghost predicate RunsIn(cron: Cron, year: int) {
    exists t: DateTime :: t.year == year && Valid(t) && Match(cron, t)
  }

  lemma RunsEveryYearMeans(cron: Cron)
    ensures RunsEveryYear(cron) <==> forall year :: RunsIn(cron, year)
  {
    hide Match, RunsEveryYear;
    if RunsEveryYear(cron) {
      forall year
        ensures RunsIn(cron, year)
      {
        var t := YearlyRun(cron, year);
      }
    } else if RunsIn(cron, 2023) {
      var t: DateTime :| t.year == 2023 && Valid(t) && Match(cron, t);
      OnlyLeapDays(cron, t);
    }
  }

  lemma LeapDayAgain(cron: Cron, u: DateTime, year: int) returns (v: DateTime)
    requires Valid(u) && Match(cron, u) && !RunsEveryYear(cron) && Leap(year)
    ensures Valid(v) && Match(cron, v) && v.year == year
  {
    OnlyLeapDays(cron, u);
    v := DateTime(year, 1, 29, u.hour, u.minute);
    LeapDayMatches(cron, v);
  }

  lemma LeapYearsBetween(year: int, other: int)
    requires Leap(year) && Leap(other) && year < other < year + 8
    ensures other == year + 4
  {
  }

  // From March of a leap year on there is no leap day up to the limit when the fourth year after
  // has none.
  lemma NoLeapDay(cron: Cron, t: DateTime)
    requires Valid(t) && t.month == 0 && Leap(t.year) && !Leap(t.year + 4) && !RunsEveryYear(cron)
    ensures Quiet(cron, Minutes(DateTime(t.year, 2, 1, 0, 0)), Limit(t) + 1)
  {
    hide Roll, YearStart, DaysBefore, Limit, RunsEveryYear, Match;
    forall u: DateTime | Valid(u) && Minutes(DateTime(t.year, 2, 1, 0, 0)) <= Minutes(u) <= Limit(t)
      ensures !Match(cron, u)
    {
      if Match(cron, u) {
        OnlyLeapDays(cron, u);
        if u.year <= t.year {
          MonthOrder(u.year, 1, t.year, 2);
        } else if u.year < t.year + 8 {
          LeapYearsBetween(t.year, u.year);
        } else {
          BeyondLimit(t, u);
        }
      }
    }
  }

  lemma BeyondLimit(t: DateTime, u: DateTime)
    requires Valid(t) && t.month == 0 && Valid(u) && u.year >= t.year + 8 && u.month == 1
    ensures Limit(t) < Minutes(u)
  {
    MonthOrder(t.year + 8, 0, u.year, 1);
  }

  lemma SkippedLeapDay(cron: Cron, t: DateTime) returns (u: DateTime)
    requires Valid(t) && SkipsARun(cron, t) && !RunsEveryYear(cron)
    ensures Valid(u) && Match(cron, u) && u.year == t.year && u.month == 1
    ensures Leap(t.year) && t.month == 0 && SearchStart(cron, t) == DateTime(t.year, 2, 1, 0, 0)
  {
    hide Roll, YearStart, DaysBefore, Limit, Match, RunsEveryYear, SearchStart, Weekday;
    var (y, m) := NextMonth(t.year, t.month);
    MonthHasRunMeans(cron, y, m);
    hide MonthHasRun;
    u :| Valid(u) && u.year == y && u.month == m && Match(cron, u);
    OnlyLeapDays(cron, u);
    LateJanuary(cron, t);
  }

  // Jumping over the leap day of its own year, `next` still finds the one four years later, if
  // there is one, and gives up otherwise.
  lemma AfterSkippedLeapDay(cron: Cron, now: DateTime)
    requires Valid(now) && SkipsARun(cron, First(now)) && !RunsEveryYear(cron)
    ensures Satisfiable(cron)
    ensures NextRun(cron, now) == None <==> !Leap(First(now).year + 4)
  {
    hide *;
    var t := First(now);
    var u := SkippedLeapDay(cron, t);
    MatchMakesSatisfiable(cron, u);
    FirstOfMarch(t.year);
    var march := DateTime(t.year, 2, 1, 0, 0);
    if Leap(t.year + 4) {
      var v := LeapDayAgain(cron, u, t.year + 4);
      LaterYear(march, v);
      BeforeLimit(v, t);
      FoundFrom(cron, now, v);
    } else {
      NoLeapDay(cron, t);
      NothingFound(cron, now);
    }
  }

  lemma FirstOfMarch(year: int)
    ensures Valid(DateTime(year, 2, 1, 0, 0))
  {
  }

  // `next` throws exactly when the schedule never matches at all, or when it runs on leap days
  // alone, this year's was jumped over, and the turn of a century takes the next one.
  lemma HorizonExactly(cron: Cron, now: DateTime)
    requires Valid(now)
    ensures var t := First(now);
      NextRun(cron, now) == None <==>
        !Satisfiable(cron) || (SkipsARun(cron, t) && !RunsEveryYear(cron) && !Leap(t.year + 4))
  {
    hide *;
    var t := First(now);
    if NextRun(cron, now).Some? {
      MatchMakesSatisfiable(cron, NextRun(cron, now).value);
    }
    if SkipsARun(cron, t) {
      if RunsEveryYear(cron) {
        var u := YearlyRun(cron, t.year + 1);
        SkipsWithinYear(cron, t);
        LaterYear(SearchStart(cron, t), u);
        BeforeLimit(u, t);
        FoundFrom(cron, now, u);
      } else {
        AfterSkippedLeapDay(cron, now);
      }
    } else if Satisfiable(cron) {
      UnskippedHorizon(cron, now);
    }
  }

  // So it throws only for a schedule without any run, unless it jumps over one first.
  lemma HorizonSuffices(cron: Cron, now: DateTime)
    requires Valid(now) && !SkipsARun(cron, First(now))
    ensures NextRun(cron, now) == None <==> !Satisfiable(cron)
    ensures Satisfiable(cron) <==> exists t: DateTime :: Valid(t) && Match(cron, t)
  {
    HorizonExactly(cron, now);
    SatisfiableMeans(cron);
  }

  predicate MonthDayPair(cron: Cron, month: int, day: int) {
    0 <= month < 12 && Allows(cron.months, month + 1) && 1 <= day <= MonthLength(true, month) && day in cron.days
  }

  // Such a schedule fails to match only if it names days of the month alone and none of them
  // exists in any month it allows, leap years included.
  lemma ParsedScheduleMatches(cron: Cron)
    requires WithinBounds(cron)
    ensures Satisfiable(cron) <==>
      || |cron.days| == 0 || |cron.weekdays| > 0
      || exists month, day :: MonthDayPair(cron, month, day)
  {
    var hour := AllowsSomething(cron.hours, 0, 23);
    var minute := AllowsSomething(cron.minutes, 0, 59);
    var number := AllowsSomething(cron.months, 1, 12);
    if month :| 0 <= month < 12 && MonthServes(cron, true, month) {
      if day :| 1 <= day <= MonthLength(true, month) && day in cron.days {
        assert MonthDayPair(cron, month, day);
      }
    }
    if |cron.days| == 0 || |cron.weekdays| > 0 {
      if |cron.weekdays| > 0 {
        var weekday := SomeElement(cron.weekdays);
        assert SomeWeekday(cron);
      }
      assert MonthServes(cron, true, number - 1);
    } else if month, day :| MonthDayPair(cron, month, day) {
      assert MonthServes(cron, true, month);
    }
  }

  lemma NoElement(s: set<int>)
    requires forall y :: y !in s
    ensures s == {}
  {
    assert forall y :: y in s <==> y in {};
  }

  lemma SomeElement(s: set<int>) returns (x: int)
    requires s != {}
    ensures x in s
  {
    if forall y :: y !in s {
      NoElement(s);
    }
    x :| x in s;
  }

  lemma AllowsSomething(values: set<int>, min: int, max: int) returns (value: int)
    requires min <= max && forall v :: v in values ==> min <= v <= max
    ensures min <= value <= max && Allows(values, value)
  {
    if |values| == 0 {
      value := min;
    } else {
      value := SomeElement(values);
    }
  }

  // Jumping over February 1896 loses its leap day, and 1900 has none: `next` gives up although
  // the schedule runs on 29 February 1904.
  lemma NextCanGiveUpTooEarly()
    ensures var cron, now := Cron({}, {}, {29}, {2}, {}), DateTime(1896, 0, 31, 12, 0);
      && NextRun(cron, now) == None && Satisfiable(cron)
      && Match(cron, DateTime(1904, 1, 29, 0, 0))
  {
    var cron, now := Cron({}, {}, {29}, {2}, {}), DateTime(1896, 0, 31, 12, 0);
    assert Valid(now) && MonthExcluded(cron, now);
    LeapDayRuns(1896);
    LeapDayRuns(1904);
    MonthHasRunMeans(cron, 1896, 1);
    MissesCommonYears(cron);
    hide *;
    StartsInMarch(cron, now);
    HorizonExactly(cron, now);
    MatchMakesSatisfiable(cron, DateTime(1904, 1, 29, 0, 0));
  }

  lemma LeapDayRuns(year: int)
    requires Leap(year)
    ensures var run := DateTime(year, 1, 29, 0, 0); Valid(run) && Match(Cron({}, {}, {29}, {2}, {}), run)
  {
  }

  lemma MissesCommonYears(cron: Cron)
    requires cron == Cron({}, {}, {29}, {2}, {})
    ensures !RunsEveryYear(cron) && !Leap(1900)
  {
  }
}
