/** The search loop of `next` over a mutable date, and the generator `sequence` on top of it. */
module CronNext {
  import opened Options
  import opened Calendar
  import opened Cron

  class Date {
    var at: DateTime
    var second: int
    var millisecond: int

    predicate IsDate()
      reads this
    {
      Valid(at) && 0 <= second < 60 && 0 <= millisecond < 1000
    }

    function GetTime(): int
      requires IsDate()
      reads this
    {
      (Minutes(at) * 60 + second) * 1000 + millisecond
    }

    constructor (at: DateTime, second: int, millisecond: int)
      requires Valid(at) && 0 <= second < 60 && 0 <= millisecond < 1000
      ensures this.at == at && this.second == second && this.millisecond == millisecond
    {
      this.at, this.second, this.millisecond := at, second, millisecond;
    }

    method SetMonth(month: int)
      requires IsDate()
      modifies this`at
      ensures IsDate() && at == Calendar.SetMonth(old(at), month)
    {
      at := Calendar.SetMonth(at, month);
    }

    method SetDate(day: int)
      requires IsDate() && day >= 1
      modifies this`at
      ensures IsDate() && at == Calendar.SetDate(old(at), day)
    {
      at := Calendar.SetDate(at, day);
    }

    method SetHours(hour: int)
      requires IsDate() && hour >= 0
      modifies this`at
      ensures IsDate() && at == Calendar.SetHours(old(at), hour)
    {
      at := Calendar.SetHours(at, hour);
    }

    method SetMinutes(minute: int)
      requires IsDate() && minute >= 0
      modifies this`at
      ensures IsDate() && at == Calendar.SetMinutes(old(at), minute)
    {
      at := Calendar.SetMinutes(at, minute);
    }

    method SetFullYear(year: int)
      requires IsDate()
      modifies this`at
      ensures IsDate() && at == Calendar.SetFullYear(old(at), year)
    {
      at := Calendar.SetFullYear(at, year);
    }

    // The setter sequences of the search, in the order it applies them.
    method SkipMonth()
      requires IsDate()
      modifies this`at
      ensures IsDate() && at == MonthJump(old(at))
    {
      hide Roll, DaysBefore, YearStart;
      hide Calendar.SetMonth, Calendar.SetDate, Calendar.SetHours, Calendar.SetMinutes;
      SetMonth(at.month + 1);
      SetDate(1);
      SetHours(0);
      SetMinutes(0);
    }

    method SkipDay()
      requires IsDate()
      modifies this`at
      ensures IsDate() && at == DayJump(old(at))
    {
      hide Roll, DaysBefore, YearStart;
      hide Calendar.SetMonth, Calendar.SetDate, Calendar.SetHours, Calendar.SetMinutes;
      SetDate(at.day + 1);
      SetHours(0);
      SetMinutes(0);
    }

    method SkipHour()
      requires IsDate()
      modifies this`at
      ensures IsDate() && at == HourJump(old(at))
    {
      hide Roll, DaysBefore, YearStart;
      hide Calendar.SetMonth, Calendar.SetDate, Calendar.SetHours, Calendar.SetMinutes;
      SetHours(at.hour + 1);
      SetMinutes(0);
    }
  }

  // Away from days 29 to 31 of an excluded month, starting the search loses nothing.
  lemma EarlyDayIsFaithful(cron: Cron, t: DateTime, limit: int)
    requires Valid(t)
    requires t.day <= 28 || !MonthExcluded(cron, t)
    ensures Scan(cron, SearchStart(cron, t), limit) == Scan(cron, t, limit)
  {
    SearchStartIsFaithful(cron, t, limit);
  }

  // A jump within an allowed month to time u keeps the search's result.
  lemma JumpKeepsResult(cron: Cron, t: DateTime, u: DateTime, limit: int)
    requires Valid(t) && Valid(u) && !MonthExcluded(cron, t)
    requires Minutes(t) <= Minutes(u) <= (DayNumber(t) + 1) * 1440 && Quiet(cron, Minutes(t), Minutes(u))
    ensures Scan(cron, SearchStart(cron, u), limit) == Scan(cron, SearchStart(cron, t), limit)
  {
    hide Roll, Quiet, Scan, Minutes, DayNumber, MonthJump;
    ScanSkips(cron, t, u, limit);
    NextDayIsEarly(t, u);
    EarlyDayIsFaithful(cron, u, limit);
  }

  // Up to the following midnight one is still in the same month or on the first of the next.
  lemma NextDayIsEarly(t: DateTime, u: DateTime)
    requires Valid(t) && Valid(u) && Minutes(t) <= Minutes(u) <= (DayNumber(t) + 1) * 1440
    ensures u.month == t.month || u.day == 1
  {
    var (y, m) := NextMonth(t.year, t.month);
    NextMonthStart(t.year, t.month);
    MinutesDecompose(u);
    MinutesDecompose(t);
    if DayNumber(u) == DayNumber(t) {
      SameDay(t, u);
    } else if t.day < DaysIn(t.year, t.month) {
      SameMonth(u, t.year, t.month);
    } else {
      SameDay(u, DateTime(y, m, 1, 0, 0));
    }
  }

  lemma SearchEnds(cron: Cron, t: DateTime, limit: int)
    requires Valid(t)
    ensures Minutes(t) > limit ==> Scan(cron, SearchStart(cron, t), limit) == None
    ensures Minutes(t) <= limit && Match(cron, t) ==> Scan(cron, SearchStart(cron, t), limit) == Some(t)
  {
    if MonthExcluded(cron, t) {
      MonthJumpAdvances(t);
    }
  }

  // One pass of the search loop: either `current` matches as it stands, or it strictly
  // advances without changing what the search will find up to any limit.
  method Pass(cron: Cron, current: Date, ghost limit: int) returns (found: bool)
    requires current.IsDate()
    modifies current`at
    ensures current.IsDate()
    ensures found ==> current.at == old(current.at) && Match(cron, current.at)
    ensures !found ==> Minutes(old(current.at)) < Minutes(current.at)
    ensures !found ==>
      Scan(cron, SearchStart(cron, current.at), limit) == Scan(cron, SearchStart(cron, old(current.at)), limit)
  {
    hide Roll, YearStart, DaysBefore, MonthStart, MonthLength, Minutes, DayNumber, Quiet, Weekday, Scan;
    hide MonthJump, DayJump, HourJump;
    var restrictMinutes := |cron.minutes| != 0;
    var restrictHours := |cron.hours| != 0;
    var restrictDays := |cron.days| != 0;
    var restrictMonths := |cron.months| != 0;
    var restrictWeekdays := |cron.weekdays| != 0;
    ghost var t := current.at;

    if restrictMonths && current.at.month + 1 !in cron.months {
      current.SkipMonth();
      MonthJumpLands(t);
      MonthJumpAdvances(t);
      EarlyDayIsFaithful(cron, current.at, limit);
      return false;
    }

    if restrictDays && restrictWeekdays {
      if current.at.day !in cron.days && Weekday(current.at) !in cron.weekdays {
        current.SkipDay();
        ExcludedDayIsQuiet(cron, t);
        JumpKeepsResult(cron, t, current.at, limit);
        return false;
      }
    } else if restrictDays {
      if current.at.day !in cron.days {
        current.SkipDay();
        ExcludedDayIsQuiet(cron, t);
        JumpKeepsResult(cron, t, current.at, limit);
        return false;
      }
    } else if restrictWeekdays {
      if Weekday(current.at) !in cron.weekdays {
        current.SkipDay();
        ExcludedDayIsQuiet(cron, t);
        JumpKeepsResult(cron, t, current.at, limit);
        return false;
      }
    }

    if restrictHours && current.at.hour !in cron.hours {
      current.SkipHour();
      ExcludedHourIsQuiet(cron, t);
      JumpKeepsResult(cron, t, current.at, limit);
      return false;
    }

    if restrictMinutes && current.at.minute !in cron.minutes {
      current.SetMinutes(current.at.minute + 1);
      ExcludedMinuteIsQuiet(cron, t);
      JumpKeepsResult(cron, t, current.at, limit);
      return false;
    }

    return true;
  }

  // `next` computes what the minute-by-minute scan finds from where the search starts.
  method Next(cron: Cron, now: Date) returns (r: Option<Date>)
    requires now.IsDate()
    ensures match NextRun(cron, now.at)
      case None => r == None
      case Some(t) =>
        r.Some? && fresh(r.value) && r.value.at == t && r.value.second == r.value.millisecond == 0
  {
    hide Roll, YearStart, DaysBefore, MonthStart, DayNumber, Minutes, Quiet, Scan, SearchStart, Match;
    var current := new Date(now.at, now.second, now.millisecond);
    current.SetMinutes(current.at.minute + 1);
    current.second := 0;
    current.millisecond := 0;

    // Only search 8 years ahead.
    var horizon := new Date(current.at, current.second, current.millisecond);
    horizon.SetFullYear(current.at.year + 8);
    var limit := horizon.GetTime();
    ghost var last := Limit(current.at);
    while current.GetTime() <= limit
      invariant current.IsDate() && fresh(current) && current.second == current.millisecond == 0
      invariant limit == last * 60000
      invariant NextRun(cron, now.at) == Scan(cron, SearchStart(cron, current.at), last)
      decreases last - Minutes(current.at)
    {
      SearchEnds(cron, current.at, last);
      var found := Pass(cron, current, last);
      if found {
        return Some(current);
      }
    }
    SearchEnds(cron, current.at, last);
    return None;
  }
}
