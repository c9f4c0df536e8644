/** The generator `sequence`: each run is searched for from the one before it. */
module CronSequence {
  import opened Options
  import opened Calendar
  import opened Cron
  import opened CronNext
  import opened CronRuns

  // The first count values yielded, fewer when `next` throws.
  function Runs(cron: Cron, now: DateTime, count: nat): seq<DateTime>
    requires Valid(now)
    decreases count
  {
    if count == 0 then []
    else match NextRun(cron, now)
    case None => []
    case Some(t) => [t] + Runs(cron, t, count - 1)
  }

  method Sequence(cron: Cron, now: Date, count: nat) returns (runs: seq<DateTime>)
    requires now.IsDate()
    ensures runs == Runs(cron, now.at, count)
  {
    hide NextRun, Match, Minutes;
    runs := [];
    var current := now;
    while |runs| < count
      invariant current.IsDate() && |runs| <= count
      invariant Runs(cron, now.at, count) == runs + Runs(cron, current.at, count - |runs|)
    {
      var r := Next(cron, current);
      if r == None {
        return;
      }
      current := r.value;
      ghost var before := runs;
      runs := runs + [current.at];
      assert before + ([current.at] + Runs(cron, current.at, count - |runs|)) ==
        runs + Runs(cron, current.at, count - |runs|);
    }
  }

  // The first value is what `next` finds; if that jumps over nothing, it is the least run.
  lemma SequenceStarts(cron: Cron, now: DateTime, count: nat)
    requires Valid(now) && count > 0
    ensures var runs := Runs(cron, now, count);
      && (runs == [] <==> NextRun(cron, now) == None)
      && (runs != [] ==> Some(runs[0]) == NextRun(cron, now))
      && |runs| <= count
      && (IsLeastRun(cron, now, if runs == [] then None else Some(runs[0])) <==> !SkipsARun(cron, First(now)))
  {
    RunsBounded(cron, now, count);
    NextIsLeast(cron, now);
  }

  lemma {:induction false} RunsBounded(cron: Cron, now: DateTime, count: nat)
    requires Valid(now)
    ensures |Runs(cron, now, count)| <= count
    decreases count
  {
    hide NextRun, Match, Minutes;
    if count > 0 && NextRun(cron, now).Some? {
      RunsBounded(cron, NextRun(cron, now).value, count - 1);
    }
  }

  // Right after a run the search is never misled: it restarts in an allowed month or on a first.
  lemma AfterARun(cron: Cron, t: DateTime)
    requires Valid(t) && Match(cron, t)
    ensures IsLeastRun(cron, t, NextRun(cron, t)) && NextRun(cron, t).Some?
  {
    FirstFollowsClosely(t);
    NextDayIsEarly(t, First(t));
    NextIsLeastFromEarlyDays(cron, t);
    MatchMakesSatisfiable(cron, t);
    NextIsLeast(cron, t);
    HorizonSuffices(cron, t);
  }

  lemma FirstFollowsClosely(t: DateTime)
    requires Valid(t)
    ensures Minutes(t) < Minutes(First(t)) <= (DayNumber(t) + 1) * 1440
  {
  }

  // Once it has yielded a run the generator never throws again.
  lemma {:induction false} NeverThrowsAfterFirst(cron: Cron, now: DateTime, count: nat)
    requires Valid(now)
    ensures var runs := Runs(cron, now, count);
      && (runs == [] || |runs| == count)
      && forall i :: 0 <= i < |runs| ==> Valid(runs[i]) && Match(cron, runs[i])
    decreases count
  {
    hide NextRun, Match, Minutes, IsLeastRun;
    if count > 0 {
      match NextRun(cron, now) {
        case None =>
        case Some(t) =>
          NeverThrowsAfterFirst(cron, t, count - 1);
          if count > 1 {
            AfterARun(cron, t);
          }
      }
    }
  }

  // From its first run on, the generator lists the matching minutes in increasing order and
  // leaves none out, wherever it was started.
  lemma {:induction false} SequenceListsEveryRun(cron: Cron, now: DateTime, count: nat, u: DateTime)
    requires Valid(now) && Valid(u)
    ensures var runs := Runs(cron, now, count);
      && (forall i :: 0 <= i < |runs| ==> Valid(runs[i]) && Match(cron, runs[i]))
      && (forall i :: 0 < i < |runs| ==> Minutes(runs[i - 1]) < Minutes(runs[i]))
      && (runs != [] && Minutes(runs[0]) <= Minutes(u) <= Minutes(runs[|runs| - 1])
          ==> (Match(cron, u) <==> u in runs))
    decreases count
  {
    hide NextRun, Match, Minutes, First, Limit;
    NeverThrowsAfterFirst(cron, now, count);
    var runs := Runs(cron, now, count);
    if runs != [] {
      var t := runs[0];
      var rest := Runs(cron, t, count - 1);
      assert runs == [t] + rest;
      SequenceListsEveryRun(cron, t, count - 1, u);
      if rest != [] {
        AfterARun(cron, t);
        assert NextRun(cron, t) == Some(rest[0]);
      }
      forall i | 0 < i < |runs|
        ensures Minutes(runs[i - 1]) < Minutes(runs[i])
      {
        if i > 1 {
          assert rest[i - 2] == runs[i - 1] && rest[i - 1] == runs[i];
        }
      }
      if Minutes(u) == Minutes(t) {
        MinutesInjective(t, u);
      }
      assert u in runs <==> u == t || u in rest;
    }
  }

  // Unless the start jumps over a run, that holds from the start on.
  lemma SequenceListsEveryRunFromStart(cron: Cron, now: DateTime, count: nat, u: DateTime)
    requires Valid(now) && Valid(u) && !SkipsARun(cron, First(now))
    ensures var runs := Runs(cron, now, count);
      && (forall i :: 0 <= i < |runs| ==> Valid(runs[i]))
      && (runs != [] && Minutes(now) < Minutes(u) <= Minutes(runs[|runs| - 1]) ==> (Match(cron, u) <==> u in runs))
  {
    hide NextRun, Match, Minutes, First, Limit, SkipsARun, IsLeastRun;
    var runs := Runs(cron, now, count);
    SequenceListsEveryRun(cron, now, count, u);
    if runs != [] && Minutes(now) < Minutes(u) < Minutes(runs[0]) {
      SequenceStarts(cron, now, count);
      QuietBefore(cron, now, runs[0], u);
      NotListedBefore(runs, u);
    }
  }

  lemma QuietBefore(cron: Cron, now: DateTime, t: DateTime, u: DateTime)
    requires Valid(now) && IsLeastRun(cron, now, Some(t))
    requires Valid(t) && Valid(u) && Minutes(now) < Minutes(u) < Minutes(t)
    ensures !Match(cron, u)
  {
  }

  lemma {:induction false} NotListedBefore(runs: seq<DateTime>, u: DateTime)
    requires forall i :: 0 <= i < |runs| ==> Valid(runs[i]) && 0 <= runs[i].month < 12
    requires Valid(u)
    requires forall i :: 0 < i < |runs| ==> Minutes(runs[i - 1]) < Minutes(runs[i])
    requires runs != [] ==> Minutes(u) < Minutes(runs[0])
    ensures u !in runs
  {
    if runs != [] {
      var rest := runs[1..];
      assert forall i :: 0 <= i < |rest| ==> rest[i] == runs[i + 1];
      assert |runs| > 1 ==> rest[0] == runs[1] && Minutes(runs[0]) < Minutes(runs[1]);
      NotListedBefore(rest, u);
      assert runs == [runs[0]] + rest;
    }
  }
}
