/** When a job runs next and whether it is due: `calculate_next_run`,
    `should_run_job` and the `next_run` refresh the scheduler loop performs
    before asking. */
module Schedule {
  import opened Wrappers
  import opened Text
  import opened Clock

  /** The schedule names the two functions act on; every other name (the job
      default `"Daily"`, the weekly and monthly choices of the job dialog) falls
      into `Unscheduled`. */
  datatype Kind = EveryMinutes | EveryHours | DailyAt | Unscheduled

  function KindOf(name: string): (k: Kind)
    ensures k == EveryMinutes <==> name == "Every X minutes"
    ensures k == EveryHours <==> name == "Every X hours"
    ensures k == DailyAt <==> name == "Daily at specific time"
  {
    if name == "Every X minutes" then EveryMinutes
    else if name == "Every X hours" then EveryHours
    else if name == "Daily at specific time" then DailyAt
    else Unscheduled
  }

  /** Seconds in one unit of an interval schedule. */
  function UnitSeconds(k: Kind): int
    requires k == EveryMinutes || k == EveryHours
  {
    if k == EveryMinutes then 60 else 3600
  }

  /** Python truthiness of an optional text column: `None` and `""` are false. */
  predicate Truthy(o: Option<string>) {
    o.Some? && o.value != ""
  }

  /** The stamp held by a truthy column, when it reads as a time. */
  function StampOf(o: Option<string>): Option<int>
    requires Truthy(o)
  {
    ParseStamp(o.value)
  }

  /** Today at `clock`, or tomorrow at `clock` when today's is not after `now`. */
  function NextDaily(now: int, clock: int): int {
    var today := Day(now) * SecondsPerDay + clock;
    if today <= now then today + SecondsPerDay else today
  }

  /** `calculate_next_run` as a time: `None` where it stores `None` (a value
      `int` or `strptime` refuses, a result `datetime` cannot hold, or a name it
      does not handle). */
  function NextRun(name: string, value: string, now: int): (r: Option<int>)
    requires InRange(now)
    ensures r.Some? ==> InRange(r.value)
    ensures KindOf(name) == Unscheduled ==> r == None
  {
    match KindOf(name)
    case EveryMinutes | EveryHours =>
      (match ParseInt(value)
       case Some(v) =>
         var next := now + v * UnitSeconds(KindOf(name));
         if InRange(next) then Some(next) else None
       case None => None)
    case DailyAt =>
      (match ParseClock(value)
       case Some(clock) =>
         var next := NextDaily(now, clock);
         if InRange(next) then Some(next) else None
       case None => None)
    case Unscheduled => None
  }

  /** The text `calculate_next_run` assigns to `job.next_run`. */
  function NextRunText(name: string, value: string, now: int): (r: Option<string>)
    requires InRange(now)
    ensures r.Some? ==> NextRun(name, value, now).Some? && ParseStamp(r.value) == NextRun(name, value, now)
    ensures r.None? ==> NextRun(name, value, now).None?
  {
    match NextRun(name, value, now)
    case Some(t) => ParseFormatStamp(t); Some(FormatStamp(t))
    case None => None
  }

  /** An interval schedule moves `next_run` exactly `v` units past `now`. */
  lemma NextRunInterval(name: string, value: string, now: int, v: int)
    requires InRange(now) && (KindOf(name) == EveryMinutes || KindOf(name) == EveryHours)
    requires ParseInt(value) == Some(v)
    ensures var next := now + v * UnitSeconds(KindOf(name));
      NextRun(name, value, now) == if InRange(next) then Some(next) else None
  {
  }

  /** A daily schedule moves `next_run` to the first instant after `now` at that
      time of day: strictly later, at most one day later, at the right clock time,
      and no such instant lies between. */
  lemma NextRunDaily(name: string, value: string, now: int, clock: int)
    requires InRange(now) && KindOf(name) == DailyAt && ParseClock(value) == Some(clock)
    ensures NextRun(name, value, now).Some? ==>
      var next := NextRun(name, value, now).value;
      && now < next <= now + SecondsPerDay
      && TimeOfDay(next) == clock
      && forall x :: now < x && TimeOfDay(x) == clock ==> next <= x
    ensures NextRun(name, value, now).None? <==> !InRange(NextDaily(now, clock))
  {
    var next := NextDaily(now, clock);
    var today := Day(now) * SecondsPerDay + clock;
    DayTimeOfDay(now);
    assert TimeOfDay(today) == clock && TimeOfDay(today + SecondsPerDay) == clock by {
      SplitSeconds(Day(now), clock);
      SplitSeconds(Day(now) + 1, clock);
    }
    forall x | now < x && TimeOfDay(x) == clock
      ensures next <= x
    {
      DayTimeOfDay(x);
      if Day(x) <= Day(now) {
        assert x == Day(x) * SecondsPerDay + clock;
        assert Day(x) == Day(now);
      }
    }
  }

  /** Every other name gets `next_run = None`. */
  lemma NextRunUnscheduled(name: string, value: string, now: int)
    requires InRange(now) && KindOf(name) == Unscheduled
    ensures NextRunText(name, value, now) == None
  {
  }

  // ---------------------------------------------------------------- the due check

  /** The closing `next_run <= now` test; a truthy stamp that does not parse
      raises, and the exception makes the whole check `False`. */
  predicate NextRunPassed(nextRun: Option<string>, now: int) {
    Truthy(nextRun) && StampOf(nextRun).Some? && StampOf(nextRun).value <= now
  }

  /** `should_run_job(job)` at time `now`. */
  predicate ShouldRun(name: string, value: string, lastRun: Option<string>, nextRun: Option<string>, now: int) {
    match KindOf(name)
    case DailyAt =>
      (match ParseClock(value)
       case Some(clock) =>
         if TimeOfDay(now) >= clock then
           !Truthy(lastRun) || (StampOf(lastRun).Some? && Day(StampOf(lastRun).value) < Day(now))
         else NextRunPassed(nextRun, now)
       case None => false)
    case EveryMinutes | EveryHours =>
      (match ParseInt(value)
       case Some(v) =>
         if !Truthy(lastRun) then true
         else if StampOf(lastRun).None? then false
         else now - StampOf(lastRun).value >= v * UnitSeconds(KindOf(name)) || NextRunPassed(nextRun, now)
       case None => false)
    case Unscheduled => false
  }

  /** Other names and values that do not parse are never due. */
  lemma NeverDueWithoutSchedule(name: string, value: string, lastRun: Option<string>, nextRun: Option<string>, now: int)
    requires || KindOf(name) == Unscheduled
             || (KindOf(name) == DailyAt && ParseClock(value).None?)
             || ((KindOf(name) == EveryMinutes || KindOf(name) == EveryHours) && ParseInt(value).None?)
    ensures !ShouldRun(name, value, lastRun, nextRun, now)
  {
  }

  /** After a run at `t` an interval job is due again exactly once `v` units
      have passed: the elapsed-time test and the stored `next_run` agree. */
  lemma IntervalDueAfterRun(name: string, value: string, v: int, t: int, now: int)
    requires (KindOf(name) == EveryMinutes || KindOf(name) == EveryHours) && ParseInt(value) == Some(v)
    requires InRange(t) && InRange(now)
    ensures ShouldRun(name, value, Some(FormatStamp(t)), NextRunText(name, value, t), now)
            <==> now >= t + v * UnitSeconds(KindOf(name))
  {
    ParseFormatStamp(t);
  }

  /** A time between two times of one day lies on that day, no later in it
      than the second. */
  lemma SameDayBefore(t: int, x: int, now: int)
    requires t <= x <= now && Day(t) == Day(now)
    ensures TimeOfDay(x) <= TimeOfDay(now)
  {
    DayTimeOfDay(t);
    DayTimeOfDay(x);
    DayTimeOfDay(now);
  }

  /** The daily branch of the due check, with the clock value parsed. */
  lemma ShouldRunDaily(name: string, value: string, clock: int, lastRun: Option<string>, nextRun: Option<string>, now: int)
    requires KindOf(name) == DailyAt && ParseClock(value) == Some(clock)
    ensures ShouldRun(name, value, lastRun, nextRun, now) ==
      if TimeOfDay(now) >= clock then !Truthy(lastRun) || (StampOf(lastRun).Some? && Day(StampOf(lastRun).value) < Day(now))
      else NextRunPassed(nextRun, now)
  {
  }

  /** After a run at `t` a daily job is not due again on the same day: the
      clock time has not come yet, and the next run computed at `t` falls after
      `now`. */
  lemma DailyOncePerDay(name: string, value: string, t: int, now: int)
    requires KindOf(name) == DailyAt && ParseClock(value).Some?
    requires InRange(t) && InRange(now) && Day(now) == Day(t)
    ensures !ShouldRun(name, value, Some(FormatStamp(t)), NextRunText(name, value, t), now)
  {
    var clock := ParseClock(value).value;
    var last := Some(FormatStamp(t));
    var nr := NextRunText(name, value, t);
    ShouldRunDaily(name, value, clock, last, nr, now);
    ParseFormatStamp(t);
    assert Truthy(last) && StampOf(last) == Some(t);
    if TimeOfDay(now) < clock && NextRunPassed(nr, now) {
      NextRunDaily(name, value, t, clock);
      SameDayBefore(t, NextRun(name, value, t).value, now);
    }
  }

  /** After a run at `t` a daily job is due on any later day once its time has come. */
  lemma DailyDueNextDay(name: string, value: string, t: int, now: int)
    requires KindOf(name) == DailyAt && ParseClock(value).Some?
    requires InRange(t) && InRange(now) && Day(now) > Day(t) && TimeOfDay(now) >= ParseClock(value).value
    ensures ShouldRun(name, value, Some(FormatStamp(t)), NextRunText(name, value, t), now)
  {
    ParseFormatStamp(t);
  }

  // ---------------------------------------------------------------- the scheduler pass

  /** The loop's refresh test: a truthy `next_run` that does not parse, or has passed. */
  predicate NeedsRefresh(nextRun: Option<string>, now: int) {
    Truthy(nextRun) && (StampOf(nextRun).None? || StampOf(nextRun).value <= now)
  }

  /** A schedule whose next run always lies ahead: daily at a valid time of
      day, or every positive number of minutes or hours. */
  predicate Recurring(name: string, value: string) {
    || (KindOf(name) == DailyAt && ParseClock(value).Some?)
    || ((KindOf(name) == EveryMinutes || KindOf(name) == EveryHours)
        && ParseInt(value).Some? && ParseInt(value).value > 0)
  }

  /** For a recurring schedule the `next_run` computed at `now` is not at or
      before `now`. */
  lemma NextRunNotPassed(name: string, value: string, now: int)
    requires InRange(now) && Recurring(name, value)
    ensures !NextRunPassed(NextRunText(name, value, now), now)
  {
    if NextRun(name, value, now).Some? && KindOf(name) == DailyAt {
      NextRunDaily(name, value, now, ParseClock(value).value);
    }
  }

  /** `next_run` as the due check sees it, after the loop's refresh: a
      passed or unparsable one is replaced by the next run computed from
      `now`, which for a recurring schedule has not passed. */
  function Refreshed(name: string, value: string, nextRun: Option<string>, now: int): (r: Option<string>)
    requires InRange(now)
    ensures !NeedsRefresh(nextRun, now) ==> r == nextRun
    ensures NeedsRefresh(nextRun, now) ==>
      if r.Some? then ParseStamp(r.value) == NextRun(name, value, now) else NextRun(name, value, now).None?
    ensures Recurring(name, value) ==> !NextRunPassed(r, now)
  {
    if !NeedsRefresh(nextRun, now) then nextRun
    else if !Recurring(name, value) then NextRunText(name, value, now)
    else NextRunNotPassed(name, value, now); NextRunText(name, value, now)
  }

  /** With a positive interval the refreshed `next_run` never makes a job due
      by itself: the pass runs an interval job iff it never ran or the interval
      has elapsed since its last run. */
  lemma PassIntervalDue(name: string, value: string, v: int, lastRun: Option<string>, nextRun: Option<string>, now: int)
    requires (KindOf(name) == EveryMinutes || KindOf(name) == EveryHours) && ParseInt(value) == Some(v) && v > 0
    requires InRange(now)
    ensures ShouldRun(name, value, lastRun, Refreshed(name, value, nextRun, now), now) <==>
      || !Truthy(lastRun)
      || (StampOf(lastRun).Some? && now - StampOf(lastRun).value >= v * UnitSeconds(KindOf(name)))
  {
  }

  /** The pass runs a daily job iff its time of day has come and it has not
      run yet today; the refreshed `next_run` never makes it due earlier. */
  lemma PassDailyDue(name: string, value: string, clock: int, lastRun: Option<string>, nextRun: Option<string>, now: int)
    requires KindOf(name) == DailyAt && ParseClock(value) == Some(clock) && InRange(now)
    ensures ShouldRun(name, value, lastRun, Refreshed(name, value, nextRun, now), now) <==>
      && TimeOfDay(now) >= clock
      && (!Truthy(lastRun) || (StampOf(lastRun).Some? && Day(StampOf(lastRun).value) < Day(now)))
  {
  }
}
