/** Timer deadlines and the scheduler loop that fires them. */
module Timers {
  import opened Wrappers
  import opened UnitNames
  import opened Civil
  import opened Schedule

  /** What the deadline computation reads of a `[Timer]` section; durations in seconds. */
  datatype TimerUnit = TimerUnit(onCalendar: seq<CalendarSpec>, persistent: bool,
                                 onActiveSec: Option<nat>, onStartupSec: Option<nat>, onBootSec: Option<nat>,
                                 onUnitActiveSec: Option<nat>, onUnitInactiveSec: Option<nat>)

  /** The instants a deadline is computed from. */
  datatype Moments = Moments(now: int, managerStart: int, activatedAt: Option<int>, lastUnitActive: Option<int>,
                             lastUnitInactive: Option<int>, lastFire: Option<int>)

  ghost predicate Usable(m: Moments, timer: TimerUnit) {
    && InRange(m.now) && InRange(m.now - LOOKBACK) && InRange(Baseline(m.now, m.lastFire))
    && forall i :: 0 <= i < |timer.onCalendar| ==> timer.onCalendar[i].Valid()
  }

  /** Catch-up is measured from the last fire or, before any, from the manager's start. */
  function Anchor(m: Moments): int {
    if m.lastFire.Some? then m.lastFire.value else m.managerStart
  }

  /** The calendar's latest known past instant lies after the anchor. */
  ghost predicate Missed(m: Moments, spec: CalendarSpec) {
    LastFire(spec, m.now).Some? && LastFire(spec, m.now).value > Anchor(m)
  }

  ghost predicate CatchesUp(m: Moments, timer: TimerUnit) {
    timer.persistent && exists i :: 0 <= i < |timer.onCalendar| && Missed(m, timer.onCalendar[i])
  }

  ghost function NextOf(m: Moments, spec: CalendarSpec): Option<int> {
    FirstFire(spec, Baseline(m.now, m.lastFire) + 1, Baseline(m.now, m.lastFire) + HORIZON)
  }

  /** A relative trigger: a duration after a known instant, if that is still to come. */
  predicate Elapses(base: Option<int>, d: Option<nat>, now: int, t: int) {
    base.Some? && d.Some? && t == base.value + d.value && t > now
  }

  ghost predicate CalendarCandidate(m: Moments, timer: TimerUnit, t: int) {
    exists i :: 0 <= i < |timer.onCalendar| && NextOf(m, timer.onCalendar[i]) == Some(t)
  }

  predicate RelativeCandidate(m: Moments, timer: TimerUnit, t: int) {
    || Elapses(m.activatedAt, timer.onActiveSec, m.now, t)
    || Elapses(Some(m.managerStart), timer.onStartupSec, m.now, t)
    || Elapses(Some(m.managerStart), timer.onBootSec, m.now, t)
    || Elapses(m.lastUnitActive, timer.onUnitActiveSec, m.now, t)
    || Elapses(m.lastUnitInactive, timer.onUnitInactiveSec, m.now, t)
  }

  /** Every instant the timer has a reason to fire at next. */
  ghost predicate Candidate(m: Moments, timer: TimerUnit, t: int) {
    (CatchesUp(m, timer) && t == m.now) || CalendarCandidate(m, timer, t) || RelativeCandidate(m, timer, t)
  }

  ghost predicate IsDeadline(m: Moments, timer: TimerUnit, r: Option<int>) {
    match r
    case None => forall t :: !Candidate(m, timer, t)
    case Some(d) => Candidate(m, timer, d) && forall t :: Candidate(m, timer, t) ==> d <= t
  }

  function MinT(a: Option<int>, b: int): int {
    match a
    case None => b
    case Some(x) => if x < b then x else b
  }

  /** The earliest candidate: catch-up, calendar, or relative. */
  method NextOverall(m: Moments, timer: TimerUnit) returns (best: Option<int>)
    requires Usable(m, timer)
    ensures IsDeadline(m, timer, best)
  {
    hide NextOf, CatchesUp, RelativeCandidate, Usable;
    best := CalendarBest(m, timer);
    best := RelativeBest(m, timer, best);
  }

  /** The catch-up and calendar part of the computation. */
  method CalendarBest(m: Moments, timer: TimerUnit) returns (best: Option<int>)
    requires Usable(m, timer)
    ensures best.Some? ==> (CatchesUp(m, timer) && best.value == m.now) || CalendarCandidate(m, timer, best.value)
    ensures CatchesUp(m, timer) ==> best.Some? && best.value <= m.now
    ensures forall t :: CalendarCandidate(m, timer, t) ==> best.Some? && best.value <= t
  {
    hide FirstFire, CalendarSpec.Valid, CatchesUp;
    var caught := CatchUp(m, timer);
    best := if caught then Some(MinT(None, m.now)) else None;
    for i := 0 to |timer.onCalendar|
      invariant best.Some? ==> (CatchesUp(m, timer) && best.value == m.now) || CalendarCandidate(m, timer, best.value)
      invariant CatchesUp(m, timer) ==> best.Some? && best.value <= m.now
      invariant forall j :: 0 <= j < i && NextOf(m, timer.onCalendar[j]).Some? ==>
        best.Some? && best.value <= NextOf(m, timer.onCalendar[j]).value
    {
      var t := NextFire(m.now, timer.onCalendar[i], m.lastFire);
      assert t == NextOf(m, timer.onCalendar[i]);
      if t.Some? {
        assert CalendarCandidate(m, timer, t.value);
        best := Some(MinT(best, t.value));
      }
    }
  }

  /** The five relative triggers in turn. */
  method RelativeBest(m: Moments, timer: TimerUnit, calendar: Option<int>) returns (best: Option<int>)
    ensures best.Some? ==> best == calendar || RelativeCandidate(m, timer, best.value)
    ensures calendar.Some? ==> best.Some? && best.value <= calendar.value
    ensures forall t :: RelativeCandidate(m, timer, t) ==> best.Some? && best.value <= t
  {
    hide Elapses;
    best := Relative(calendar, m.activatedAt, timer.onActiveSec, m.now);
    best := Relative(best, Some(m.managerStart), timer.onStartupSec, m.now);
    best := Relative(best, Some(m.managerStart), timer.onBootSec, m.now);
    best := Relative(best, m.lastUnitActive, timer.onUnitActiveSec, m.now);
    best := Relative(best, m.lastUnitInactive, timer.onUnitInactiveSec, m.now);
  }

  /** The persistent catch-up loop: stops at the first calendar that missed something. */
  method CatchUp(m: Moments, timer: TimerUnit) returns (caught: bool)
    requires Usable(m, timer)
    ensures caught <==> CatchesUp(m, timer)
  {
    hide LastFire, CalendarSpec.Valid;
    if timer.persistent {
      for i := 0 to |timer.onCalendar|
        invariant forall j :: 0 <= j < i ==> !Missed(m, timer.onCalendar[j])
      {
        var prev := PrevFire(m.now, timer.onCalendar[i]);
        if prev.Some? && prev.value > Anchor(m) {
          return true;
        }
      }
    }
    return false;
  }

  /** One relative trigger: keeps the earlier of the best so far and the trigger. */
  method Relative(best: Option<int>, base: Option<int>, d: Option<nat>, now: int) returns (r: Option<int>)
    ensures r.Some? ==> r == best || Elapses(base, d, now, r.value)
    ensures best.Some? ==> r.Some? && r.value <= best.value
    ensures forall t :: Elapses(base, d, now, t) ==> r.Some? && r.value <= t
  {
    r := best;
    if d.Some? && base.Some? {
      var t := base.value + d.value;
      if t > now {
        assert Elapses(base, d, now, t);
        r := Some(MinT(best, t));
      }
    }
  }

  // ----- deadlines -----

  /** A calendar candidate lies after both `now` and the last fire. */
  lemma NextIsLater(m: Moments, spec: CalendarSpec)
    ensures NextOf(m, spec).Some? ==>
      NextOf(m, spec).value > m.now && (m.lastFire.Some? ==> NextOf(m, spec).value > m.lastFire.value)
  {
    FirstFireMeans(spec, Baseline(m.now, m.lastFire) + 1, Baseline(m.now, m.lastFire) + HORIZON, NextOf(m, spec));
    hide FirstFire, CalendarSpec.Fires;
  }

  /** A deadline is never in the past, and is `now` exactly when the timer catches up. */
  lemma NowMeansCatchUp(m: Moments, timer: TimerUnit, r: Option<int>)
    requires IsDeadline(m, timer, r)
    ensures r.Some? ==> r.value >= m.now
    ensures r == Some(m.now) <==> CatchesUp(m, timer)
  {
    hide FirstFire, LastFire;
    forall t | CalendarCandidate(m, timer, t) ensures t > m.now {
      var i :| 0 <= i < |timer.onCalendar| && NextOf(m, timer.onCalendar[i]) == Some(t);
      NextIsLater(m, timer.onCalendar[i]);
    }
    assert CatchesUp(m, timer) ==> Candidate(m, timer, m.now);
  }

  /** The window behind each calendar holds few enough instants to be walked in full. */
  ghost predicate Walkable(m: Moments, timer: TimerUnit) {
    forall i :: 0 <= i < |timer.onCalendar| ==>
      |FiringTimes(timer.onCalendar[i], m.now - LOOKBACK, m.now)| <= PREV_FIRE_CAP
  }

  /** Some calendar instant fell after the anchor, within the last 366 days. */
  ghost predicate InstantPassed(m: Moments, timer: TimerUnit) {
    exists i, t :: 0 <= i < |timer.onCalendar| && Anchor(m) < t <= m.now && m.now - LOOKBACK < t
      && timer.onCalendar[i].Fires(t)
  }

  /** A persistent timer is due now exactly when an instant of its passed since its last fire. */
  lemma PersistentCatchesUpExactly(m: Moments, timer: TimerUnit, r: Option<int>)
    requires IsDeadline(m, timer, r) && timer.persistent && Walkable(m, timer)
    ensures r == Some(m.now) <==> InstantPassed(m, timer)
  {
    hide CalendarSpec.Fires, LastFire, FiringTimes, IsDeadline;
    NowMeansCatchUp(m, timer, r);
    forall i | 0 <= i < |timer.onCalendar|
      ensures Missed(m, timer.onCalendar[i]) <==>
        exists t :: Anchor(m) < t <= m.now && m.now - LOOKBACK < t && timer.onCalendar[i].Fires(t)
    {
      var spec := timer.onCalendar[i];
      PrevFireIsLatestExactly(spec, m.now);
    }
  }

  /** A timer that is not persistent is never due now: an instant it slept through is lost. */
  lemma NonPersistentIsLater(m: Moments, timer: TimerUnit, r: Option<int>)
    requires IsDeadline(m, timer, r) && !timer.persistent
    ensures r.Some? ==> r.value > m.now
  {
    NowMeansCatchUp(m, timer, r);
    hide IsDeadline;
  }

  /** A duration after a known instant, if that is still to come. */
  function StillToCome(base: Option<int>, d: Option<nat>, now: int): Option<int> {
    if base.Some? && d.Some? && base.value + d.value > now then Some(base.value + d.value) else None
  }

  /** Without calendars a timer is due at the earliest of its five triggers: after it was activated, after
      the manager's start for both the startup and the boot trigger, and after its unit was last active or
      inactive. */
  lemma RelativeTriggers(m: Moments, timer: TimerUnit, r: Option<int>)
    requires timer.onCalendar == []
    ensures IsDeadline(m, timer, r) <==>
      var triggers := [StillToCome(m.activatedAt, timer.onActiveSec, m.now),
                       StillToCome(Some(m.managerStart), timer.onStartupSec, m.now),
                       StillToCome(Some(m.managerStart), timer.onBootSec, m.now),
                       StillToCome(m.lastUnitActive, timer.onUnitActiveSec, m.now),
                       StillToCome(m.lastUnitInactive, timer.onUnitInactiveSec, m.now)];
      r in triggers && forall i :: 0 <= i < |triggers| && triggers[i].Some? ==> r.Some? && r.value <= triggers[i].value
  {
    var triggers := [StillToCome(m.activatedAt, timer.onActiveSec, m.now),
                     StillToCome(Some(m.managerStart), timer.onStartupSec, m.now),
                     StillToCome(Some(m.managerStart), timer.onBootSec, m.now),
                     StillToCome(m.lastUnitActive, timer.onUnitActiveSec, m.now),
                     StillToCome(m.lastUnitInactive, timer.onUnitInactiveSec, m.now)];
    forall t ensures Candidate(m, timer, t) <==> Some(t) in triggers {
      assert triggers[0] in triggers && triggers[1] in triggers && triggers[2] in triggers
        && triggers[3] in triggers && triggers[4] in triggers;
    }
    hide Candidate, StillToCome;
  }

  // ----- the scheduler -----

  /** The deadline the computation settles on; it is the only one, by `DeadlineUnique`. */
  ghost function Deadline(m: Moments, timer: TimerUnit): Option<int> {
    if exists r :: IsDeadline(m, timer, r) then (var r :| IsDeadline(m, timer, r); r) else None
  }

  lemma DeadlineUnique(m: Moments, timer: TimerUnit, a: Option<int>, b: Option<int>)
    requires IsDeadline(m, timer, a) && IsDeadline(m, timer, b)
    ensures a == b
  {
    hide Candidate;
  }

  lemma DeadlineIs(m: Moments, timer: TimerUnit, r: Option<int>)
    requires IsDeadline(m, timer, r)
    ensures Deadline(m, timer) == r
  {
    DeadlineUnique(m, timer, r, Deadline(m, timer));
    hide IsDeadline;
  }

  type ActiveTimers = seq<(UnitName, TimerUnit)>

  /** How one wait of the loop ended. */
  datatype Wake =
    | Slept(started: bool, persisted: bool)  // the deadline came; did the service start, was the stamp written
    | Interrupted                            // a refresh or an event came first

  /** What the scheduler remembers: the last fires of this run, and the stamps on disk. */
  datatype Memory = Memory(managerStart: int, lastFires: map<UnitName, int>, stamps: map<UnitName, int>)
  {
    function LastOf(u: UnitName): Option<int> {
      if u in lastFires then Some(lastFires[u]) else if u in stamps then Some(stamps[u]) else None
    }

    function MomentsOf(u: UnitName, now: int): Moments {
      Moments(now, managerStart, None, None, None, LastOf(u))
    }

    /** `now` and every known last fire are in range, and every calendar is well-formed. */
    ghost predicate Ready(active: ActiveTimers, now: int) {
      forall i :: 0 <= i < |active| ==> Usable(MomentsOf(active[i].0, now), active[i].1)
    }

    /** The deadline of one active timer. */
    ghost function DeadlineOf(active: ActiveTimers, now: int, i: nat): Option<int>
      requires i < |active|
    {
      Deadline(MomentsOf(active[i].0, now), active[i].1)
    }

    /** The `n` first timers offer nothing, or `best` is the earliest deadline they offer and
        the first timer offering it. */
    ghost predicate Earliest(active: ActiveTimers, now: int, n: nat, best: Option<(int, UnitName)>)
      requires n <= |active|
    {
      match best
      case None => forall i :: 0 <= i < n ==> DeadlineOf(active, now, i) == None
      case Some((d, u)) => exists k :: 0 <= k < n && active[k].0 == u && Leads(active, now, n, k, d)
    }

    /** Timer `k` offers `d`, nobody among the first `n` offers less, and nobody before `k` as little. */
    ghost predicate Leads(active: ActiveTimers, now: int, n: nat, k: nat, d: int)
      requires k < n <= |active|
    {
      && DeadlineOf(active, now, k) == Some(d)
      && (forall i :: 0 <= i < n && DeadlineOf(active, now, i).Some? ==> d <= DeadlineOf(active, now, i).value)
      && (forall i :: 0 <= i < k && DeadlineOf(active, now, i).Some? ==> d < DeadlineOf(active, now, i).value)
    }

    lemma NothingYet(active: ActiveTimers, now: int)
      ensures Earliest(active, now, 0, None)
    {
    }

    /** Looking at one more timer. */
    lemma EarliestStep(active: ActiveTimers, now: int, n: nat, best: Option<(int, UnitName)>)
      requires n < |active| && Earliest(active, now, n, best)
      ensures var nf := DeadlineOf(active, now, n);
        Earliest(active, now, n + 1, if nf.Some? && (best.None? || nf.value < best.value.0)
          then Some((nf.value, active[n].0)) else best)
    {
      hide Memory.DeadlineOf;
      var nf := DeadlineOf(active, now, n);
      if nf.Some? && (best.None? || nf.value < best.value.0) {
        assert Leads(active, now, n + 1, n, nf.value);
      } else if best.Some? {
        var k :| 0 <= k < n && active[k].0 == best.value.1 && Leads(active, now, n, k, best.value.0);
        assert Leads(active, now, n + 1, k, best.value.0);
      }
    }
  }

  /** The recorded fires of each timer strictly increase. */
  ghost predicate FiresIncrease(fires: seq<(UnitName, int)>) {
    forall i, j :: 0 <= i < j < |fires| && fires[i].0 == fires[j].0 ==> fires[i].1 < fires[j].1
  }

  /** The scheduler between two rounds: its memory, the clock at the end of the last round, and
      every successful fire so far. */
  datatype SchedState = SchedState(memory: Memory, clock: int, fires: seq<(UnitName, int)>)
  {
    ghost predicate Valid() {
      && memory.managerStart <= clock
      && (forall u :: u in memory.lastFires ==> memory.lastFires[u] <= clock && (u, memory.lastFires[u]) in fires)
      && (forall i :: 0 <= i < |fires| ==> fires[i].0 in memory.lastFires && fires[i].1 <= memory.lastFires[fires[i].0])
      && FiresIncrease(fires)
    }

    /** The state after timer `u` was fired for instant `d`. */
    function Fired(u: UnitName, d: int, started: bool, persisted: bool): SchedState {
      if !started then this.(clock := d)
      else SchedState(memory.(lastFires := memory.lastFires[u := d],
                              stamps := if persisted then memory.stamps[u := d] else memory.stamps), d, fires
                                + [(u, d)])
    }

    /** One round at clock reading `now`: the earliest deadline is waited for, and fired if it comes. */
    ghost predicate Round(active: ActiveTimers, now: int, next: Option<(int, UnitName)>, wake: Wake,
                          after: SchedState) {
      && clock <= now && memory.Earliest(active, now, |active|, next)
      && after == if next.Some? && wake.Slept? then Fired(next.value.1, next.value.0, wake.started, wake.persisted)
         else this.(clock := now)
    }

    lemma FiredKeepsValid(u: UnitName, d: int, started: bool, persisted: bool)
      requires Valid() && clock <= d && (u in memory.lastFires ==> memory.lastFires[u] < d)
      ensures Fired(u, d, started, persisted).Valid()
    {
    }

    /** Every round keeps the invariant: fires never repeat or go back. */
    lemma RoundKeepsValid(active: ActiveTimers, now: int, next: Option<(int, UnitName)>, wake: Wake, after: SchedState)
      requires Valid() && Round(active, now, next, wake, after)
      ensures after.Valid() && fires <= after.fires && clock <= now <= after.clock
    {
      if next.Some? && wake.Slept? {
        var (d, u) := next.value;
        var k :| 0 <= k < |active| && active[k].0 == u && memory.Leads(active, now, |active|, k, d);
        DeadlineIsFresh(memory.MomentsOf(u, now), active[k].1, d);
        FiredKeepsValid(u, d, wake.started, wake.persisted);
        hide Deadline;
      }
    }
  }

  ghost predicate Follows(s: SchedState, after: SchedState) {
    exists active, now, next, wake :: s.Round(active, now, next, wake, after)
  }

  /** A run of the scheduler under a monotone clock: each state follows by some round. */
  ghost predicate IsRun(run: seq<SchedState>) {
    run != [] && forall i :: 0 < i < |run| ==> Follows(run[i - 1], run[i])
  }

  /** Over every run, the recorded fires of each timer strictly increase and none is forgotten. */
  lemma {:induction false} RunFiresIncrease(run: seq<SchedState>)
    requires IsRun(run) && run[0].Valid()
    ensures var last := run[|run| - 1]; last.Valid() && FiresIncrease(last.fires) && run[0].fires <= last.fires
  {
    hide SchedState.Round, SchedState.Valid;
    var n := |run| - 1;
    if n > 0 {
      assert forall i :: 0 < i < n ==> Follows(run[..n][i - 1], run[..n][i]);
      RunFiresIncrease(run[..n]);
      assert Follows(run[n - 1], run[n]);
      var active, now, next, wake :| run[n - 1].Round(active, now, next, wake, run[n]);
      run[n - 1].RoundKeepsValid(active, now, next, wake, run[n]);
    }
    ValidMeansIncrease(run[n]);
  }

  lemma ValidMeansIncrease(s: SchedState)
    requires s.Valid()
    ensures FiresIncrease(s.fires)
  {
  }

  class TimerScheduler {
    const managerStart: int
    var lastFires: map<UnitName, int>
    var stamps: map<UnitName, int>
    ghost var clock: int
    ghost var fires: seq<(UnitName, int)>

    ghost function Remembered(): Memory
      reads this
    {
      Memory(managerStart, lastFires, stamps)
    }

    ghost function State(): SchedState
      reads this
    {
      SchedState(Remembered(), clock, fires)
    }

    constructor (start: int, stamps: map<UnitName, int>)
      ensures State() == SchedState(Memory(start, map[], stamps), start, []) && State().Valid()
    {
      managerStart, lastFires, this.stamps := start, map[], stamps;
      clock, fires := start, [];
    }

    method ComputeNext(active: ActiveTimers, now: int) returns (best: Option<(int, UnitName)>)
      requires Remembered().Ready(active, now)
      ensures Remembered().Earliest(active, now, |active|, best)
    {
      hide IsDeadline, Usable, Memory.Earliest;
      best := None;
      assert Remembered().Earliest(active, now, 0, None) by { Remembered().NothingYet(active, now); }
      for i := 0 to |active|
        invariant Remembered().Earliest(active, now, i, best)
      {
        var (name, timer) := active[i];
        var lastFire := if name in lastFires then Some(lastFires[name]) else if name in stamps then Some(stamps[name])
          else None;
        var nf := NextOverall(Moments(now, managerStart, None, None, None, lastFire), timer);
        DeadlineIs(Remembered().MomentsOf(name, now), timer, nf);
        Remembered().EarliestStep(active, now, i, best);
        if nf.Some? {
          match best {
            case None => best := Some((nf.value, name));
            case Some((t, _)) =>
              if nf.value < t {
                best := Some((nf.value, name));
              }
          }
        }
      }
    }

    /** Records a fire, if the linked service started. */
    method Fire(timer: UnitName, fireTime: int, started: bool, persisted: bool)
      modifies this
      ensures State() == old(State()).Fired(timer, fireTime, started, persisted)
    {
      clock := fireTime;
      if started {
        lastFires := lastFires[timer := fireTime];
        if persisted {
          stamps := stamps[timer := fireTime];
        }
        fires := fires + [(timer, fireTime)];
      }
    }

    /** One round of the loop at clock reading `now`: compute, wait, and perhaps fire. */
    method Iterate(active: ActiveTimers, now: int, wake: Wake) returns (next: Option<(int, UnitName)>)
      requires State().Valid() && Remembered().Ready(active, now) && clock <= now
      modifies this
      ensures old(State()).Round(active, now, next, wake, State())
      ensures State().Valid()
    {
      ghost var before := State();
      next := ComputeNext(active, now);
      if next.Some? && wake.Slept? {
        var (d, u) := next.value;
        Fire(u, d, wake.started, wake.persisted);
      } else {
        clock := now;
      }
      before.RoundKeepsValid(active, now, next, wake, State());
    }
  }

  /** A deadline lies at or after `now`, and strictly after every last fire that is not in the future. */
  lemma DeadlineIsFresh(m: Moments, timer: TimerUnit, d: int)
    requires Deadline(m, timer) == Some(d)
    ensures d >= m.now && (m.lastFire.Some? && m.lastFire.value <= m.now ==> m.lastFire.value < d)
  {
    NowMeansCatchUp(m, timer, Some(d));
    if d == m.now {
      var i :| 0 <= i < |timer.onCalendar| && Missed(m, timer.onCalendar[i]);
      PrevFireIsLatestExactly(timer.onCalendar[i], m.now);
    }
  }
}
