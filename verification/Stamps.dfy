/** What the stamps on disk do: catching up over restarts of the scheduler. */
module Stamps {
  import opened Wrappers
  import opened UnitNames
  import opened Schedule
  import opened Timers
  import opened TimerRuns

  /** Some calendar of the timer has an instant in `(since, now]`, at most 366 days back. */
  ghost predicate DueSince(timer: TimerUnit, since: int, now: int) {
    exists i, t :: 0 <= i < |timer.onCalendar| && since < t <= now && now - 31_622_400 < t
      && timer.onCalendar[i].Fires(t)
  }

  /** The lookback window of each calendar holds at most 200,000 instants. */
  ghost predicate WithinCap(timer: TimerUnit, now: int) {
    forall i :: 0 <= i < |timer.onCalendar| ==>
      |FiringTimes(timer.onCalendar[i], now - 31_622_400, now)| <= 200_000
  }

  /** A scheduler that has just started over the given stamps. */
  function Fresh(start: int, stamps: map<UnitName, int>): SchedState {
    SchedState(Memory(start, map[], stamps), start, [])
  }

  ghost predicate NeverFired(s: SchedState, u: UnitName) {
    forall i :: 0 <= i < |s.fires| ==> s.fires[i].0 != u
  }

  // ----- what a round leaves alone -----

  /** A round in which `u` does not fire leaves its stamp, and its last fire, as they were. */
  lemma RoundKeepsStamp(s: SchedState, after: SchedState, u: UnitName)
    requires Follows(s, after) && forall i :: |s.fires| <= i < |after.fires| ==> after.fires[i].0 != u
    ensures s.fires <= after.fires && after.memory.managerStart == s.memory.managerStart
    ensures u in after.memory.stamps <==> u in s.memory.stamps
    ensures u in s.memory.stamps ==> after.memory.stamps[u] == s.memory.stamps[u]
  {
    hide Memory.Earliest;
    var active, now, next, wake :| s.Round(active, now, next, wake, after);
    if next.Some? && wake.Slept? && wake.started {
      assert after.fires[|s.fires|] == (next.value.1, next.value.0);
    }
  }

  lemma {:induction false} StampStays(run: seq<SchedState>, j: nat, k: nat, u: UnitName)
    requires IsRun(run) && j <= k < |run|
    requires forall i :: |run[j].fires| <= i < |run[k].fires| ==> run[k].fires[i].0 != u
    ensures run[j].fires <= run[k].fires && run[k].memory.managerStart == run[j].memory.managerStart
    ensures u in run[k].memory.stamps <==> u in run[j].memory.stamps
    ensures u in run[j].memory.stamps ==> run[k].memory.stamps[u] == run[j].memory.stamps[u]
    decreases k - j
  {
    hide Follows;
    if j < k {
      assert Follows(run[k - 1], run[k]);
      FiresGrow(run[k - 1], run[k]);
      StampStays(run, j, k - 1, u);
      RoundKeepsStamp(run[k - 1], run[k], u);
    }
  }

  lemma FiresGrow(s: SchedState, after: SchedState)
    requires Follows(s, after)
    ensures s.fires <= after.fires
  {
    hide Memory.Earliest;
  }

  // ----- what counts as the last fire -----

  /** With a known last fire, a persistent timer is due at once exactly when an instant of it passed
      since; without one, since the manager's start. */
  lemma DueExactly(s: Memory, u: UnitName, timer: TimerUnit, now: int, r: Option<int>, since: int)
    requires timer.persistent && WithinCap(timer, now) && IsDeadline(s.MomentsOf(u, now), timer, r)
    requires since == match s.LastOf(u) case Some(T) => T case None => s.managerStart
    ensures r == Some(now) <==> DueSince(timer, since, now)
  {
    hide IsDeadline, CalendarSpec.Fires, FiringTimes;
    PersistentCatchesUpExactly(s.MomentsOf(u, now), timer, r);
  }

  /** From the start of a scheduler until a timer first fires, catching up is measured from the
      timer's stamp on disk, if it has one, and else from the start. */
  lemma StampDecides(run: seq<SchedState>, k: nat, stamps: map<UnitName, int>, u: UnitName, timer: TimerUnit, now: int,
                     r: Option<int>)
    requires IsRun(run) && run[0] == Fresh(run[0].memory.managerStart, stamps) && k < |run| && NeverFired(run[k], u)
    requires timer.persistent && WithinCap(timer, now) && IsDeadline(run[k].memory.MomentsOf(u, now), timer, r)
    ensures r == Some(now) <==>
      DueSince(timer, if u in stamps then stamps[u] else run[0].memory.managerStart, now)
  {
    hide IsDeadline, WithinCap, DueSince;
    StampStays(run, 0, k, u);
    RunStaysValid(run, k);
    assert u !in run[k].memory.lastFires;
    DueExactly(run[k].memory, u, timer, now, r, if u in stamps then stamps[u] else run[0].memory.managerStart);
  }

  /** Once it has fired, the stamp no longer matters: what counts is its last fire. */
  lemma FireOverridesStamp(run: seq<SchedState>, k: nat, u: UnitName, T: int, timer: TimerUnit, now: int,
                           r: Option<int>)
    requires IsRun(run) && run[0].Valid() && k < |run| && IsLastFire(run[k].fires, u, T)
    requires timer.persistent && WithinCap(timer, now) && IsDeadline(run[k].memory.MomentsOf(u, now), timer, r)
    ensures r == Some(now) <==> DueSince(timer, T, now)
  {
    hide IsDeadline, WithinCap, DueSince, IsLastFire, SchedState.Valid;
    LastFireIsRemembered(run, k, u, T);
    DueExactly(run[k].memory, u, timer, now, r, T);
  }

  // ----- over a restart -----

  /** How a round records a fire: under the timer that came first, at its deadline, in memory if the
      service started, and on disk if the stamp was written as well. */
  lemma RoundRecordsFire(s: SchedState, active: ActiveTimers, now: int, d: int, u: UnitName, written: bool,
                         after: SchedState)
    requires s.Round(active, now, Some((d, u)), Slept(true, written), after)
    ensures after.fires == s.fires + [(u, d)] && after.memory.lastFires == s.memory.lastFires[u := d]
    ensures after.memory.stamps == if written then s.memory.stamps[u := d] else s.memory.stamps
  {
  }

  /** A fire whose stamp was written counts after a restart: the timer is due at once exactly when an
      instant of it passed since that fire. If the stamp could not be written, what counts is the older
      stamp, and the instant is served again. */
  lemma RestartRemembers(run: seq<SchedState>, j: nat, k: nat, active: ActiveTimers, clock: int, d: int, u: UnitName,
                         written: bool, start: int, run': seq<SchedState>, k': nat, timer: TimerUnit, now: int,
                         r: Option<int>)
    requires IsRun(run) && 0 < j <= k < |run|
    requires run[j - 1].Round(active, clock, Some((d, u)), Slept(true, written), run[j])
    requires forall i :: |run[j].fires| <= i < |run[k].fires| ==> run[k].fires[i].0 != u
    requires IsRun(run') && run'[0] == Fresh(start, run[k].memory.stamps) && k' < |run'| && NeverFired(run'[k'], u)
    requires timer.persistent && WithinCap(timer, now) && IsDeadline(run'[k'].memory.MomentsOf(u, now), timer, r)
    ensures written ==> (r == Some(now) <==> DueSince(timer, d, now))
    ensures !written ==> (r == Some(now) <==> var was := run[j - 1].memory.stamps;
      DueSince(timer, if u in was then was[u] else start, now))
  {
    hide IsDeadline, WithinCap, DueSince, NeverFired, Memory.Earliest, Follows;
    RoundRecordsFire(run[j - 1], active, clock, d, u, written, run[j]);
    StampStays(run, j, k, u);
    StampDecides(run', k', run[k].memory.stamps, u, timer, now, r);
  }
}
