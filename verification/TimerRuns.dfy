/** What whole runs of the timer scheduler guarantee, and what they do not. */
module TimerRuns {
  import opened Wrappers
  import opened UnitNames
  import opened Civil
  import opened FieldSets
  import opened Schedule
  import opened ScheduleLiveness
  import opened Timers

  // ----- the last recorded fire -----

  /** `(u, T)` is the last fire recorded for `u`. */
  ghost predicate IsLastFire(fires: seq<(UnitName, int)>, u: UnitName, T: int) {
    exists i :: 0 <= i < |fires| && fires[i] == (u, T) && forall j :: i < j < |fires| ==> fires[j].0 != u
  }

  lemma ValidRemembers(s: SchedState, u: UnitName, T: int)
    requires s.Valid() && IsLastFire(s.fires, u, T)
    ensures u in s.memory.lastFires && s.memory.lastFires[u] == T && T <= s.clock
  {
    var i :| 0 <= i < |s.fires| && s.fires[i] == (u, T) && forall j :: i < j < |s.fires| ==> s.fires[j].0 != u;
    var k :| 0 <= k < |s.fires| && s.fires[k] == (u, s.memory.lastFires[u]);
  }

  lemma {:induction false} RunStaysValid(run: seq<SchedState>, k: nat)
    requires IsRun(run) && run[0].Valid() && k < |run|
    ensures run[k].Valid()
  {
    var upTo := run[..k + 1];
    assert IsRun(upTo) && upTo[0] == run[0] && upTo[|upTo| - 1] == run[k];
    RunFiresIncrease(upTo);
  }

  /** In every state of every run, the scheduler remembers the last fire it recorded. */
  lemma LastFireIsRemembered(run: seq<SchedState>, k: nat, u: UnitName, T: int)
    requires IsRun(run) && run[0].Valid() && k < |run| && IsLastFire(run[k].fires, u, T)
    ensures run[k].memory.LastOf(u) == Some(T) && T <= run[k].clock
  {
    RunStaysValid(run, k);
    ValidRemembers(run[k], u, T);
    hide SchedState.Valid;
  }

  // ----- catch-up over runs -----

  /** A calendar instant of the timer falls in `(lo, hi]`. */
  ghost predicate InstantBetween(timer: TimerUnit, lo: int, hi: int) {
    exists i, t :: 0 <= i < |timer.onCalendar| && lo < t <= hi && timer.onCalendar[i].Fires(t)
  }

  /** Over every run: after a successful fire at `T` the timer is not due at once until an instant
      later than `T` has passed; and within the reach of the walk back, then it is. */
  lemma NoCatchUpUntilNextInstant(run: seq<SchedState>, k: nat, u: UnitName, T: int, timer: TimerUnit, now: int,
                                  r: Option<int>)
    requires IsRun(run) && run[0].Valid() && k < |run| && IsLastFire(run[k].fires, u, T) && run[k].clock <= now
    requires IsDeadline(run[k].memory.MomentsOf(u, now), timer, r)
    ensures r == Some(now) ==> InstantBetween(timer, T, now)
    ensures timer.persistent && Walkable(run[k].memory.MomentsOf(u, now), timer) ==>
      (r == Some(now) <==> InstantPassed(run[k].memory.MomentsOf(u, now), timer))
  {
    LastFireIsRemembered(run, k, u, T);
    var m := run[k].memory.MomentsOf(u, now);
    NowMeansCatchUp(m, timer, r);
    if CatchesUp(m, timer) {
      CatchUpHasInstant(m, timer);
    }
    if timer.persistent && Walkable(m, timer) {
      PersistentCatchesUpExactly(m, timer, r);
    }
    hide IsDeadline, CatchesUp, InstantBetween;
  }

  lemma CatchUpHasInstant(m: Moments, timer: TimerUnit)
    requires CatchesUp(m, timer)
    ensures InstantBetween(timer, Anchor(m), m.now)
  {
    hide LastFire, FiringTimes, CalendarSpec.Fires;
    var i :| 0 <= i < |timer.onCalendar| && Missed(m, timer.onCalendar[i]);
    PrevFireIsLatestExactly(timer.onCalendar[i], m.now);
    var t := LastFire(timer.onCalendar[i], m.now).value;
    assert Anchor(m) < t <= m.now && timer.onCalendar[i].Fires(t);
  }

  // ----- runs over a fixed configuration -----

  /** The active timers are configured as in `units`. */
  ghost predicate OfUnits(units: map<UnitName, TimerUnit>, active: ActiveTimers) {
    forall i :: 0 <= i < |active| ==> active[i].0 in units && units[active[i].0] == active[i].1
  }

  ghost predicate FollowsOf(units: map<UnitName, TimerUnit>, s: SchedState, after: SchedState) {
    exists active, now, next, wake :: OfUnits(units, active) && s.Round(active, now, next, wake, after)
  }

  /** A run in which timers come and go but keep their configuration. */
  ghost predicate IsRunOf(units: map<UnitName, TimerUnit>, run: seq<SchedState>) {
    run != [] && forall i :: 0 < i < |run| ==> FollowsOf(units, run[i - 1], run[i])
  }

  lemma RunOfIsRun(units: map<UnitName, TimerUnit>, run: seq<SchedState>)
    requires IsRunOf(units, run)
    ensures IsRun(run)
  {
    hide SchedState.Round, OfUnits;
    forall i | 0 < i < |run| ensures Follows(run[i - 1], run[i]) {
      assert FollowsOf(units, run[i - 1], run[i]);
    }
  }

  /** A round records at most one fire: that of an active timer, at its deadline. */
  lemma RoundRecords(s: SchedState, active: ActiveTimers, now: int, next: Option<(int, UnitName)>, wake: Wake,
                     after: SchedState) returns (k: nat)
    requires s.Round(active, now, next, wake, after) && after.fires != s.fires
    ensures next.Some? && wake == Slept(true, wake.persisted) && after.fires == s.fires + [(next.value.1, next.value.0)]
    ensures k < |active| && active[k].0 == next.value.1 && s.memory.Leads(active, now, |active|, k, next.value.0)
  {
    hide Memory.Leads;
    k :| 0 <= k < |active| && active[k].0 == next.value.1 && s.memory.Leads(active, now, |active|, k, next.value.0);
  }

  /** Nothing but its calendar makes the timer fire. */
  predicate CalendarOnly(timer: TimerUnit) { timer.onStartupSec.None? && timer.onBootSec.None? }

  /** Every deadline of such a timer has an instant of its own since the last fire. */
  lemma DeadlineIsEarned(s: Memory, u: UnitName, now: int, timer: TimerUnit, d: int)
    requires CalendarOnly(timer) && s.managerStart <= now && Deadline(s.MomentsOf(u, now), timer) == Some(d)
    ensures InstantBetween(timer, Anchor(s.MomentsOf(u, now)), d)
  {
    hide FirstFire, LastFire, CalendarSpec.Fires;
    var m := s.MomentsOf(u, now);
    if CatchesUp(m, timer) && d == now {
      CatchUpHasInstant(m, timer);
    } else {
      assert CalendarCandidate(m, timer, d);
      var i :| 0 <= i < |timer.onCalendar| && NextOf(m, timer.onCalendar[i]) == Some(d);
      NextIsLater(m, timer.onCalendar[i]);
      FirstFireMeans(timer.onCalendar[i], Baseline(now, m.lastFire) + 1, Baseline(now, m.lastFire) + HORIZON, Some(d));
    }
  }

  /** Between any two recorded fires of a timer driven by its calendar alone lies an instant
      of it, counting the later fire and not the earlier. */
  ghost predicate Earned(units: map<UnitName, TimerUnit>, fires: seq<(UnitName, int)>) {
    forall i, j ::
      (0 <= i < j < |fires| && fires[i].0 == fires[j].0 && fires[i].0 in units && CalendarOnly(units[fires[i].0])) ==>
        InstantBetween(units[fires[i].0], fires[i].1, fires[j].1)
  }

  lemma RoundEarns(units: map<UnitName, TimerUnit>, s: SchedState, after: SchedState)
    requires s.Valid() && Earned(units, s.fires) && FollowsOf(units, s, after)
    ensures Earned(units, after.fires)
  {
    hide SchedState.Round, InstantBetween, Deadline;
    var active: ActiveTimers, now: int, next: Option<(int, UnitName)>, wake: Wake :|
      OfUnits(units, active) && s.Round(active, now, next, wake, after);
    if after.fires != s.fires {
      var k := RoundRecords(s, active, now, next, wake, after);
      var u: UnitName, d: int, timer: TimerUnit := next.value.1, next.value.0, active[k].1;
      RoundClock(s, active, now, next, wake, after);
      if CalendarOnly(timer) {
        DeadlineIsEarned(s.memory, u, now, timer, d);
        forall i | 0 <= i < |s.fires| && s.fires[i].0 == u ensures InstantBetween(timer, s.fires[i].1, d) {
          InstantWidens(timer, s.memory.lastFires[u], d, s.fires[i].1);
        }
      }
    }
  }

  lemma RoundClock(s: SchedState, active: ActiveTimers, now: int, next: Option<(int, UnitName)>, wake: Wake,
                   after: SchedState)
    requires s.Round(active, now, next, wake, after)
    ensures s.clock <= now
  {
    hide Memory.Earliest;
  }

  lemma InstantWidens(timer: TimerUnit, lo: int, hi: int, lo': int)
    requires InstantBetween(timer, lo, hi) && lo' <= lo
    ensures InstantBetween(timer, lo', hi)
  {
    hide CalendarSpec.Fires;
    var i, t :| 0 <= i < |timer.onCalendar| && lo < t <= hi && timer.onCalendar[i].Fires(t);
    assert lo' < t <= hi;
  }

  /** No instant is served twice: over every run, each recorded fire of a timer driven by its
      calendar alone has an instant after the fire before it, up to its own time. */
  lemma {:induction false} InstantsServedOnce(units: map<UnitName, TimerUnit>, run: seq<SchedState>)
    requires IsRunOf(units, run) && run[0].Valid() && Earned(units, run[0].fires)
    ensures Earned(units, run[|run| - 1].fires)
  {
    hide SchedState.Valid, SchedState.Round, Earned, OfUnits;
    var n := |run| - 1;
    if n > 0 {
      assert forall i :: 0 < i < n ==> FollowsOf(units, run[..n][i - 1], run[..n][i]);
      InstantsServedOnce(units, run[..n]);
      RunOfIsRun(units, run);
      RunStaysValid(run, n - 1);
      assert FollowsOf(units, run[n - 1], run[n]);
      RoundEarns(units, run[n - 1], run[n]);
    }
  }

  // ----- instants that are lost -----

  /** Timers that are not persistent only ever fire ahead of the clock. */
  lemma {:induction false} FiresAhead(units: map<UnitName, TimerUnit>, run: seq<SchedState>, u: UnitName, i: nat)
    requires IsRunOf(units, run) && u in units && !units[u].persistent
    requires |run[0].fires| <= i < |run[|run| - 1].fires| && run[|run| - 1].fires[i].0 == u
    ensures run[|run| - 1].fires[i].1 > run[0].clock
    decreases |run|
  {
    hide SchedState.Round, Deadline, SchedState.Valid;
    var n := |run| - 1;
    RunOfIsRun(units, run);
    if n > 0 {
      assert forall j :: 0 < j < n ==> FollowsOf(units, run[..n][j - 1], run[..n][j]);
      ClockAdvances(units, run[..n]);
      assert FollowsOf(units, run[n - 1], run[n]);
      var active: ActiveTimers, now: int, next: Option<(int, UnitName)>, wake: Wake :|
        OfUnits(units, active) && run[n - 1].Round(active, now, next, wake, run[n]);
      RoundClock(run[n - 1], active, now, next, wake, run[n]);
      if run[n].fires == run[n - 1].fires {
        FiresAhead(units, run[..n], u, i);
      } else {
        var k := RoundRecords(run[n - 1], active, now, next, wake, run[n]);
        if i < |run[n - 1].fires| {
          FiresAhead(units, run[..n], u, i);
        } else {
          NonPersistentDeadline(run[n - 1].memory.MomentsOf(u, now), active[k].1, next.value.0);
        }
      }
    }
  }

  lemma NonPersistentDeadline(m: Moments, timer: TimerUnit, d: int)
    requires Deadline(m, timer) == Some(d) && !timer.persistent
    ensures d > m.now
  {
    NonPersistentIsLater(m, timer, Some(d));
    hide IsDeadline;
  }

  lemma {:induction false} ClockAdvances(units: map<UnitName, TimerUnit>, run: seq<SchedState>)
    requires IsRunOf(units, run)
    ensures run[0].clock <= run[|run| - 1].clock && |run[0].fires| <= |run[|run| - 1].fires|
    decreases |run|
  {
    hide SchedState.Round, Deadline;
    var n := |run| - 1;
    if n > 0 {
      assert forall j :: 0 < j < n ==> FollowsOf(units, run[..n][j - 1], run[..n][j]);
      ClockAdvances(units, run[..n]);
      assert FollowsOf(units, run[n - 1], run[n]);
      var active: ActiveTimers, now: int, next: Option<(int, UnitName)>, wake: Wake :|
        OfUnits(units, active) && run[n - 1].Round(active, now, next, wake, run[n]);
      StepAdvances(run[n - 1], active, now, next, wake, run[n]);
    }
  }

  lemma StepAdvances(s: SchedState, active: ActiveTimers, now: int, next: Option<(int, UnitName)>, wake: Wake,
                     after: SchedState)
    requires s.Round(active, now, next, wake, after)
    ensures s.clock <= now <= after.clock && |s.fires| <= |after.fires|
  {
    if next.Some? {
      var (d, u) := next.value;
      var k :| 0 <= k < |active| && active[k].0 == u && s.memory.Leads(active, now, |active|, k, d);
      DeadlineIsFresh(s.memory.MomentsOf(u, now), active[k].1, d);
    }
    hide Deadline;
  }

  predicate DistinctNames(active: ActiveTimers) {
    forall i, j :: 0 <= i < j < |active| ==> active[i].0 != active[j].0
  }

  /** Timer `k` is the first of the active ones with deadline `d`. */
  ghost predicate FirstWith(s: Memory, active: ActiveTimers, now: int, k: nat, d: int)
    requires k < |active|
  {
    forall i :: 0 <= i < k ==> s.DeadlineOf(active, now, i) != Some(d)
  }

  /** From position `lo` on, a fire of `u` for instant `d` is recorded. */
  predicate RecordedFrom(fires: seq<(UnitName, int)>, lo: nat, u: UnitName, d: int) {
    exists i :: lo <= i < |fires| && fires[i] == (u, d)
  }

  /** The run records, after its first state, a fire of `u` for instant `d`. */
  predicate Recorded(run: seq<SchedState>, u: UnitName, d: int)
    requires run != []
  {
    RecordedFrom(run[|run| - 1].fires, |run[0].fires|, u, d)
  }

  /** When the scheduler waits for `d`, a timer that is not persistent and is due at `d` is
      served for `d`, in that round or ever after, exactly when it is the first listed with that
      deadline and its start succeeds. Every other timer sharing the instant loses it. */
  lemma SharedInstantServedExactly(units: map<UnitName, TimerUnit>, run: seq<SchedState>, active: ActiveTimers,
                                   now: int, next: Option<(int, UnitName)>, wake: Wake, k: nat, d: int)
    requires IsRunOf(units, run) && |run| > 1 && OfUnits(units, active) && DistinctNames(active)
    requires run[0].Round(active, now, next, wake, run[1]) && wake.Slept? && next.Some? && next.value.0 == d
    requires k < |active| && !active[k].1.persistent && run[0].memory.DeadlineOf(active, now, k) == Some(d)
    ensures |run[0].fires| <= |run[|run| - 1].fires|
    ensures Recorded(run, active[k].0, d) <==> wake.started && FirstWith(run[0].memory, active, now, k, d)
  {
    hide SchedState.Valid, Deadline, Memory.DeadlineOf, RecordedFrom;
    var u, last := active[k].0, |run| - 1;
    var j :| 0 <= j < |active| && active[j].0 == next.value.1 && run[0].memory.Leads(active, now, |active|, j, d);
    assert j == k <==> FirstWith(run[0].memory, active, now, k, d);
    var rest := run[1..];
    assert forall i :: 0 < i < |rest| ==> FollowsOf(units, rest[i - 1], rest[i]) by {
      assert forall i :: 0 < i < |rest| ==> rest[i - 1] == run[i] && rest[i] == run[i + 1];
    }
    FiresGrow(units, rest);
    assert run[1].clock == d && rest[|rest| - 1] == run[last];
    NotRecordedLater(units, rest, u, d);
    RecordedSplit(run[last].fires, run[0].fires, run[1].fires, u, d);
    RecordedSnoc(run[0].fires, active[j].0, d, u);
  }

  lemma NotRecordedLater(units: map<UnitName, TimerUnit>, run: seq<SchedState>, u: UnitName, d: int)
    requires IsRunOf(units, run) && u in units && !units[u].persistent && d <= run[0].clock
    ensures !Recorded(run, u, d)
  {
    hide FollowsOf;
    var fires := run[|run| - 1].fires;
    forall i | |run[0].fires| <= i < |fires| ensures fires[i] != (u, d) {
      if fires[i].0 == u {
        FiresAhead(units, run, u, i);
      }
    }
  }

  lemma RecordedSplit(fires: seq<(UnitName, int)>, a: seq<(UnitName, int)>, b: seq<(UnitName, int)>, u: UnitName,
                      d: int)
    requires a <= b <= fires
    ensures RecordedFrom(fires, |a|, u, d) <==> RecordedFrom(b, |a|, u, d) || RecordedFrom(fires, |b|, u, d)
  {
    assert forall i :: 0 <= i < |b| ==> fires[i] == b[i];
  }

  lemma RecordedSnoc(fires: seq<(UnitName, int)>, v: UnitName, d: int, u: UnitName)
    ensures RecordedFrom(fires + [(v, d)], |fires|, u, d) <==> v == u
    ensures !RecordedFrom(fires, |fires|, u, d)
  {
    assert (fires + [(v, d)])[|fires|] == (v, d);
  }

  lemma {:induction false} FiresGrow(units: map<UnitName, TimerUnit>, run: seq<SchedState>)
    requires IsRunOf(units, run)
    ensures run[0].fires <= run[|run| - 1].fires
    decreases |run|
  {
    hide OfUnits, Memory.Earliest;
    var n := |run| - 1;
    if n > 0 {
      assert forall j :: 0 < j < n ==> FollowsOf(units, run[..n][j - 1], run[..n][j]);
      FiresGrow(units, run[..n]);
      assert FollowsOf(units, run[n - 1], run[n]);
    }
  }

  // ----- owed fires -----

  /** Timer `k` is owed a fire: it is persistent and catches up now. */
  ghost predicate Owed(s: Memory, active: ActiveTimers, now: int, k: nat)
    requires k < |active|
  {
    CatchesUp(s.MomentsOf(active[k].0, now), active[k].1)
  }

  ghost predicate FirstOwed(s: Memory, active: ActiveTimers, now: int, j: nat)
    requires j < |active|
  {
    Owed(s, active, now, j) && forall i :: 0 <= i < j ==> !Owed(s, active, now, i)
  }

  lemma OwedDeadline(s: Memory, active: ActiveTimers, now: int, k: nat)
    requires k < |active|
    ensures Owed(s, active, now, k) <==> s.DeadlineOf(active, now, k) == Some(now)
    ensures s.DeadlineOf(active, now, k).Some? ==> s.DeadlineOf(active, now, k).value >= now
  {
    var m, timer := s.MomentsOf(active[k].0, now), active[k].1;
    if Owed(s, active, now, k) {
      CatchUpIsDeadline(m, timer);
      DeadlineIs(m, timer, Some(now));
    }
    var r := s.DeadlineOf(active, now, k);
    hide CatchesUp, IsDeadline;
    if r.Some? {
      NowMeansCatchUp(m, timer, r);
    }
  }

  lemma CatchUpIsDeadline(m: Moments, timer: TimerUnit)
    requires CatchesUp(m, timer)
    ensures IsDeadline(m, timer, Some(m.now))
  {
    hide FirstFire, CatchesUp;
    forall c | Candidate(m, timer, c) ensures m.now <= c {
      if CalendarCandidate(m, timer, c) {
        var j :| 0 <= j < |timer.onCalendar| && NextOf(m, timer.onCalendar[j]) == Some(c);
        NextIsLater(m, timer.onCalendar[j]);
      }
    }
  }

  lemma {:induction false} SomeFirstOwed(s: Memory, active: ActiveTimers, now: int, k: nat) returns (j: nat)
    requires k < |active| && Owed(s, active, now, k)
    ensures j <= k && FirstOwed(s, active, now, j)
  {
    hide Owed;
    j := 0;
    while !Owed(s, active, now, j)
      invariant j <= k && forall i :: 0 <= i < j ==> !Owed(s, active, now, i)
      decreases k - j
    {
      j := j + 1;
    }
  }

  /** While any timer is owed a fire, the next deadline is `now`, and it is that of the first
      listed timer that is owed one. */
  lemma FirstOwedIsNext(s: Memory, active: ActiveTimers, now: int, best: Option<(int, UnitName)>, j: nat)
    requires j < |active| && FirstOwed(s, active, now, j) && s.Earliest(active, now, |active|, best)
    ensures best == Some((now, active[j].0))
  {
    hide Owed, Memory.DeadlineOf;
    forall i | 0 <= i < |active|
      ensures Owed(s, active, now, i) <==> s.DeadlineOf(active, now, i) == Some(now)
      ensures s.DeadlineOf(active, now, i).Some? ==> s.DeadlineOf(active, now, i).value >= now
    {
      OwedDeadline(s, active, now, i);
    }
    if best.Some? {
      var k :| 0 <= k < |active| && active[k].0 == best.value.1 && s.Leads(active, now, |active|, k, best.value.0);
      assert k == j;
    }
  }

  /** A persistent timer with an instant since its last fire, within reach of the walk back, is
      owed one. */
  lemma OwedExactly(s: Memory, active: ActiveTimers, now: int, k: nat)
    requires k < |active| && active[k].1.persistent && Walkable(s.MomentsOf(active[k].0, now), active[k].1)
    ensures Owed(s, active, now, k) <==> InstantPassed(s.MomentsOf(active[k].0, now), active[k].1)
  {
    hide CalendarSpec.Fires, LastFire, FiringTimes;
    var m, timer := s.MomentsOf(active[k].0, now), active[k].1;
    forall i | 0 <= i < |timer.onCalendar|
      ensures Missed(m, timer.onCalendar[i]) <==>
        exists t :: Anchor(m) < t <= m.now && m.now - LOOKBACK < t && timer.onCalendar[i].Fires(t)
    {
      PrevFireIsLatestExactly(timer.onCalendar[i], m.now);
    }
  }

  // ----- fairness -----

  /** One round: the clock reading and how it ended. */
  datatype Turn = Turn(now: int, wake: Wake)

  ghost predicate Taken(active: ActiveTimers, s: SchedState, turn: Turn, after: SchedState) {
    exists next :: s.Round(active, turn.now, next, turn.wake, after)
  }

  /** Rounds over the same active timers. */
  ghost predicate IsTrace(active: ActiveTimers, run: seq<SchedState>, turns: seq<Turn>) {
    && |run| == |turns| + 1
    && forall i :: 0 <= i < |turns| ==> Taken(active, run[i], turns[i], run[i + 1])
  }

  /** How many of the first `n` timers are owed a fire. */
  ghost function OwedCount(s: Memory, active: ActiveTimers, now: int, n: nat): nat
    requires n <= |active|
  {
    if n == 0 then 0 else OwedCount(s, active, now, n - 1) + if Owed(s, active, now, n - 1) then 1 else 0
  }

  /** The deadline came and the service started. */
  predicate Started(wake: Wake) { wake.Slept? && wake.started }

  /** How many rounds were interrupted or ended with a failed start. */
  function Misses(turns: seq<Turn>): nat {
    if turns == [] then 0 else (if Started(turns[0].wake) then 0 else 1) + Misses(turns[1..])
  }

  /** How many of the first `n` timers have a calendar instant in `(lo, hi]`. */
  ghost function ArrivalCount(active: ActiveTimers, n: nat, lo: int, hi: int): nat
    requires n <= |active|
  {
    if n == 0 then 0 else ArrivalCount(active, n - 1, lo, hi) + if InstantBetween(active[n - 1].1, lo, hi) then 1 else 0
  }

  /** The same, summed over the times between consecutive rounds. */
  ghost function Arrivals(active: ActiveTimers, n: nat, turns: seq<Turn>): nat
    requires n <= |active|
  {
    if |turns| <= 1 then 0
    else ArrivalCount(active, n, turns[0].now, turns[1].now) + Arrivals(active, n, turns[1..])
  }

  /** No calendar of the timers up to `k` has more instants in the lookback window than the walk
      back visits. */
  ghost predicate Reach(active: ActiveTimers, k: nat, now: int)
    requires k < |active|
  {
    forall i, j :: 0 <= i <= k && 0 <= j < |active[i].1.onCalendar| ==>
      |FiringTimes(active[i].1.onCalendar[j], now - LOOKBACK, now)| <= PREV_FIRE_CAP
  }

  /** Timer `k` was served in round `r`. */
  predicate ServedIn(active: ActiveTimers, run: seq<SchedState>, turns: seq<Turn>, r: nat, k: nat)
    requires |run| == |turns| + 1 && r < |turns| && k < |active|
  {
    run[r + 1].fires == run[r].fires + [(active[k].0, turns[r].now)]
  }

  ghost predicate ServedOrLapsed(active: ActiveTimers, run: seq<SchedState>, turns: seq<Turn>, k: nat)
    requires |run| == |turns| + 1 && k < |active|
  {
    exists r :: 0 <= r < |turns|
      && (ServedIn(active, run, turns, r, k) || !Owed(run[r].memory, active, turns[r].now, k))
  }

  /** Debts grow by no more than instants arrive, and by one less if one was paid. */
  lemma {:induction false} OwedCountGrows(s: Memory, now: int, s': Memory, now': int, active: ActiveTimers, n: nat)
    requires n <= |active|
    requires forall i :: 0 <= i < n && Owed(s', active, now', i) ==>
      Owed(s, active, now, i) || InstantBetween(active[i].1, now, now')
    ensures OwedCount(s', active, now', n) <= OwedCount(s, active, now, n) + ArrivalCount(active, n, now, now')
    ensures forall j :: 0 <= j < n && Paid(s, now, s', now', active, j) ==>
      OwedCount(s', active, now', n) < OwedCount(s, active, now, n) + ArrivalCount(active, n, now, now')
  {
    hide Owed, InstantBetween;
    if n > 0 {
      OwedCountGrows(s, now, s', now', active, n - 1);
    }
  }

  /** The debt to timer `j` was paid: if it is owed a fire again, for an instant since. */
  ghost predicate Paid(s: Memory, now: int, s': Memory, now': int, active: ActiveTimers, j: nat)
    requires j < |active|
  {
    Owed(s, active, now, j) && (Owed(s', active, now', j) ==> InstantBetween(active[j].1, now, now'))
  }

  lemma {:induction false} TwoOwed(s: Memory, active: ActiveTimers, now: int, n: nat, j: nat, k: nat)
    requires j < k < n <= |active| && Owed(s, active, now, j) && Owed(s, active, now, k)
    ensures OwedCount(s, active, now, n) >= 2
    decreases n
  {
    hide Owed;
    if k < n - 1 {
      TwoOwed(s, active, now, n - 1, j, k);
    } else {
      OneOwed(s, active, now, n - 1, j);
    }
  }

  lemma {:induction false} OneOwed(s: Memory, active: ActiveTimers, now: int, n: nat, j: nat)
    requires j < n <= |active| && Owed(s, active, now, j)
    ensures OwedCount(s, active, now, n) >= 1
    decreases n
  {
    hide Owed;
    if j < n - 1 {
      OneOwed(s, active, now, n - 1, j);
    }
  }

  /** A timer newly owed a fire has an instant since, and is owed none if its anchor moved up to now. */
  lemma OnlyNewIsOwed(s: Memory, s': Memory, active: ActiveTimers, now: int, now': int, k: nat, i: nat)
    requires i <= k < |active| && now <= now' && Reach(active, k, now)
    requires Anchor(s.MomentsOf(active[i].0, now)) <= Anchor(s'.MomentsOf(active[i].0, now'))
    requires Owed(s', active, now', i) && !InstantBetween(active[i].1, now, now')
    ensures Owed(s, active, now, i) && Anchor(s'.MomentsOf(active[i].0, now')) < now
  {
    hide CalendarSpec.Fires, LastFire, FiringTimes;
    var m, m', timer := s.MomentsOf(active[i].0, now), s'.MomentsOf(active[i].0, now'), active[i].1;
    var c :| 0 <= c < |timer.onCalendar| && Missed(m', timer.onCalendar[c]);
    PrevFireIsLatestExactly(timer.onCalendar[c], now');
    PrevFireIsLatestExactly(timer.onCalendar[c], now);
    var t := LastFire(timer.onCalendar[c], now').value;
    assert t > now ==> InstantBetween(timer, now, now');
    assert Missed(m, timer.onCalendar[c]);
  }

  /** One round in which `k` is owed a fire: it is served, or nothing starts, or a debt before it is
      paid; new debts only arrive with an instant. */
  lemma RoundPays(active: ActiveTimers, s: SchedState, turn: Turn, after: SchedState, now': int, k: nat)
    requires DistinctNames(active) && k < |active| && Taken(active, s, turn, after)
    requires Owed(s.memory, active, turn.now, k) && s.Valid() && turn.now <= now' && Reach(active, k, turn.now)
    ensures after.Valid()
    ensures var owed, owed' := OwedCount(s.memory, active, turn.now, k + 1),
      OwedCount(after.memory, active, now', k + 1);
      var arrived := ArrivalCount(active, k + 1, turn.now, now');
      && owed' <= owed + arrived
      && (Started(turn.wake) ==>
           after.fires == s.fires + [(active[k].0, turn.now)] || (owed' < owed + arrived && owed >= 2))
  {
    hide Owed, FirstOwed, Memory.Earliest, SchedState.Valid, Reach, Deadline, OwedCount, ArrivalCount, InstantBetween;
    var next :| s.Round(active, turn.now, next, turn.wake, after);
    s.RoundKeepsValid(active, turn.now, next, turn.wake, after);
    var j := SomeFirstOwed(s.memory, active, turn.now, k);
    FirstOwedIsNext(s.memory, active, turn.now, next, j);
    FirstIsOwed(s.memory, active, turn.now, j);
    OwedAnchor(s.memory, active, turn.now, j);
    var persisted := turn.wake.Slept? && turn.wake.persisted;
    assert after == s.Fired(active[j].0, turn.now, Started(turn.wake), persisted);
    forall i | 0 <= i <= k && Owed(after.memory, active, now', i) && !InstantBetween(active[i].1, turn.now, now')
      ensures Owed(s.memory, active, turn.now, i) && (Started(turn.wake) ==> i != j)
    {
      AnchorAfter(s, active[j].0, turn.now, Started(turn.wake), persisted, active[i].0, now');
      OnlyNewIsOwed(s.memory, after.memory, active, turn.now, now', k, i);
    }
    OwedCountGrows(s.memory, turn.now, after.memory, now', active, k + 1);
    if j < k {
      TwoOwed(s.memory, active, turn.now, k + 1, j, k);
      assert Started(turn.wake) ==> Paid(s.memory, turn.now, after.memory, now', active, j);
    }
  }

  lemma FirstIsOwed(s: Memory, active: ActiveTimers, now: int, j: nat)
    requires j < |active| && FirstOwed(s, active, now, j)
    ensures Owed(s, active, now, j)
  {
    hide Owed;
  }

  /** Firing `u` moves no anchor back, and moves that of `u` to now if the start succeeds. */
  lemma AnchorAfter(s: SchedState, u: UnitName, now: int, started: bool, persisted: bool, v: UnitName, now': int)
    requires Anchor(s.memory.MomentsOf(u, now)) < now
    ensures var after := s.Fired(u, now, started, persisted);
      && Anchor(s.memory.MomentsOf(v, now)) <= Anchor(after.memory.MomentsOf(v, now'))
      && (started && v == u ==> Anchor(after.memory.MomentsOf(v, now')) == now)
  {
  }

  lemma OwedAnchor(s: Memory, active: ActiveTimers, now: int, j: nat)
    requires j < |active| && Owed(s, active, now, j)
    ensures Anchor(s.MomentsOf(active[j].0, now)) < now
  {
    hide CatchesUp, CalendarSpec.Fires;
    CatchUpHasInstant(s.MomentsOf(active[j].0, now), active[j].1);
  }

  /** Every debt is paid in turn. A timer that is owed a fire is served, unless its instant leaves the
      lookback window, within as many rounds as there are, among the timers listed at or before it,
      fires owed at the start and instants arriving meanwhile; rounds that are interrupted or fail to
      start come on top. So it starves only behind starts that keep failing, interruptions, or
      timers listed before it whose instants keep arriving. (Calendars with more than 200,000 instants
      in a lookback window are excepted: there the walk back loses sight of the latest one.) */
  lemma {:induction false} OwedTimerIsServed(active: ActiveTimers, run: seq<SchedState>, turns: seq<Turn>, k: nat)
    requires IsTrace(active, run, turns) && turns != [] && DistinctNames(active) && k < |active| && run[0].Valid()
    requires forall i :: 0 < i < |turns| ==> turns[i - 1].now <= turns[i].now
    requires forall i :: 0 <= i < |turns| ==> Reach(active, k, turns[i].now)
    requires |turns| >= OwedCount(run[0].memory, active, turns[0].now, k + 1) + Misses(turns)
      + Arrivals(active, k + 1, turns)
    ensures ServedOrLapsed(active, run, turns, k)
    decreases |turns|
  {
    hide Owed, OwedCount, ArrivalCount, Taken, SchedState.Valid, Reach;
    var s, turn := run[0], turns[0];
    if Owed(s.memory, active, turn.now, k) && !ServedIn(active, run, turns, 0, k) {
      OneOwed(s.memory, active, turn.now, k + 1, k);
      if |turns| == 1 {
        assert Misses(turns[1..]) == 0;
        RoundPays(active, s, turn, run[1], turn.now, k);
        assert false;
      } else {
        RoundPays(active, s, turn, run[1], turns[1].now, k);
        assert forall i :: 0 <= i < |turns[1..]| ==> turns[1..][i] == turns[i + 1];
        assert forall i :: 0 <= i < |run[1..]| ==> run[1..][i] == run[i + 1];
        OwedTimerIsServed(active, run[1..], turns[1..], k);
        LaterServed(active, run, turns, k);
      }
    }
  }

  lemma LaterServed(active: ActiveTimers, run: seq<SchedState>, turns: seq<Turn>, k: nat)
    requires |run| == |turns| + 1 && turns != [] && k < |active| && ServedOrLapsed(active, run[1..], turns[1..], k)
    ensures ServedOrLapsed(active, run, turns, k)
  {
    hide Owed;
    var rest, later := run[1..], turns[1..];
    var r :| 0 <= r < |later|
      && (ServedIn(active, rest, later, r, k) || !Owed(rest[r].memory, active, later[r].now, k));
    assert rest[r] == run[r + 1] && rest[r + 1] == run[r + 2] && later[r] == turns[r + 1];
    assert ServedIn(active, run, turns, r + 1, k) || !Owed(run[r + 1].memory, active, turns[r + 1].now, k);
  }

  // ----- starvation -----

  /** The states when every round at the readings `nows` ends with a failed start. */
  function FailingRun(s: SchedState, nows: seq<int>): (run: seq<SchedState>)
    ensures |run| == |nows| + 1 && run[0] == s
    ensures forall i :: 0 < i < |run| ==> run[i] == s.(clock := nows[i - 1])
  {
    seq(|nows| + 1, i requires 0 <= i <= |nows| => if i == 0 then s else s.(clock := nows[i - 1]))
  }

  function FailingTurns(nows: seq<int>): (turns: seq<Turn>)
    ensures |turns| == |nows| && forall i :: 0 <= i < |turns| ==> turns[i] == Turn(nows[i], Slept(false, false))
  {
    seq(|nows|, i requires 0 <= i < |nows| => Turn(nows[i], Slept(false, false)))
  }

  ghost predicate Ascending(s: SchedState, nows: seq<int>) {
    (forall i :: 0 <= i < |nows| ==> s.clock <= nows[i]) && forall i, j :: 0 <= i < j < |nows| ==> nows[i] <= nows[j]
  }

  /** The timer is owed a fire, and the one picked before it too. */
  ghost predicate Blocked(s: Memory, active: ActiveTimers, now: int, j: nat, k: nat) {
    j < k < |active| && FirstOwed(s, active, now, j) && Owed(s, active, now, k)
  }

  /** An owed timer can starve: as long as one listed before it is owed a fire too and the start
      of that one fails, round after round serves neither, and nothing is recorded. */
  lemma OwedTimerStarves(s: SchedState, active: ActiveTimers, nows: seq<int>, j: nat, k: nat)
    requires Ascending(s, nows) && j < k < |active|
    requires forall i :: 0 <= i < |nows| ==> Blocked(s.memory, active, nows[i], j, k)
    ensures var run, turns := FailingRun(s, nows), FailingTurns(nows);
      && IsTrace(active, run, turns)
      && forall r :: 0 <= r < |turns| ==>
         Owed(run[r].memory, active, turns[r].now, k) && !ServedIn(active, run, turns, r, k)
  {
    hide FirstOwed, Owed, Memory.Earliest, SchedState.Round;
    var run, turns := FailingRun(s, nows), FailingTurns(nows);
    forall r | 0 <= r < |turns| ensures Taken(active, run[r], turns[r], run[r + 1]) {
      FailingRound(run[r], active, nows[r], j);
    }
  }

  lemma FailingRound(s: SchedState, active: ActiveTimers, now: int, j: nat)
    requires j < |active| && FirstOwed(s.memory, active, now, j) && s.clock <= now
    ensures Taken(active, s, Turn(now, Slept(false, false)), s.(clock := now))
  {
    hide Owed, Memory.DeadlineOf;
    forall i | 0 <= i < |active|
      ensures Owed(s.memory, active, now, i) <==> s.memory.DeadlineOf(active, now, i) == Some(now)
      ensures s.memory.DeadlineOf(active, now, i).Some? ==> s.memory.DeadlineOf(active, now, i).value >= now
    {
      OwedDeadline(s.memory, active, now, i);
    }
    assert s.memory.Leads(active, now, |active|, j, now);
    assert s.Round(active, now, Some((now, active[j].0)), Slept(false, false), s.(clock := now));
  }

  // ----- it happens -----

  /** `2024-01-02 00:00:00`. */
  const ONE_DAY := Date(2024, 1, 2)
  const ONCE := CalendarSpec(FieldSet(None), FieldSet(Some([2024])), FieldSet(Some([1])), FieldSet(Some([2])),
                             FieldSet(Some([0])), FieldSet(Some([0])), FieldSet(Some([0])))
  const ONCE_TIMER := TimerUnit([ONCE], true, None, None, None, None, None)

  lemma OnceFires(t: int)
    ensures ONCE.Fires(t) <==> t == Midnight(ONE_DAY)
  {
    hide DateOf, DayNumber;
    var day := DayNumber(ONE_DAY);
    DateRoundTrip(ONE_DAY);
    DateRoundTrip(DateOf(DayOf(t)));
    assert ONCE.Fires(t) <==> DateOf(DayOf(t)) == ONE_DAY && Hour(t) == 0 && Minute(t) == 0 && Second(t) == 0;
    assert DateOf(DayOf(t)) == ONE_DAY <==> DayOf(t) == day;
    hide CalendarSpec.Fires;
    TimeSplits(t, day);
  }

  lemma TimeSplits(t: int, day: int)
    ensures DayOf(t) == day && Hour(t) == 0 && Minute(t) == 0 && Second(t) == 0 <==> t == day * SECONDS_PER_DAY
  {
    hide DayOf, Hour, Minute, Second;
    TimeOfDay(day, 0, 0, 0);
    if DayOf(t) == day && Hour(t) == 0 && Minute(t) == 0 && Second(t) == 0 {
      OnlyMidnight(t, day);
    }
  }

  lemma OnlyMidnight(t: int, day: int)
    requires DayOf(t) == day && Hour(t) == 0 && Minute(t) == 0 && Second(t) == 0
    ensures t == day * SECONDS_PER_DAY
  {
    var r := t - day * SECONDS_PER_DAY;
    SplitDay(day, r);
    assert 0 <= r < 3600;
    SplitHour(24 * day, r);
    assert 0 <= r < 60;
    SplitMinute(1440 * day, r);
  }

  lemma OnceIsOwed(s: Memory, u: UnitName, now: int)
    requires s.LastOf(u) == None && s.managerStart < Midnight(ONE_DAY) <= now < Midnight(ONE_DAY) + LOOKBACK
    ensures CatchesUp(s.MomentsOf(u, now), ONCE_TIMER)
  {
    hide CalendarSpec.Fires, FiringTimes, LastFire;
    var ts := FiringTimes(ONCE, now - LOOKBACK, now);
    FiringTimesMean(ONCE, now - LOOKBACK, now);
    OnceFires(Midnight(ONE_DAY));
    forall t | t in ts ensures t == Midnight(ONE_DAY) {
      OnceFires(t);
    }
    PrevFireIsLatestExactly(ONCE, now);
    var r := LastFire(ONCE, now);
    assert r.Some?;
    OnceFires(r.value);
    assert Missed(s.MomentsOf(u, now), ONCE_TIMER.onCalendar[0]);
  }

  /** Two timers for the same instant, listed in this order: for a whole year of rounds in which
      the first cannot be started, the second is not served once. */
  lemma StarvationHappens(a: UnitName, b: UnitName, nows: seq<int>)
    requires a != b
    requires forall i :: 0 <= i < |nows| ==> Midnight(ONE_DAY) <= nows[i] < Midnight(ONE_DAY) + LOOKBACK
    requires forall i, j :: 0 <= i < j < |nows| ==> nows[i] <= nows[j]
    ensures var s := SchedState(Memory(Midnight(ONE_DAY) - 1, map[], map[]), Midnight(ONE_DAY) - 1, []);
      var active := [(a, ONCE_TIMER), (b, ONCE_TIMER)];
      var run, turns := FailingRun(s, nows), FailingTurns(nows);
      && s.Valid() && IsTrace(active, run, turns)
      && forall r :: 0 <= r < |turns| ==>
         Owed(run[r].memory, active, turns[r].now, 1) && !ServedIn(active, run, turns, r, 1)
  {
    hide DayNumber, CatchesUp;
    var s := SchedState(Memory(Midnight(ONE_DAY) - 1, map[], map[]), Midnight(ONE_DAY) - 1, []);
    var active := [(a, ONCE_TIMER), (b, ONCE_TIMER)];
    forall i | 0 <= i < |nows| ensures Blocked(s.memory, active, nows[i], 0, 1) {
      OnceIsOwed(s.memory, a, nows[i]);
      OnceIsOwed(s.memory, b, nows[i]);
    }
    hide Blocked, Owed, IsTrace, ServedIn;
    OwedTimerStarves(s, active, nows, 0, 1);
  }

  // ----- a busy neighbour -----

  /** `*-*-* 00:00:00`. */
  const DAILY := CalendarSpec(FieldSet(None), FieldSet(None), FieldSet(None), FieldSet(None),
                              FieldSet(Some([0])), FieldSet(Some([0])), FieldSet(Some([0])))
  const DAILY_TIMER := TimerUnit([DAILY], true, None, None, None, None, None)

  lemma DailyFires(t: int)
    ensures DAILY.Fires(t) <==> t == DayOf(t) * SECONDS_PER_DAY
  {
    hide DateOf, DayOf, Hour, Minute, Second;
    assert DAILY.Fires(t) <==> Hour(t) == 0 && Minute(t) == 0 && Second(t) == 0;
    TimeSplits(t, DayOf(t));
  }

  /** Daily instants are a day apart, so the lookback window holds no more than 366. */
  lemma {:induction false} DailySpread(ts: seq<int>, i: nat)
    requires forall j, k :: 0 <= j < k < |ts| ==> ts[j] < ts[k]
    requires forall t :: t in ts ==> DAILY.Fires(t)
    requires i < |ts|
    ensures ts[i] >= ts[0] + i * SECONDS_PER_DAY
  {
    hide CalendarSpec.Fires;
    if i > 0 {
      DailySpread(ts, i - 1);
      assert ts[i - 1] in ts && ts[i] in ts;
      DailyFires(ts[i - 1]);
      DailyFires(ts[i]);
    }
  }

  lemma DailyIsWalkable(now: int)
    ensures |FiringTimes(DAILY, now - LOOKBACK, now)| <= PREV_FIRE_CAP
  {
    hide CalendarSpec.Fires, FiringTimes;
    var ts := FiringTimes(DAILY, now - LOOKBACK, now);
    FiringTimesMean(DAILY, now - LOOKBACK, now);
    assert forall t :: t in ts ==> DAILY.Fires(t);
    if ts != [] {
      var n := |ts| - 1;
      DailySpread(ts, n);
      assert ts[0] in ts && ts[n] in ts;
    }
  }

  /** At midnight, a daily timer last served before is owed a fire. */
  lemma DailyIsOwed(s: Memory, u: UnitName, day: int)
    requires Anchor(s.MomentsOf(u, day * SECONDS_PER_DAY)) < day * SECONDS_PER_DAY
    ensures CatchesUp(s.MomentsOf(u, day * SECONDS_PER_DAY), DAILY_TIMER)
  {
    hide CalendarSpec.Fires, FiringTimes, LastFire;
    var now := day * SECONDS_PER_DAY;
    SplitDay(day, 0);
    DailyFires(now);
    DailyIsWalkable(now);
    PrevFireIsLatestExactly(DAILY, now);
    assert LastFire(DAILY, now) == Some(now);
    assert Missed(s.MomentsOf(u, now), DAILY_TIMER.onCalendar[0]);
  }

  /** While a timer is owed a fire, a round that starts something serves the first that is owed one. */
  lemma ServedInTurn(active: ActiveTimers, s: SchedState, now: int, j: nat)
    requires j < |active| && FirstOwed(s.memory, active, now, j) && s.clock <= now
    ensures Taken(active, s, Turn(now, Slept(true, false)), s.Fired(active[j].0, now, true, false))
  {
    hide Owed, Memory.DeadlineOf;
    forall i | 0 <= i < |active|
      ensures Owed(s.memory, active, now, i) <==> s.memory.DeadlineOf(active, now, i) == Some(now)
      ensures s.memory.DeadlineOf(active, now, i).Some? ==> s.memory.DeadlineOf(active, now, i).value >= now
    {
      OwedDeadline(s.memory, active, now, i);
    }
    assert s.memory.Leads(active, now, |active|, j, now);
    assert s.Round(active, now, Some((now, active[j].0)), Slept(true, false), s.Fired(active[j].0, now, true, false));
  }

  /** The state after `i` midnights, counted from that of `ONE_DAY`, at each of which `a` was served. */
  function BusyState(a: UnitName, i: nat): SchedState {
    var start, day := Midnight(ONE_DAY) - 1, DayNumber(ONE_DAY);
    if i == 0 then SchedState(Memory(start, map[], map[]), start, [])
    else BusyState(a, i - 1).Fired(a, (day + i - 1) * SECONDS_PER_DAY, true, false)
  }

  lemma {:induction false} BusyMemory(a: UnitName, b: UnitName, i: nat)
    requires a != b
    ensures var s, start, day := BusyState(a, i), Midnight(ONE_DAY) - 1, DayNumber(ONE_DAY);
      && s.memory.managerStart == start && s.memory.LastOf(b) == None
      && s.memory.LastOf(a) == (if i == 0 then None else Some((day + i - 1) * SECONDS_PER_DAY))
      && s.clock == (if i == 0 then start else (day + i - 1) * SECONDS_PER_DAY)
  {
    hide DayNumber;
    if i > 0 {
      BusyMemory(a, b, i - 1);
    }
  }

  /** A timer that is served every time can starve one listed after it: from 2 January 2024 on, one
      round each midnight for up to a year, every start succeeding, the daily timer `a` is served each
      time and `b`, owed its one fire all along, never. */
  lemma BusyNeighbour(a: UnitName, b: UnitName, n: nat)
    requires a != b && n <= 366
    ensures var active := [(a, DAILY_TIMER), (b, ONCE_TIMER)];
      var run := seq(n + 1, i requires 0 <= i <= n => BusyState(a, i));
      var turns := seq(n, i => Turn((DayNumber(ONE_DAY) + i) * SECONDS_PER_DAY, Slept(true, false)));
      && IsTrace(active, run, turns) && Misses(turns) == 0
      && forall r :: 0 <= r < n ==> Owed(run[r].memory, active, turns[r].now, 1) && !ServedIn(active, run, turns, r, 1)
  {
    hide DayNumber, CatchesUp, Taken, BusyState, Memory.Earliest;
    var active := [(a, DAILY_TIMER), (b, ONCE_TIMER)];
    var run := seq(n + 1, i requires 0 <= i <= n => BusyState(a, i));
    var turns := seq(n, i => Turn((DayNumber(ONE_DAY) + i) * SECONDS_PER_DAY, Slept(true, false)));
    forall r | 0 <= r < n
      ensures Taken(active, run[r], turns[r], run[r + 1])
      ensures Owed(run[r].memory, active, turns[r].now, 1) && !ServedIn(active, run, turns, r, 1)
    {
      BusyRound(a, b, r);
    }
    AllStarted(turns);
  }

  lemma BusyRound(a: UnitName, b: UnitName, r: nat)
    requires a != b && r < 366
    ensures var active, now := [(a, DAILY_TIMER), (b, ONCE_TIMER)], (DayNumber(ONE_DAY) + r) * SECONDS_PER_DAY;
      && Taken(active, BusyState(a, r), Turn(now, Slept(true, false)), BusyState(a, r + 1))
      && Owed(BusyState(a, r).memory, active, now, 1)
      && BusyState(a, r + 1).fires != BusyState(a, r).fires + [(b, now)]
  {
    var active, day := [(a, DAILY_TIMER), (b, ONCE_TIMER)], DayNumber(ONE_DAY) + r;
    var s, now := BusyState(a, r), day * SECONDS_PER_DAY;
    assert BusyState(a, r + 1) == s.Fired(a, now, true, false);
    assert (s.fires + [(a, now)])[|s.fires|] == (a, now) && (s.fires + [(b, now)])[|s.fires|] == (b, now);
    hide DayNumber, CatchesUp, BusyState, Taken;
    BusyMemory(a, b, r);
    DailyIsOwed(s.memory, a, day);
    OnceIsOwed(s.memory, b, now);
    assert FirstOwed(s.memory, active, now, 0);
    ServedInTurn(active, s, now, 0);
  }

  lemma {:induction false} AllStarted(turns: seq<Turn>)
    requires forall i :: 0 <= i < |turns| ==> Started(turns[i].wake)
    ensures Misses(turns) == 0
  {
    if turns != [] {
      AllStarted(turns[1..]);
    }
  }
}
