/** What the search returns for common schedules, in plain numbers. */
module CalendarLaws {
  import opened Wrappers
  import opened Civil
  import opened FieldSets
  import opened Schedule
  import opened ScheduleLiveness
  import opened Horizons

  // ----- the windows of the two searches -----

  /** `next_fire` finds the first firing instant after both `now` and the last fire, if it comes
      within 3,660 days of the later of the two. */
  lemma NextFireMeans(spec: CalendarSpec, now: int, last: Option<int>, r: Option<int>)
    ensures r == FirstFire(spec, Baseline(now, last) + 1, Baseline(now, last) + HORIZON) <==>
      var from := if last.Some? && last.value > now then last.value else now;
      match r
      case None => forall t :: from < t < from + 316_224_000 ==> !spec.Fires(t)
      case Some(x) => from < x < from + 316_224_000 && spec.Fires(x) && forall t :: from < t < x ==> !spec.Fires(t)
  {
    hide CalendarSpec.Fires, FirstFire;
    FirstFireMeans(spec, Baseline(now, last) + 1, Baseline(now, last) + HORIZON, r);
  }

  /** `prev_fire` looks at the 366 days up to and including `before`; if they hold at most 200,000
      firing instants it finds the last of them, and otherwise the 200,000th. */
  lemma PrevFireMeans(spec: CalendarSpec, before: int, r: Option<int>)
    ensures var ts := FiringTimes(spec, before - 31_622_400, before);
      if |ts| > 200_000 then LastFire(spec, before) == Some(ts[199_999])
      else r == LastFire(spec, before) <==>
        match r
        case None => forall t :: before - 31_622_400 < t <= before ==> !spec.Fires(t)
        case Some(x) =>
          before - 31_622_400 < x <= before && spec.Fires(x) && forall t :: x < t <= before ==> !spec.Fires(t)
  {
    hide CalendarSpec.Fires, FiringTimes;
    PrevFireIsLatestExactly(spec, before);
  }

  lemma SearchIs(spec: CalendarSpec, baseline: int, x: int)
    requires baseline < x < baseline + HORIZON && spec.Fires(x) && forall t :: baseline < t < x ==> !spec.Fires(t)
    ensures Search(spec, baseline) == Some(x)
  {
    hide CalendarSpec.Fires, FirstFire;
    FirstFireMeans(spec, baseline + 1, baseline + HORIZON, Some(x));
  }

  // ----- times of day and days of the week -----

  /** The instants at one time of day are those with the same remainder by the day. */
  lemma TimeOfDayMeans(t: int, h: int, mi: int, s: int)
    requires 0 <= h < 24 && 0 <= mi < 60 && 0 <= s < 60
    ensures Hour(t) == h && Minute(t) == mi && Second(t) == s <==> t % 86_400 == 3600 * h + 60 * mi + s
  {
    var n, r := DayOf(t), t % 86_400;
    assert t == n * SECONDS_PER_DAY + r;
    var h', mi', s' := r / 3600, r % 3600 / 60, r % 60;
    SplitTime(r);
    TimeOfDay(n, h', mi', s');
    hide DayOf, Hour, Minute, Second;
    if h' == h && mi' == mi && s' == s {
      assert r == 3600 * h + 60 * mi + s;
    } else if r == 3600 * h + 60 * mi + s {
      SplitHour(h, 60 * mi + s);
      SplitMinute(mi, s);
      SplitMinute(60 * h + mi, s);
    }
  }

  lemma SplitTime(r: int)
    requires 0 <= r < 86_400
    ensures r == 3600 * (r / 3600) + 60 * (r % 3600 / 60) + r % 60
  {
    var q := r % 3600;
    assert r == 3600 * (r / 3600) + q && q == 60 * (q / 60) + q % 60;
    SplitMinute(60 * (r / 3600) + q / 60, q % 60);
  }

  /** A schedule for one time of every day next fires at the next such time. */
  lemma DailyAt(spec: CalendarSpec, h: nat, mi: nat, s: nat, baseline: int)
    requires h < 24 && mi < 60 && s < 60
    requires spec == CalendarSpec(FieldSet(None), FieldSet(None), FieldSet(None), FieldSet(None),
      FieldSet(Some([h])), FieldSet(Some([mi])), FieldSet(Some([s])))
    ensures Search(spec, baseline) == Some(baseline + 1 + (3600 * h + 60 * mi + s - baseline - 1) % 86_400)
  {
    hide DateOf, DayOf, Hour, Minute, Second, Search;
    var k := 3600 * h + 60 * mi + s;
    var x := baseline + 1 + (k - baseline - 1) % 86_400;
    forall t ensures spec.Fires(t) <==> t % 86_400 == k {
      TimeOfDayMeans(t, h, mi, s);
    }
    hide CalendarSpec.Fires;
    NextCongruent(baseline, k, 86_400, x);
    SearchIs(spec, baseline, x);
  }

  /** The first number after `b` with remainder `k`. */
  lemma NextCongruent(b: int, k: int, m: int, x: int)
    requires m in {86_400, 604_800} && 0 <= k < m && x == b + 1 + (k - b - 1) % m
    ensures b < x <= b + m && x % m == k && forall t :: b < t < x ==> t % m != k
  {
    var q := (k - b - 1) / m;
    assert x == k - m * q;
    forall t | b < t < x ensures t % m != k {
      assert t == m * -q + (k - (x - t)) && 0 < x - t < m;
    }
  }

  /** A schedule for midnight of one weekday fires once in every seven days; day 0 is a Monday, and
      so 1 January 1970 a Thursday. */
  lemma WeeklyAt(spec: CalendarSpec, w: nat, baseline: int)
    requires 1 <= w <= 7
    requires spec == CalendarSpec(FieldSet(Some([w])), FieldSet(None), FieldSet(None), FieldSet(None),
      FieldSet(Some([0])), FieldSet(Some([0])), FieldSet(Some([0])))
    ensures Search(spec, baseline) == Some(baseline + 1 + (86_400 * (w - 1) - baseline - 1) % 604_800)
  {
    hide DateOf, DayOf, Hour, Minute, Second, Search, Weekday;
    var k := 86_400 * (w - 1);
    var x := baseline + 1 + (k - baseline - 1) % 604_800;
    forall t ensures spec.Fires(t) <==> t % 604_800 == k {
      TimeOfDayMeans(t, 0, 0, 0);
      MidnightOfWeekday(t, w);
    }
    hide CalendarSpec.Fires;
    NextCongruent(baseline, k, 604_800, x);
    SearchIs(spec, baseline, x);
  }

  lemma MidnightOfWeekday(t: int, w: int)
    requires 1 <= w <= 7
    ensures t % 86_400 == 0 && Weekday(t) == w <==> t % 604_800 == 86_400 * (w - 1)
  {
    var n := t / 86_400;
    assert t == 86_400 * n + t % 86_400 && n == 7 * (n / 7) + n % 7;
    assert t == 604_800 * (n / 7) + (86_400 * (n % 7) + t % 86_400);
    assert t % 604_800 == 86_400 * (n % 7) + t % 86_400;
  }

  /** The Unix epoch, counted from 1 January of year 1. */
  lemma UnixEpoch()
    ensures DayNumber(Date(1970, 1, 1)) == 719_162 && Midnight(Date(1970, 1, 1)) == 62_135_596_800
    ensures Weekday(Midnight(Date(1970, 1, 1))) == 4
    ensures MIN_INSTANT == Midnight(Date(-9999, 1, 1)) && MAX_INSTANT == Midnight(Date(10_000, 1, 1)) - 1
  {
  }

  // ----- months -----

  const LENGTHS: seq<nat> := [31, 28, 31, 30, 31, 30, 31, 31, 30, 31, 30, 31]

  /** `*-*-01 00:00:00`. */
  const MONTHLY := CalendarSpec(
    FieldSet(None), FieldSet(None), FieldSet(None), FieldSet(Some([1])),
    FieldSet(Some([0])), FieldSet(Some([0])), FieldSet(Some([0])))

  lemma MonthlyMeans(t: int)
    ensures MONTHLY.Fires(t) <==> Day(t) == 1 && t % 86_400 == 0
  {
    hide DateOf, DayOf, Hour, Minute, Second, Day;
    TimeOfDayMeans(t, 0, 0, 0);
  }

  /** Days from the first of a month to the first of the next. */
  lemma MonthStep(y: int, m: int)
    requires 1 <= m <= 12
    ensures ValidDate(Date(y, m, 1)) && ValidDate(NextMonth(y, m))
    ensures DayNumber(NextMonth(y, m)) == DayNumber(Date(y, m, 1)) + LENGTHS[m - 1]
      + if m == 2 && y % 4 == 0 && (y % 100 != 0 || y % 400 == 0) then 1 else 0
  {
    MonthStarts(y);
    YearStep(y);
    hide DaysBeforeYear;
  }

  /** The monthly schedule fires on the first of each month, and the firsts are as many days apart
      as the month in between is long. */
  lemma MonthlyStep(y: int, m: int)
    requires 1 <= m <= 12
    ensures var first := Midnight(Date(y, m, 1));
      && MONTHLY.Fires(first)
      && Search(MONTHLY, first) == Some(first + 86_400 * (LENGTHS[m - 1]
           + if m == 2 && y % 4 == 0 && (y % 100 != 0 || y % 400 == 0) then 1 else 0))
  {
    hide DateOf, DayNumber, DayOf, Hour, Minute, Second, CalendarSpec.Fires, Search;
    MonthStep(y, m);
    var d, next := Date(y, m, 1), NextMonth(y, m);
    MonthlyMeans(Midnight(d));
    MonthlyMeans(Midnight(next));
    DayOfMidnight(d);
    DayOfMidnight(next);
    forall t | Midnight(d) < t < Midnight(next) ensures !MONTHLY.Fires(t) {
      MonthlyMeans(t);
      NoFirstBetween(t, y, m);
    }
    SearchIs(MONTHLY, Midnight(d), Midnight(next));
  }

  lemma NoFirstBetween(t: int, y: int, m: int)
    requires 1 <= m <= 12 && ValidDate(Date(y, m, 1)) && ValidDate(NextMonth(y, m))
    requires Midnight(Date(y, m, 1)) < t < Midnight(NextMonth(y, m))
    ensures !(Day(t) == 1 && t % 86_400 == 0)
  {
    hide DateOf, DayNumber;
    var d := Date(y, m, 1);
    DateBlock(Midnight(d), t, NextMonth(y, m));
    DayOfMidnight(d);
    if Day(t) == 1 {
      assert DateOf(DayOf(t)) == d;
      assert DayOf(t) * SECONDS_PER_DAY == Midnight(d) < t;
    }
  }
}
