/** When a calendar schedule fires at all, and how soon. */
module ScheduleLiveness {
  import opened Wrappers
  import opened Civil
  import opened FieldSets
  import opened Schedule

  /** The instant of a date and a time of day. */
  function InstantOf(d: Date, h: int, m: int, s: int): int
    requires ValidDate(d)
  {
    Midnight(d) + 3600 * h + 60 * m + s
  }

  lemma InstantFields(d: Date, h: int, m: int, s: int)
    requires ValidDate(d) && 0 <= h < 24 && 0 <= m < 60 && 0 <= s < 60
    ensures var t := InstantOf(d, h, m, s);
      && Year(t) == d.year && Month(t) == d.month && Day(t) == d.day
      && Hour(t) == h && Minute(t) == m && Second(t) == s
  {
    hide DateOf, DayNumber, DayOf, Hour, Minute, Second, ValidDate;
    DateRoundTrip(d);
    TimeOfDay(DayNumber(d), h, m, s);
  }

  lemma TimeOfDay(n: int, h: int, m: int, s: int)
    requires 0 <= h < 24 && 0 <= m < 60 && 0 <= s < 60
    ensures var t := n * SECONDS_PER_DAY + 3600 * h + 60 * m + s;
      DayOf(t) == n && Hour(t) == h && Minute(t) == m && Second(t) == s
  {
    SplitDay(n, 3600 * h + 60 * m + s);
    SplitHour(h, 60 * m + s);
    SplitHour(24 * n + h, 60 * m + s);
    SplitMinute(m, s);
    SplitMinute(1440 * n + 60 * h + m, s);
  }

  lemma SplitDay(n: int, r: int)
    requires 0 <= r < SECONDS_PER_DAY
    ensures (n * SECONDS_PER_DAY + r) / SECONDS_PER_DAY == n && (n * SECONDS_PER_DAY + r) % SECONDS_PER_DAY == r
  {
  }

  lemma SplitHour(n: int, r: int)
    requires 0 <= r < 3600
    ensures (3600 * n + r) / 3600 == n && (3600 * n + r) % 3600 == r
  {
  }

  lemma SplitMinute(n: int, r: int)
    requires 0 <= r < 60
    ensures (60 * n + r) / 60 == n && (60 * n + r) % 60 == r
  {
  }

  /** The same day of consecutive years is at most 366 days apart. */
  lemma SameDayNextYear(y: int, m: int, d: int)
    requires ValidDate(Date(y, m, d)) && ValidDate(Date(y + 1, m, d))
    ensures DayNumber(Date(y, m, d)) < DayNumber(Date(y + 1, m, d)) <= DayNumber(Date(y, m, d)) + 366
  {
    YearStep(y);
    MonthTable(y, m);
    MonthTable(y + 1, m);
    LeapYearsApart(y);
    hide DaysBeforeYear, DaysBeforeMonth, IsLeap;
  }

  lemma LeapYearsApart(y: int)
    ensures !(IsLeap(y) && IsLeap(y + 1))
  {
  }

  /** A month and day that exist in every year, and a time of day, all admitted by the fields. */
  ghost predicate EveryYear(spec: CalendarSpec, m: nat, d: nat, h: nat, mi: nat, s: nat) {
    && 1 <= m <= 12 && 1 <= d <= (if m == 2 then 28 else MonthLength(1, m))
    && spec.month.Admits(m) && spec.day.Admits(d)
    && h < 24 && mi < 60 && s < 60 && spec.hour.Admits(h) && spec.minute.Admits(mi) && spec.second.Admits(s)
  }

  lemma FiresEveryYear(spec: CalendarSpec, y: int, m: nat, d: nat, h: nat, mi: nat, s: nat)
    requires spec.year.values.None? && spec.weekdays.values.None? && EveryYear(spec, m, d, h, mi, s)
    ensures ValidDate(Date(y, m, d)) && spec.Fires(InstantOf(Date(y, m, d), h, mi, s))
  {
    InstantFields(Date(y, m, d), h, mi, s);
    hide Year, Month, Day, Hour, Minute, Second, Weekday, InstantOf;
  }

  /** One of two consecutive anniversaries lies within 366 days after any instant. */
  lemma NextAnniversary(baseline: int, m: nat, d: nat, h: nat, mi: nat, s: nat) returns (y: int)
    requires 1 <= m <= 12 && 1 <= d <= (if m == 2 then 28 else MonthLength(1, m)) && h < 24 && mi < 60 && s < 60
    ensures ValidDate(Date(y, m, d)) && baseline < InstantOf(Date(y, m, d), h, mi, s) <= baseline + LOOKBACK
  {
    hide Year, DayNumber, DaysBeforeYear, IsLeap;
    y := Year(baseline);
    AnniversaryYear(y, m, d);
    AnniversaryYear(y + 1, m, d);
    SameDayNextYear(y, m, d);
    YearBefore(baseline, y);
    YearBefore(baseline, y + 1);
    YearStep(y);
    AnniversaryArithmetic(DaysBeforeYear(y), DaysBeforeYear(y + 1), baseline, DayNumber(Date(y, m, d)),
      DayNumber(Date(y + 1, m, d)), 3600 * h + 60 * mi + s);
    if InstantOf(Date(y, m, d), h, mi, s) <= baseline {
      y := y + 1;
    }
  }

  lemma AnniversaryArithmetic(start: int, end: int, baseline: int, n0: int, n1: int, time: int)
    requires start * SECONDS_PER_DAY <= baseline < end * SECONDS_PER_DAY && end <= start + 366
    requires 0 <= time < SECONDS_PER_DAY && n0 < end <= n1 <= n0 + 366
    ensures var t0, t1 := n0 * SECONDS_PER_DAY + time, n1 * SECONDS_PER_DAY + time;
      baseline < t1 && t0 <= baseline + LOOKBACK && (t0 <= baseline ==> t1 <= baseline + LOOKBACK)
  {
  }

  lemma AnniversaryYear(y: int, m: nat, d: nat)
    requires ValidDate(Date(y, m, d))
    ensures DaysBeforeYear(y) <= DayNumber(Date(y, m, d)) < DaysBeforeYear(y + 1)
  {
    WithinYear(Date(y, m, d));
    YearStep(y);
    hide DaysBeforeYear;
  }

  /** A schedule with wildcard year and weekday whose other fields admit a month and day that
      exist in every year fires within 366 days of any instant. */
  lemma FiresWithinAYear(spec: CalendarSpec, baseline: int)
    requires spec.year.values.None? && spec.weekdays.values.None?
    requires exists m, d, h, mi, s :: EveryYear(spec, m, d, h, mi, s)
    ensures var r := FirstFire(spec, baseline + 1, baseline + HORIZON);
      r.Some? && r.value <= baseline + LOOKBACK
  {
    var m, d, h, mi, s :| EveryYear(spec, m, d, h, mi, s);
    var y := NextAnniversary(baseline, m, d, h, mi, s);
    FiresEveryYear(spec, y, m, d, h, mi, s);
    hide CalendarSpec.Fires, FirstFire, InstantOf, EveryYear;
    var r := FirstFire(spec, baseline + 1, baseline + HORIZON);
    FirstFireMeans(spec, baseline + 1, baseline + HORIZON, r);
  }

  // ----- exactly when it fires -----

  /** A date and time of day the fields admit, in a leap year at least. */
  ghost predicate SomeYear(spec: CalendarSpec, m: nat, d: nat, h: nat, mi: nat, s: nat) {
    && 1 <= m <= 12 && 1 <= d <= MonthLength(4, m)
    && spec.month.Admits(m) && spec.day.Admits(d)
    && h < 24 && mi < 60 && s < 60 && spec.hour.Admits(h) && spec.minute.Admits(mi) && spec.second.Admits(s)
  }

  ghost predicate Possible(spec: CalendarSpec) {
    exists m, d, h, mi, s :: SomeYear(spec, m, d, h, mi, s)
  }

  /** Some year among the next eight is a leap year, even across a plain century. */
  lemma LeapYearSoon(y: int) returns (l: int)
    ensures y < l <= y + 8 && IsLeap(l)
  {
    var q := y / 4 + 1;
    l := 4 * q;
    assert l % 4 == 0;
    if !IsLeap(l) {
      NextMultipleIsLeap(l);
      l := l + 4;
    }
  }

  lemma NextMultipleIsLeap(l: int)
    requires l % 4 == 0 && l % 100 == 0
    ensures IsLeap(l + 4)
  {
    assert (l + 4) % 100 == 4;
  }

  /** With wildcard year and weekday, a schedule fires within the ten-year horizon exactly
      when its fields admit a date of a leap year; otherwise it never fires. */
  lemma FiresExactlyWhenPossible(spec: CalendarSpec, baseline: int)
    requires spec.year.values.None? && spec.weekdays.values.None?
    ensures FirstFire(spec, baseline + 1, baseline + HORIZON).Some? <==> Possible(spec)
    ensures !Possible(spec) ==> forall t :: !spec.Fires(t)
  {
    hide FirstFire;
    if Possible(spec) {
      var m, d, h, mi, s :| SomeYear(spec, m, d, h, mi, s);
      PossibleFires(spec, baseline, m, d, h, mi, s);
    } else {
      forall t ensures !spec.Fires(t) {
        if spec.Fires(t) {
          FiringIsPossible(spec, t);
        }
      }
      hide CalendarSpec.Fires;
      var r := FirstFire(spec, baseline + 1, baseline + HORIZON);
      FirstFireMeans(spec, baseline + 1, baseline + HORIZON, r);
    }
  }

  lemma FiringIsPossible(spec: CalendarSpec, t: int)
    requires spec.Fires(t)
    ensures Possible(spec)
  {
    hide DateOf;
    TimeFieldsInRange(t);
    assert MonthLength(Year(t), Month(t)) <= MonthLength(4, Month(t));
    assert SomeYear(spec, Month(t), Day(t), Hour(t), Minute(t), Second(t)) by {
      hide Hour, Minute, Second, DayOf;
    }
  }

  lemma TimeFieldsInRange(t: int)
    ensures 0 <= Hour(t) < 24 && 0 <= Minute(t) < 60 && 0 <= Second(t) < 60
  {
  }

  lemma PossibleFires(spec: CalendarSpec, baseline: int, m: nat, d: nat, h: nat, mi: nat, s: nat)
    requires spec.year.values.None? && spec.weekdays.values.None? && SomeYear(spec, m, d, h, mi, s)
    ensures FirstFire(spec, baseline + 1, baseline + HORIZON).Some?
  {
    if m == 2 && d == 29 {
      var l := LeapYearSoon(Year(baseline));
      var t := InstantOf(Date(l, m, d), h, mi, s);
      LeapDayFires(spec, l, h, mi, s);
      LeapDaySoon(baseline, l, h, mi, s);
      hide CalendarSpec.Fires, FirstFire, InstantOf, SomeYear;
      var r := FirstFire(spec, baseline + 1, baseline + HORIZON);
      FirstFireMeans(spec, baseline + 1, baseline + HORIZON, r);
      assert baseline + 1 <= t < baseline + HORIZON;
    } else {
      assert EveryYear(spec, m, d, h, mi, s);
      hide FirstFire, EveryYear, SomeYear;
      FiresWithinAYear(spec, baseline);
    }
  }

  lemma LeapDayFires(spec: CalendarSpec, l: int, h: nat, mi: nat, s: nat)
    requires spec.year.values.None? && spec.weekdays.values.None? && SomeYear(spec, 2, 29, h, mi, s) && IsLeap(l)
    ensures ValidDate(Date(l, 2, 29)) && spec.Fires(InstantOf(Date(l, 2, 29), h, mi, s))
  {
    InstantFields(Date(l, 2, 29), h, mi, s);
    hide Year, Month, Day, Hour, Minute, Second, Weekday, InstantOf;
  }

  lemma LeapDaySoon(baseline: int, l: int, h: nat, mi: nat, s: nat)
    requires Year(baseline) < l <= Year(baseline) + 8 && IsLeap(l) && h < 24 && mi < 60 && s < 60
    ensures baseline < InstantOf(Date(l, 2, 29), h, mi, s) < baseline + HORIZON
  {
    hide Year, DayNumber, DaysBeforeYear, IsLeap;
    var y := Year(baseline);
    YearBefore(baseline, y);
    YearBefore(baseline, l);
    YearsMonotone(y, l + 1);
    AnniversaryYear(l, 2, 29);
  }

  // ----- the horizon -----

  /** 29 February, if a Monday, at midnight. */
  const MONDAY_LEAP_DAY := CalendarSpec(
    FieldSet(Some([1])), FieldSet(None), FieldSet(Some([2])), FieldSet(Some([29])),
    FieldSet(Some([0])), FieldSet(Some([0])), FieldSet(Some([0])))

  lemma MondayLeapDayMeans(t: int)
    ensures MONDAY_LEAP_DAY.Fires(t) <==>
      Month(t) == 2 && Day(t) == 29 && Weekday(t) == 1 && Hour(t) == 0 && Minute(t) == 0 && Second(t) == 0
  {
    hide Year, Month, Day, Weekday, Hour, Minute, Second;
  }

  lemma LeapDayWeekdays()
    ensures DayNumber(Date(2028, 2, 29)) % 7 + 1 == 2 && DayNumber(Date(2032, 2, 29)) % 7 + 1 == 7
      && DayNumber(Date(2044, 2, 29)) % 7 + 1 == 1
  {
    MonthTable(2028, 2);
    MonthTable(2032, 2);
    MonthTable(2044, 2);
    assert DaysBeforeMonth(1, 2) == 31;
  }

  lemma FiresOnMondayLeapDay(d: Date)
    requires ValidDate(d) && d.month == 2 && d.day == 29 && DayNumber(d) % 7 + 1 == 1
    ensures MONDAY_LEAP_DAY.Fires(Midnight(d))
  {
    hide DateOf, DayNumber, DayOf, Hour, Minute, Second, CalendarSpec.Fires, ValidDate;
    InstantFields(d, 0, 0, 0);
    DayOfMidnight(d);
    MondayLeapDayMeans(Midnight(d));
  }

  lemma FiresIn2044()
    ensures MONDAY_LEAP_DAY.Fires(Midnight(Date(2044, 2, 29)))
  {
    hide DayNumber, CalendarSpec.Fires;
    LeapDayWeekdays();
    FiresOnMondayLeapDay(Date(2044, 2, 29));
  }

  lemma LeapYearsOfTheHorizon(y: int)
    requires 2025 <= y <= 2034 && IsLeap(y)
    ensures y == 2028 || y == 2032
  {
  }

  /** The instants of the horizon lie in 2024 after February, or in the ten years after. */
  lemma HorizonYears(t: int)
    requires Midnight(Date(2024, 3, 1)) < t < Midnight(Date(2024, 3, 1)) + HORIZON
    ensures Year(t) == 2024 ==> Month(t) >= 3
    ensures 2024 <= Year(t) <= 2034
  {
    BeforeMidnight(t, Date(2024, 3, 1));
    YearBefore(t, 2035);
    WithinYear(Date(2024, 3, 1));
    YearsMonotone(2024, 2035);
    hide DateOf, DayNumber, DaysBeforeYear;
  }

  lemma MondayLeapDayAbsent(t: int)
    requires Midnight(Date(2024, 3, 1)) < t < Midnight(Date(2024, 3, 1)) + HORIZON
    ensures !MONDAY_LEAP_DAY.Fires(t)
  {
    hide DateOf, DayNumber, DayOf, DaysBeforeYear, CalendarSpec.Fires, Hour, Minute, Second;
    LeapDayWeekdays();
    HorizonYears(t);
    MondayLeapDayMeans(t);
    if Month(t) == 2 && Day(t) == 29 {
      LeapYearsOfTheHorizon(Year(t));
      assert DateOf(DayOf(t)) == Date(Year(t), 2, 29);
      assert DayOf(t) == DayNumber(Date(Year(t), 2, 29));
    }
  }

  /** The ten-year horizon is not "never" once weekdays are constrained: from 1 March 2024 the
      search for a Monday 29 February gives up, though it comes round in 2044. */
  lemma HorizonMissesMondayLeapDay()
    ensures var baseline := Midnight(Date(2024, 3, 1));
      && MONDAY_LEAP_DAY.Valid()
      && FirstFire(MONDAY_LEAP_DAY, baseline + 1, baseline + HORIZON) == None
      && MONDAY_LEAP_DAY.Fires(Midnight(Date(2044, 2, 29)))
  {
    hide CalendarSpec.Fires, DayNumber;
    var spec, baseline := MONDAY_LEAP_DAY, Midnight(Date(2024, 3, 1));
    FiresIn2044();
    forall t | baseline + 1 <= t < baseline + HORIZON ensures !spec.Fires(t) {
      MondayLeapDayAbsent(t);
    }
    FirstFireMeans(spec, baseline + 1, baseline + HORIZON, None);
  }
}
