/** When the ten-year search horizon may be read as "never". */
module Horizons {
  import opened Wrappers
  import opened Civil
  import opened FieldSets
  import opened Schedule
  import opened ScheduleLiveness

  /** What the search from a baseline returns, by `NextFire`. */
  function Search(spec: CalendarSpec, baseline: int): Option<int> {
    FirstFire(spec, baseline + 1, baseline + HORIZON)
  }

  lemma SearchMeans(spec: CalendarSpec, baseline: int)
    ensures Search(spec, baseline).Some? <==> exists t :: baseline < t < baseline + HORIZON && spec.Fires(t)
  {
    hide CalendarSpec.Fires, FirstFire;
    FirstFireMeans(spec, baseline + 1, baseline + HORIZON, Search(spec, baseline));
  }

  /** Whenever the search finds nothing, from any baseline in range, nothing ever comes. */
  ghost predicate NoneMeansNever(spec: CalendarSpec) {
    forall baseline :: InRange(baseline) && Search(spec, baseline) == None ==> NeverAfter(spec, baseline)
  }

  ghost predicate NeverAfter(spec: CalendarSpec, baseline: int) {
    forall t :: t > baseline ==> !spec.Fires(t)
  }

  ghost predicate NeverFires(spec: CalendarSpec) {
    forall t :: !spec.Fires(t)
  }

  // ----- the calendar repeats every 400 years -----

  const CYCLE_DAYS := 146_097
  const CYCLE := CYCLE_DAYS * SECONDS_PER_DAY

  lemma YearCycle(y: int)
    ensures IsLeap(y + 400) == IsLeap(y) && DaysBeforeYear(y + 400) == DaysBeforeYear(y) + CYCLE_DAYS
  {
    ShiftFours(y);
    ShiftFours(y - 1);
    ShiftCenturies(y);
    ShiftCenturies(y - 1);
    assert (y + 400) % 400 == y % 400 && (y - 1 + 400) / 400 == (y - 1) / 400 + 1;
  }

  lemma ShiftFours(y: int)
    ensures (y + 400) % 4 == y % 4 && (y + 400) / 4 == y / 4 + 100
  {
  }

  lemma ShiftCenturies(y: int)
    ensures (y + 400) % 100 == y % 100 && (y + 400) / 100 == y / 100 + 4
  {
  }

  lemma DateCycle(d: Date)
    requires ValidDate(d)
    ensures ValidDate(d.(year := d.year + 400)) && DayNumber(d.(year := d.year + 400)) == DayNumber(d) + CYCLE_DAYS
  {
    YearCycle(d.year);
    MonthTable(d.year, d.month);
    MonthTable(d.year + 400, d.month);
    hide DaysBeforeYear, DaysBeforeMonth, IsLeap;
  }

  lemma DayCycle(n: int)
    ensures DateOf(n + CYCLE_DAYS) == DateOf(n).(year := DateOf(n).year + 400)
  {
    hide DateOf, DayNumber;
    DateCycle(DateOf(n));
    DateRoundTrip(DateOf(n).(year := DateOf(n).year + 400));
  }

  lemma TimeCycle(t: int)
    ensures DayOf(t + CYCLE) == DayOf(t) + CYCLE_DAYS && Weekday(t + CYCLE) == Weekday(t)
    ensures Hour(t + CYCLE) == Hour(t) && Minute(t + CYCLE) == Minute(t) && Second(t + CYCLE) == Second(t)
  {
    ShiftDays(t);
    ShiftHours(t);
    ShiftMinutes(t);
    ShiftWeeks(DayOf(t));
  }

  lemma ShiftDays(t: int)
    ensures (t + CYCLE) / SECONDS_PER_DAY == t / SECONDS_PER_DAY + CYCLE_DAYS
      && (t + CYCLE) % SECONDS_PER_DAY == t % SECONDS_PER_DAY
  {
  }

  lemma ShiftHours(t: int)
    ensures (t + CYCLE) % 3600 == t % 3600
  {
  }

  lemma ShiftMinutes(t: int)
    ensures (t + CYCLE) % 60 == t % 60
  {
  }

  lemma ShiftWeeks(n: int)
    ensures (n + CYCLE_DAYS) % 7 == n % 7
  {
  }

  lemma FiresCycle(spec: CalendarSpec, t: int)
    requires spec.year.values.None?
    ensures spec.Fires(t + CYCLE) == spec.Fires(t)
  {
    TimeCycle(t);
    DayCycle(DayOf(t));
    hide DateOf, DayOf, Weekday, Hour, Minute, Second;
  }

  lemma {:induction false} FiresCycles(spec: CalendarSpec, t: int, k: int)
    requires spec.year.values.None?
    ensures spec.Fires(t + k * CYCLE) == spec.Fires(t)
    decreases if k < 0 then -k else k
  {
    hide CalendarSpec.Fires;
    if k > 0 {
      FiresCycles(spec, t, k - 1);
      FiresCycle(spec, t + (k - 1) * CYCLE);
      assert t + (k - 1) * CYCLE + CYCLE == t + k * CYCLE;
    } else if k < 0 {
      FiresCycles(spec, t, k + 1);
      FiresCycle(spec, t + k * CYCLE);
      assert t + k * CYCLE + CYCLE == t + (k + 1) * CYCLE;
    }
  }

  /** Every firing of one 400-year cycle is followed by another less than ten years later. */
  ghost predicate GapsAreShort(spec: CalendarSpec) {
    forall t :: 0 <= t < CYCLE && spec.Fires(t) ==> FiresSoon(spec, t)
  }

  ghost predicate FiresSoon(spec: CalendarSpec, t: int) {
    exists next :: t < next < t + HORIZON && spec.Fires(next)
  }

  /** With wildcard year the gaps of one cycle are the gaps of all. */
  lemma GapsCycle(spec: CalendarSpec, t: int)
    requires spec.year.values.None? && GapsAreShort(spec) && spec.Fires(t)
    ensures FiresSoon(spec, t)
  {
    hide CalendarSpec.Fires;
    var k := -(t / CYCLE);
    assert t + k * CYCLE == t % CYCLE;
    FiresCycles(spec, t, k);
    var next :| t + k * CYCLE < next < t + k * CYCLE + HORIZON && spec.Fires(next);
    FiresCycles(spec, next, -k);
    assert next + (-k) * CYCLE == next - k * CYCLE;
  }

  /** From a firing at or before the baseline, short gaps lead past it. */
  lemma {:induction false} ClimbPast(spec: CalendarSpec, t: int, baseline: int)
    requires spec.year.values.None? && GapsAreShort(spec) && spec.Fires(t) && t <= baseline
    ensures FiresSoon(spec, baseline)
    decreases baseline - t
  {
    hide CalendarSpec.Fires, GapsAreShort;
    GapsCycle(spec, t);
    var next :| t < next < t + HORIZON && spec.Fires(next);
    if next <= baseline {
      ClimbPast(spec, next, baseline);
    }
  }

  // ----- year lists -----

  /** A listed year lies in 1970 to 2199. */
  lemma ListedYears(spec: CalendarSpec, t: int)
    requires spec.Valid() && spec.year.values.Some? && spec.Fires(t)
    ensures DaysBeforeYear(1970) * SECONDS_PER_DAY <= t < DaysBeforeYear(2200) * SECONDS_PER_DAY
  {
    YearBefore(t, 1970);
    YearBefore(t, 2200);
    assert 1970 <= Year(t) <= 2199;
    hide Year, DaysBeforeYear, CalendarSpec.Fires, CalendarSpec.Valid;
  }

  lemma BeforeListedYears(e: int)
    requires DaysBeforeYear(1970) * SECONDS_PER_DAY <= e < DaysBeforeYear(2200) * SECONDS_PER_DAY
    ensures InRange(e - HORIZON)
  {
  }

  /** A schedule with listed years that fires at all has a first firing, and ten years before that
      the search finds nothing. */
  lemma YearListsFail(spec: CalendarSpec, t: int) returns (baseline: int)
    requires spec.Valid() && spec.year.values.Some? && spec.Fires(t)
    ensures InRange(baseline) && Search(spec, baseline) == None && !NeverAfter(spec, baseline)
  {
    hide CalendarSpec.Fires, CalendarSpec.Valid, FirstFire, DaysBeforeYear, Search;
    var start := DaysBeforeYear(1970) * SECONDS_PER_DAY;
    ListedYears(spec, t);
    var r := FirstFire(spec, start, t + 1);
    FirstFireMeans(spec, start, t + 1, r);
    var e := r.value;
    ListedYears(spec, e);
    BeforeListedYears(e);
    baseline := e - HORIZON;
    forall x | baseline + 1 <= x < baseline + HORIZON ensures !spec.Fires(x) {
      if spec.Fires(x) {
        ListedYears(spec, x);
      }
    }
    SearchMeans(spec, baseline);
  }

  // ----- the exact conditions -----

  lemma CycleInRange(baseline: int)
    requires 0 <= baseline < CYCLE
    ensures InRange(baseline)
  {
  }

  /** The same schedule fires again after any baseline. */
  lemma FiresAgain(spec: CalendarSpec, t: int, baseline: int)
    requires spec.year.values.None? && spec.Fires(t)
    ensures !NeverAfter(spec, baseline)
  {
    hide CalendarSpec.Fires;
    var k := if baseline < t then 0 else (baseline - t) / CYCLE + 1;
    FiresCycles(spec, t, k);
    assert t + k * CYCLE > baseline;
  }

  /** Finding nothing within ten years means "never" exactly for schedules that never fire, and
      for those with wildcard year of which no two successive firings of one 400-year cycle are
      ten years or more apart: a condition on a finite list of dates. */
  lemma HorizonIsNeverExactly(spec: CalendarSpec)
    requires spec.Valid()
    ensures NoneMeansNever(spec) <==> NeverFires(spec) || (spec.year.values.None? && GapsAreShort(spec))
  {
    hide CalendarSpec.Fires, CalendarSpec.Valid, Search, InRange, GapsAreShort;
    if t :| spec.Fires(t) {
      if spec.year.values.Some? {
        var baseline := YearListsFail(spec, t);
      } else {
        forall baseline ensures !NeverAfter(spec, baseline) {
          FiresAgain(spec, t, baseline);
        }
        hide NeverAfter;
        if GapsAreShort(spec) {
          forall baseline ensures Search(spec, baseline).Some? {
            FoundEverywhere(spec, t, baseline);
          }
        } else {
          var baseline := LongGap(spec);
        }
      }
    }
  }

  /** A long gap starts at a baseline from which the search finds nothing. */
  lemma LongGap(spec: CalendarSpec) returns (baseline: int)
    requires !GapsAreShort(spec)
    ensures InRange(baseline) && Search(spec, baseline) == None
  {
    hide CalendarSpec.Fires, Search;
    baseline :| 0 <= baseline < CYCLE && spec.Fires(baseline) && !FiresSoon(spec, baseline);
    CycleInRange(baseline);
    SearchMeans(spec, baseline);
  }

  lemma FoundEverywhere(spec: CalendarSpec, t: int, baseline: int)
    requires spec.year.values.None? && GapsAreShort(spec) && spec.Fires(t)
    ensures Search(spec, baseline).Some?
  {
    hide CalendarSpec.Fires, GapsAreShort, Search;
    var k := (baseline - t) / CYCLE;
    FiresCycles(spec, t, k);
    assert t + k * CYCLE <= baseline;
    ClimbPast(spec, t + k * CYCLE, baseline);
    SearchMeans(spec, baseline);
  }

  /** With wildcard weekdays it means "never" exactly when the year is a wildcard too, or the schedule never
      fires. */
  lemma HorizonIsNeverForDates(spec: CalendarSpec)
    requires spec.Valid() && spec.weekdays.values.None?
    ensures NoneMeansNever(spec) <==> spec.year.values.None? || NeverFires(spec)
  {
    hide CalendarSpec.Fires, CalendarSpec.Valid, FirstFire, NeverAfter;
    HorizonIsNeverExactly(spec);
    if spec.year.values.None? && !NeverFires(spec) {
      forall baseline ensures Search(spec, baseline).Some? {
        FiresExactlyWhenPossible(spec, baseline);
      }
    }
  }

  // ----- ordinary schedules that fail -----

  /** `2040-01-01 00:00:00`, searched from 1 March 2024. */
  const NEW_YEAR_2040 := CalendarSpec(
    FieldSet(None), FieldSet(Some([2040])), FieldSet(Some([1])), FieldSet(Some([1])),
    FieldSet(Some([0])), FieldSet(Some([0])), FieldSet(Some([0])))

  lemma HorizonMissesNewYear2040(spec: CalendarSpec, baseline: int)
    requires spec == NEW_YEAR_2040 && baseline == Midnight(Date(2024, 3, 1))
    ensures spec.Valid() && spec.Fires(Midnight(Date(2040, 1, 1)))
    ensures Search(spec, baseline) == None
  {
    hide CalendarSpec.Fires, DayNumber, Search;
    forall t | baseline < t < baseline + HORIZON ensures !spec.Fires(t) {
      HorizonYears(t);
      NewYear2040Means(t);
    }
    FiresOn(spec, Date(2040, 1, 1));
    SearchMeans(spec, baseline);
  }

  lemma NewYear2040Means(t: int)
    ensures NEW_YEAR_2040.Fires(t) ==> Year(t) == 2040
  {
    hide Year, Month, Day, Hour, Minute, Second, Weekday;
  }

  lemma FiresOn(spec: CalendarSpec, d: Date)
    requires ValidDate(d) && spec.year.Admits(d.year) && spec.month.Admits(d.month) && spec.day.Admits(d.day)
    requires spec.weekdays.Admits(DayNumber(d) % 7 + 1)
    requires spec.hour.Admits(0) && spec.minute.Admits(0) && spec.second.Admits(0)
    ensures spec.Fires(Midnight(d))
  {
    hide DateOf, DayNumber, DayOf, Year, Month, Day, Hour, Minute, Second, ValidDate, FieldSet.Admits, Weekday;
    InstantFields(d, 0, 0, 0);
    WeekdayOfMidnight(d);
  }

  lemma WeekdayOfMidnight(d: Date)
    requires ValidDate(d)
    ensures Weekday(Midnight(d)) == DayNumber(d) % 7 + 1 && InstantOf(d, 0, 0, 0) == Midnight(d)
  {
    hide DateOf, DayNumber, DayOf, ValidDate;
    DayOfMidnight(d);
  }

  /** `Fri *-01-15 00:00:00`, searched from 15 January 2027: the next one is in 2038. */
  const FRIDAY_15_JANUARY := CalendarSpec(
    FieldSet(Some([5])), FieldSet(None), FieldSet(Some([1])), FieldSet(Some([15])),
    FieldSet(Some([0])), FieldSet(Some([0])), FieldSet(Some([0])))

  lemma FifteenthOfJanuary(y: int)
    ensures ValidDate(Date(y, 1, 15)) && DayNumber(Date(y, 1, 15)) == DaysBeforeYear(y) + 14
  {
  }

  /** Between 2028 and 2037 the 15th of January is never a Friday. */
  lemma NoFridays(y: int)
    requires 2028 <= y <= 2037
    ensures (DaysBeforeYear(y) + 14) % 7 + 1 != 5
  {
    if y == 2028 {
      assert DaysBeforeYear(2028) + 14 == 740360;
    } else if y == 2029 {
      assert DaysBeforeYear(2029) + 14 == 740726;
    } else if y == 2030 {
      assert DaysBeforeYear(2030) + 14 == 741091;
    } else if y == 2031 {
      assert DaysBeforeYear(2031) + 14 == 741456;
    } else if y == 2032 {
      assert DaysBeforeYear(2032) + 14 == 741821;
    } else if y == 2033 {
      assert DaysBeforeYear(2033) + 14 == 742187;
    } else if y == 2034 {
      assert DaysBeforeYear(2034) + 14 == 742552;
    } else if y == 2035 {
      assert DaysBeforeYear(2035) + 14 == 742917;
    } else if y == 2036 {
      assert DaysBeforeYear(2036) + 14 == 743282;
    } else if y == 2037 {
      assert DaysBeforeYear(2037) + 14 == 743648;
    }
  }

  lemma TwoFridays()
    ensures (DaysBeforeYear(2027) + 14) % 7 + 1 == 5 && (DaysBeforeYear(2038) + 14) % 7 + 1 == 5
    ensures DaysBeforeYear(2038) - DaysBeforeYear(2027) == 4018
  {
  }

  lemma FridayAbsent(t: int)
    requires Midnight(Date(2027, 1, 15)) < t < Midnight(Date(2027, 1, 15)) + HORIZON
    ensures !FRIDAY_15_JANUARY.Fires(t)
  {
    hide DateOf, DayNumber, DayOf, DaysBeforeYear, Hour, Minute, Second;
    FifteenthOfJanuary(2027);
    TwoFridays();
    FridayMeans(t);
    hide CalendarSpec.Fires;
    if FRIDAY_15_JANUARY.Fires(t) {
      var y := Year(t);
      FifteenthOfJanuary(y);
      assert DateOf(DayOf(t)) == Date(y, 1, 15) && DayOf(t) == DayNumber(Date(y, 1, 15));
      OnlyMidnights(t);
      FridayYears(y);
      NoFridays(y);
    }
  }

  lemma FridayMeans(t: int)
    ensures FRIDAY_15_JANUARY.Fires(t) <==>
      Month(t) == 1 && Day(t) == 15 && DayOf(t) % 7 + 1 == 5 && Hour(t) == 0 && Minute(t) == 0 && Second(t) == 0
  {
    hide DateOf, DayOf, Hour, Minute, Second;
  }

  lemma OnlyMidnights(t: int)
    requires Hour(t) == 0 && Minute(t) == 0 && Second(t) == 0
    ensures t == DayOf(t) * SECONDS_PER_DAY
  {
    var n, r := DayOf(t), t % SECONDS_PER_DAY;
    assert t == n * SECONDS_PER_DAY + r && 0 <= r < 3600;
    SplitHour(24 * n, r);
    assert 0 <= r < 60;
    SplitMinute(1440 * n, r);
  }

  /** Years whose 15 January lies strictly between those of 2027 and 2038. */
  lemma FridayYears(y: int)
    requires DaysBeforeYear(2027) < DaysBeforeYear(y) < DaysBeforeYear(2038)
    ensures 2028 <= y <= 2037
  {
    hide DaysBeforeYear;
    if y < 2027 {
      YearsMonotone(y, 2027);
    } else if y > 2038 {
      YearsMonotone(2038, y);
    }
  }

  lemma HorizonMissesFriday15January(spec: CalendarSpec, baseline: int)
    requires spec == FRIDAY_15_JANUARY && baseline == Midnight(Date(2027, 1, 15))
    ensures spec.Valid() && spec.Fires(baseline) && spec.Fires(Midnight(Date(2038, 1, 15)))
    ensures Search(spec, baseline) == None
  {
    FifteenthOfJanuary(2027);
    FifteenthOfJanuary(2038);
    TwoFridays();
    hide DayNumber, DaysBeforeYear, CalendarSpec.Fires, Search;
    FiresOn(spec, Date(2027, 1, 15));
    FiresOn(spec, Date(2038, 1, 15));
    forall t | baseline < t < baseline + HORIZON ensures !spec.Fires(t) {
      FridayAbsent(t);
    }
    SearchMeans(spec, baseline);
  }
}
