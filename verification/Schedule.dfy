/** Calendar next-fire computation: a field-by-field skip-ahead search. */
module Schedule {
  import opened Wrappers
  import opened Civil
  import opened FieldSets

  /** A parsed `OnCalendar=` value, without its timezone and raw text. */
  datatype CalendarSpec = CalendarSpec(weekdays: FieldSet, year: FieldSet, month: FieldSet, day: FieldSet,
                                       hour: FieldSet, minute: FieldSet, second: FieldSet)
  {
    /** Each list is sorted and within the range of its field, as the parser leaves it. */
    predicate Valid() {
      && weekdays.Valid(1, 7) && year.Valid(1970, 2199) && month.Valid(1, 12) && day.Valid(1, 31)
      && hour.Valid(0, 23) && minute.Valid(0, 59) && second.Valid(0, 59)
    }

    /** All seven fields admit the instant. */
    predicate Fires(t: int) {
      && year.Admits(Year(t)) && month.Admits(Month(t)) && day.Admits(Day(t)) && weekdays.Admits(Weekday(t))
      && hour.Admits(Hour(t)) && minute.Admits(Minute(t)) && second.Admits(Second(t))
    }
  }

  const HORIZON := 366 * 10 * SECONDS_PER_DAY
  const LOOKBACK := 366 * SECONDS_PER_DAY
  const PREV_FIRE_CAP := 200_000

  /** The naive search: the first instant of `[from, limit)` that fires. */
  function FirstFire(spec: CalendarSpec, from: int, limit: int): Option<int>
    decreases limit - from
  {
    if from >= limit then None
    else if spec.Fires(from) then Some(from)
    else FirstFire(spec, from + 1, limit)
  }

  /** `r` is the least firing instant of `[from, limit)`, or there is none. */
  ghost predicate IsFirstFire(spec: CalendarSpec, from: int, limit: int, r: Option<int>) {
    && (r.Some? ==> from <= r.value < limit && spec.Fires(r.value))
    && (forall t :: from <= t < (if r.Some? then r.value else limit) ==> !spec.Fires(t))
  }

  /** The naive search returns exactly that. */
  lemma {:induction false} FirstFireMeans(spec: CalendarSpec, from: int, limit: int, r: Option<int>)
    ensures r == FirstFire(spec, from, limit) <==> IsFirstFire(spec, from, limit, r)
    decreases limit - from
  {
    hide CalendarSpec.Fires;
    if from < limit && !spec.Fires(from) {
      FirstFireMeans(spec, from + 1, limit, r);
    }
  }

  // ----- the helpers that build instants -----

  /** The `as u32` cast of a year. */
  function AsU32(y: int): nat
    requires MIN_YEAR <= y <= MAX_YEAR
  {
    if y >= 0 then y else y + U32_LIMIT
  }

  function AtDate(d: Date): Option<int> {
    if MIN_YEAR <= d.year <= MAX_YEAR && ValidDate(d) then Some(Midnight(d)) else None
  }

  function AtYearStart(y: int): Option<int> { AtDate(Date(y, 1, 1)) }
  function AtMonthStart(y: int, m: int): Option<int> { AtDate(Date(y, m, 1)) }
  function AtDayStart(y: int, m: int, d: int): Option<int> { AtDate(Date(y, m, d)) }

  function AtHour(t: int, h: int): Option<int> {
    if 0 <= h < 24 then Some(t - t % SECONDS_PER_DAY + 3600 * h) else None
  }

  function AtMinute(t: int, m: int): Option<int> {
    if 0 <= m < 60 then Some(t - t % 3600 + 60 * m) else None
  }

  function AtSecond(t: int, s: int): Option<int> {
    if 0 <= s < 60 then Some(t - t % 60 + s) else None
  }

  function CheckedAdd(t: int, seconds: int): Option<int> {
    if Representable(t + seconds) then Some(t + seconds) else None
  }

  /** Days between the firsts of this month and the next, or 31 where the next is out of range. */
  function DaysInMonth(y: int, m: int): int
    requires 1 <= m <= 12
  {
    var next := if m == 12 then Date(y + 1, 1, 1) else Date(y, m + 1, 1);
    if AtDate(next).Some? && AtDate(Date(y, m, 1)).Some? then DayNumber(next) - DayNumber(Date(y, m, 1)) else 31
  }

  /** That is the calendar's month length, for every representable year. */
  lemma DaysInMonthIsMonthLength(y: int, m: int)
    requires MIN_YEAR <= y <= MAX_YEAR && 1 <= m <= 12
    ensures DaysInMonth(y, m) == MonthLength(y, m)
  {
    if m == 12 {
      MonthsFillYear(y);
    }
    hide DaysBeforeYear;
  }

  // ----- skipping -----

  /** The skip from `c` jumps over non-firing instants only; `None` gives up on the horizon. */
  ghost predicate Skips(spec: CalendarSpec, c: int, limit: int, r: Option<int>) {
    && (r.Some? ==> c < r.value)
    && (forall t :: c <= t < limit && (r.Some? ==> t < r.value) ==> !spec.Fires(t))
  }

  /** Between an instant and a later midnight, dates stay between theirs. */
  lemma DateBlock(c: int, t: int, d: Date)
    requires ValidDate(d) && c <= t < Midnight(d)
    ensures !Earlier(DateOf(DayOf(t)), DateOf(DayOf(c))) && Earlier(DateOf(DayOf(t)), d)
  {
    BeforeMidnight(t, d);
    DayNumberMonotone(DateOf(DayOf(t)), DateOf(DayOf(c)));
    hide DateOf, DayNumber;
  }

  /** A later date has a later midnight, past the current instant. */
  lemma LaterMidnight(c: int, d: Date)
    requires ValidDate(d) && Earlier(DateOf(DayOf(c)), d)
    ensures c < Midnight(d)
  {
    BeforeMidnight(c, d);
    hide DateOf, DayNumber;
  }

  /** A date past the representable years lies beyond every limit. */
  lemma BeyondRange(d: Date, t: int)
    requires ValidDate(d) && d.year > MAX_YEAR && t <= MAX_INSTANT
    ensures t < Midnight(d)
  {
    YearBefore(t, MAX_YEAR + 1);
    BeforeMidnight(t, d);
    hide DateOf, DayNumber, DaysBeforeYear;
  }

  /** A jump to a later date is sound if no date in between fires. */
  lemma DateSkip(spec: CalendarSpec, c: int, limit: int, d: Date)
    requires Representable(c) && limit <= MAX_INSTANT
    requires ValidDate(d) && Earlier(DateOf(DayOf(c)), d)
    requires forall t ::
      (c <= t < limit && !Earlier(DateOf(DayOf(t)), DateOf(DayOf(c))) && Earlier(DateOf(DayOf(t)), d)) ==>
        !spec.Fires(t)
    ensures Skips(spec, c, limit, AtDate(d))
  {
    hide DateOf, DayNumber, CalendarSpec.Fires;
    LaterMidnight(c, d);
    YearsInRange(c);
    forall t | c <= t < limit && (AtDate(d).Some? ==> t < AtDate(d).value) ensures !spec.Fires(t) {
      if AtDate(d).None? {
        BeyondRange(d, t);
      }
      DateBlock(c, t, d);
    }
  }

  method SkipYear(spec: CalendarSpec, c: int, limit: int) returns (r: Option<int>)
    requires spec.Valid() && Representable(c) && c < limit <= MAX_INSTANT && limit <= c + HORIZON
    requires !spec.year.Admits(Year(c))
    ensures Skips(spec, c, limit, r)
  {
    hide DateOf, DayNumber, Midnight, DaysBeforeYear, DaysBeforeMonth, DaysInMonth, AtDate;
    YearsInRange(c);
    var y := Year(c);
    var next := NextInSet(spec.year, AsU32(y), 1970, 2199);
    if next.None? {
      forall t | c <= t < limit ensures !spec.Fires(t) {
        YearsAhead(c, t);
      }
      return None;
    }
    r := AtYearStart(next.value);
    forall t | c <= t < limit && !Earlier(DateOf(DayOf(t)), DateOf(DayOf(c)))
      && Earlier(DateOf(DayOf(t)), Date(next.value, 1, 1))
      ensures !spec.Fires(t)
    {
      assert y <= Year(t) < next.value;
    }
    DateSkip(spec, c, limit, Date(next.value, 1, 1));
  }

  /** Within the horizon the year advances by at most eleven. */
  lemma YearsAhead(c: int, t: int)
    requires c <= t < c + HORIZON
    ensures Year(c) <= Year(t) <= Year(c) + 11
  {
    var y := Year(c);
    YearBefore(t, y);
    YearBefore(c, y);
    YearBefore(c, y + 1);
    YearBefore(t, y + 12);
    YearsMonotone(y + 1, y + 12);
    hide DateOf, DaysBeforeYear;
  }

  method SkipMonth(spec: CalendarSpec, c: int, limit: int) returns (r: Option<int>)
    requires spec.Valid() && Representable(c) && c < limit <= MAX_INSTANT
    requires !spec.month.Admits(Month(c))
    ensures Skips(spec, c, limit, r)
  {
    hide DateOf, DayNumber, Midnight, DaysBeforeYear, DaysBeforeMonth, DaysInMonth, Skips, AtDate;
    var cur := Month(c);
    var next := NextInSet(spec.month, cur, 1, 12);
    ghost var d;
    if next.Some? && next.value > cur {
      r, d := AtMonthStart(Year(c), next.value), Date(Year(c), next.value, 1);
    } else {
      r, d := AtYearStart(Year(c) + 1), Date(Year(c) + 1, 1, 1);
    }
    forall t | c <= t < limit && !Earlier(DateOf(DayOf(t)), DateOf(DayOf(c))) && Earlier(DateOf(DayOf(t)), d)
      ensures !spec.Fires(t)
    {
      assert Year(t) == Year(c) && cur <= Month(t) <= 12;
    }
    DateSkip(spec, c, limit, d);
  }

  /** The first of the month after the one `c` is in. */
  function NextMonth(y: int, m: int): Date {
    if m + 1 > 12 then Date(y + 1, 1, 1) else Date(y, m + 1, 1)
  }

  method SkipDay(spec: CalendarSpec, c: int, limit: int) returns (r: Option<int>)
    requires spec.Valid() && Representable(c) && c < limit <= MAX_INSTANT
    requires !spec.day.Admits(Day(c))
    ensures Skips(spec, c, limit, r)
  {
    hide DateOf, DayNumber, Midnight, DaysBeforeYear, DaysBeforeMonth, DaysInMonth, Skips, AtDate;
    YearsInRange(c);
    var y, m, cur := Year(c), Month(c), Day(c);
    DaysInMonthIsMonthLength(y, m);
    var maxDay := DaysInMonth(y, m);
    var next := NextInSet(spec.day, cur, 1, maxDay);
    ghost var d;
    if next.Some? && next.value > cur && next.value <= maxDay {
      r, d := AtDayStart(y, m, next.value), Date(y, m, next.value);
    } else if m + 1 > 12 {
      r, d := AtYearStart(y + 1), NextMonth(y, m);
    } else {
      r, d := AtMonthStart(y, m + 1), NextMonth(y, m);
    }
    forall t | c <= t < limit && !Earlier(DateOf(DayOf(t)), DateOf(DayOf(c))) && Earlier(DateOf(DayOf(t)), d)
      ensures !spec.Fires(t)
    {
      assert Year(t) == y && Month(t) == m && cur <= Day(t) <= maxDay;
    }
    DateSkip(spec, c, limit, d);
  }

  method SkipWeekday(spec: CalendarSpec, c: int, limit: int) returns (r: Option<int>)
    requires spec.Valid() && Representable(c) && c < limit <= MAX_INSTANT
    requires !spec.weekdays.Admits(Weekday(c))
    ensures Skips(spec, c, limit, r)
  {
    hide DateOf, DayNumber, Midnight, DaysBeforeYear, DaysBeforeMonth, DaysInMonth, Skips, AtDate;
    YearsInRange(c);
    var y, m, newDay := Year(c), Month(c), Day(c) + 1;
    DaysInMonthIsMonthLength(y, m);
    ghost var d;
    if newDay > DaysInMonth(y, m) {
      d := NextMonth(y, m);
      r := if m + 1 > 12 then AtYearStart(y + 1) else AtMonthStart(y, m + 1);
    } else {
      r, d := AtDayStart(y, m, newDay), Date(y, m, newDay);
    }
    forall t | c <= t < limit && !Earlier(DateOf(DayOf(t)), DateOf(DayOf(c))) && Earlier(DateOf(DayOf(t)), d)
      ensures !spec.Fires(t)
    {
      assert DateOf(DayOf(t)) == DateOf(DayOf(c));
      assert DayNumber(DateOf(DayOf(t))) == DayNumber(DateOf(DayOf(c)));
    }
    DateSkip(spec, c, limit, d);
  }

  /** A jump within or just past the day is sound if nothing before its end fires. */
  lemma TimeSkip(spec: CalendarSpec, c: int, limit: int, r: Option<int>, end: int)
    requires c < end && limit <= MAX_INSTANT
    requires forall t :: c <= t < end ==> !spec.Fires(t)
    requires r == Some(end) || (r == None && end > MAX_INSTANT)
    ensures Skips(spec, c, limit, r)
  {
    hide CalendarSpec.Fires;
  }

  method SkipHour(spec: CalendarSpec, c: int, limit: int) returns (r: Option<int>)
    requires spec.Valid() && Representable(c) && c < limit <= MAX_INSTANT
    requires !spec.hour.Admits(Hour(c))
    ensures Skips(spec, c, limit, r)
  {
    hide CalendarSpec.Fires, Skips;
    var cur := Hour(c);
    var next := NextInSet(spec.hour, cur, 0, 23);
    ghost var end: int;
    if next.Some? && next.value > cur {
      r := AtHour(c, next.value);
      end := c - c % SECONDS_PER_DAY + 3600 * next.value;
      HourBlock(c, next.value);
    } else {
      var tomorrow := CheckedAdd(c, SECONDS_PER_DAY);
      r := if tomorrow.Some? then Some(tomorrow.value - tomorrow.value % SECONDS_PER_DAY) else None;
      end := c - c % SECONDS_PER_DAY + 3600 * 24;
      HourBlock(c, 24);
    }
    forall t | c <= t < end ensures !spec.Fires(t) {
      HourMisses(spec, t);
    }
    TimeSkip(spec, c, limit, r, end);
  }

  lemma HourMisses(spec: CalendarSpec, t: int)
    requires !spec.hour.Admits(Hour(t))
    ensures !spec.Fires(t)
  {
    hide Year, Month, Day, Weekday;
  }

  /** Until hour `h` of the same day (24: until midnight), the hour stays in `[Hour(c), h)`. */
  lemma HourBlock(c: int, h: int)
    requires Hour(c) < h <= 24
    ensures var end := c - c % SECONDS_PER_DAY + 3600 * h;
      c < end && (h == 24 ==> end == c + SECONDS_PER_DAY - (c + SECONDS_PER_DAY) % SECONDS_PER_DAY)
      && forall t :: c <= t < end ==> Hour(c) <= Hour(t) < h
  {
    var base, end := c - c % SECONDS_PER_DAY, c - c % SECONDS_PER_DAY + 3600 * h;
    forall t | c <= t < end ensures Hour(c) <= Hour(t) < h {
      assert t % SECONDS_PER_DAY == t - base;
    }
  }

  method SkipMinute(spec: CalendarSpec, c: int, limit: int) returns (r: Option<int>)
    requires spec.Valid() && Representable(c) && c < limit <= MAX_INSTANT
    requires !spec.minute.Admits(Minute(c))
    ensures Skips(spec, c, limit, r)
  {
    hide CalendarSpec.Fires, Skips;
    var cur := Minute(c);
    var next := NextInSet(spec.minute, cur, 0, 59);
    ghost var end: int;
    if next.Some? && next.value > cur {
      r := AtMinute(c, next.value);
      end := c - c % 3600 + 60 * next.value;
      MinuteBlock(c, next.value);
    } else {
      var later := CheckedAdd(c, 3600);
      r := if later.Some? then Some(later.value - later.value % 3600) else None;
      end := c - c % 3600 + 60 * 60;
      MinuteBlock(c, 60);
    }
    forall t | c <= t < end ensures !spec.Fires(t) {
      MinuteMisses(spec, t);
    }
    TimeSkip(spec, c, limit, r, end);
  }

  lemma MinuteMisses(spec: CalendarSpec, t: int)
    requires !spec.minute.Admits(Minute(t))
    ensures !spec.Fires(t)
  {
    hide Year, Month, Day, Weekday;
  }

  lemma MinuteBlock(c: int, m: int)
    requires Minute(c) < m <= 60
    ensures var end := c - c % 3600 + 60 * m;
      c < end && (m == 60 ==> end == c + 3600 - (c + 3600) % 3600)
      && forall t :: c <= t < end ==> Minute(c) <= Minute(t) < m
  {
    var base, end := c - c % 3600, c - c % 3600 + 60 * m;
    forall t | c <= t < end ensures Minute(c) <= Minute(t) < m {
      assert t % 3600 == t - base;
    }
  }

  method SkipSecond(spec: CalendarSpec, c: int, limit: int) returns (r: Option<int>)
    requires spec.Valid() && Representable(c) && c < limit <= MAX_INSTANT
    requires !spec.second.Admits(Second(c))
    ensures Skips(spec, c, limit, r)
  {
    hide CalendarSpec.Fires, Skips;
    var cur := Second(c);
    var next := NextInSet(spec.second, cur, 0, 59);
    ghost var end: int;
    if next.Some? && next.value >= cur {
      r := AtSecond(c, next.value);
      end := c - c % 60 + next.value;
      SecondBlock(c, next.value);
    } else {
      var later := CheckedAdd(c, 60);
      r := if later.Some? then Some(later.value - later.value % 60) else None;
      end := c - c % 60 + 60;
      SecondBlock(c, 60);
    }
    forall t | c <= t < end ensures !spec.Fires(t) {
      SecondMisses(spec, t);
    }
    TimeSkip(spec, c, limit, r, end);
  }

  lemma SecondMisses(spec: CalendarSpec, t: int)
    requires !spec.second.Admits(Second(t))
    ensures !spec.Fires(t)
  {
    hide Year, Month, Day, Weekday;
  }

  lemma SecondBlock(c: int, s: int)
    requires Second(c) < s <= 60
    ensures var end := c - c % 60 + s;
      c < end && (s == 60 ==> end == c + 60 - (c + 60) % 60)
      && forall t :: c <= t < end ==> Second(c) <= Second(t) < s
  {
    var base, end := c - c % 60, c - c % 60 + s;
    forall t | c <= t < end ensures Second(c) <= Second(t) < s {
      assert t % 60 == t - base;
    }
  }

  // ----- next_fire -----

  /** The later of `now` and the last fire: results lie strictly after it. */
  function Baseline(now: int, last: Option<int>): int {
    if last.Some? && last.value > now then last.value else now
  }

  /** The instants around which the search is in range of the `time` crate. */
  predicate InRange(t: int) {
    MIN_INSTANT <= t && t + HORIZON <= MAX_INSTANT
  }

  /** The field-by-field search finds exactly what the naive search finds. */
  method NextFire(now: int, spec: CalendarSpec, last: Option<int>) returns (r: Option<int>)
    requires spec.Valid() && InRange(Baseline(now, last))
    ensures r == FirstFire(spec, Baseline(now, last) + 1, Baseline(now, last) + HORIZON)
  {
    hide CalendarSpec.Fires, Skips, FirstFire;
    var baseline := Baseline(now, last);
    var candidate := baseline + 1;
    var limit := baseline + HORIZON;
    while candidate < limit
      invariant baseline < candidate
      invariant forall t :: baseline < t < candidate && t < limit ==> !spec.Fires(t)
      decreases limit - candidate
    {
      var found, next := Step(spec, candidate, limit);
      if found {
        if candidate > baseline {
          FirstFireMeans(spec, baseline + 1, limit, Some(candidate));
          return Some(candidate);
        }
        candidate := candidate + 1;
      } else {
        SkipsMeans(spec, candidate, limit, next);
        if next.None? {
          FirstFireMeans(spec, baseline + 1, limit, None);
          return None;
        }
        candidate := next.value;
      }
    }
    FirstFireMeans(spec, baseline + 1, limit, None);
    return None;
  }

  lemma SkipsMeans(spec: CalendarSpec, c: int, limit: int, r: Option<int>)
    requires Skips(spec, c, limit, r)
    ensures r.Some? ==> c < r.value
    ensures forall t :: c <= t < limit && (r.Some? ==> t < r.value) ==> !spec.Fires(t)
  {
  }

  /** One round of the loop: tries the fields from coarsest to finest and skips on the first
      that does not match. */
  method Step(spec: CalendarSpec, candidate: int, limit: int) returns (found: bool, next: Option<int>)
    requires spec.Valid() && Representable(candidate) && candidate < limit <= MAX_INSTANT
      && limit <= candidate + HORIZON
    ensures found ==> spec.Fires(candidate)
    ensures !found ==> Skips(spec, candidate, limit, next)
  {
    hide Skips, DateOf, FieldSet.Matches, FieldSet.Valid;
    YearsInRange(candidate);
    found, next := false, None;
    MatchesIsAdmits(spec.year, AsU32(Year(candidate)), 1970, 2199);
    MatchesIsAdmits(spec.month, Month(candidate), 1, 12);
    MatchesIsAdmits(spec.day, Day(candidate), 1, 31);
    MatchesIsAdmits(spec.weekdays, Weekday(candidate), 1, 7);
    MatchesIsAdmits(spec.hour, Hour(candidate), 0, 23);
    MatchesIsAdmits(spec.minute, Minute(candidate), 0, 59);
    MatchesIsAdmits(spec.second, Second(candidate), 0, 59);
    CastIsHarmless(spec.year, Year(candidate));
    if !spec.year.Matches(AsU32(Year(candidate))) {
      next := SkipYear(spec, candidate, limit);
    } else if !spec.month.Matches(Month(candidate)) {
      next := SkipMonth(spec, candidate, limit);
    } else if !spec.day.Matches(Day(candidate)) {
      next := SkipDay(spec, candidate, limit);
    } else if !spec.weekdays.Matches(Weekday(candidate)) {
      next := SkipWeekday(spec, candidate, limit);
    } else if !spec.hour.Matches(Hour(candidate)) {
      next := SkipHour(spec, candidate, limit);
    } else if !spec.minute.Matches(Minute(candidate)) {
      next := SkipMinute(spec, candidate, limit);
    } else if !spec.second.Matches(Second(candidate)) {
      next := SkipSecond(spec, candidate, limit);
    } else {
      found := true;
    }
  }

  /** For listed years, casting a negative year to `u32` does not make it match. */
  lemma CastIsHarmless(fs: FieldSet, y: int)
    requires fs.Valid(1970, 2199) && MIN_YEAR <= y <= MAX_YEAR
    ensures fs.Admits(AsU32(y)) <==> fs.Admits(y)
  {
  }

  // ----- prev_fire -----

  /** Every firing instant of `(lo, hi]`, in order. */
  function FiringTimes(spec: CalendarSpec, lo: int, hi: int): seq<int>
    decreases hi - lo
  {
    if hi <= lo then [] else FiringTimes(spec, lo, hi - 1) + if spec.Fires(hi) then [hi] else []
  }

  lemma {:induction false} FiringTimesMean(spec: CalendarSpec, lo: int, hi: int)
    ensures var ts := FiringTimes(spec, lo, hi);
      && (forall t :: t in ts <==> lo < t <= hi && spec.Fires(t))
      && (forall i, j :: 0 <= i < j < |ts| ==> ts[i] < ts[j])
    decreases hi - lo
  {
    hide CalendarSpec.Fires;
    if lo < hi {
      FiringTimesMean(spec, lo, hi - 1);
      var before := FiringTimes(spec, lo, hi - 1);
      assert forall i :: 0 <= i < |before| ==> before[i] in before;
    }
  }

  lemma {:induction false} FiresSplit(spec: CalendarSpec, lo: int, mid: int, hi: int)
    requires lo <= mid <= hi
    ensures FiringTimes(spec, lo, hi) == FiringTimes(spec, lo, mid) + FiringTimes(spec, mid, hi)
    decreases hi - mid
  {
    hide CalendarSpec.Fires;
    if mid < hi {
      FiresSplit(spec, lo, mid, hi - 1);
    }
  }

  lemma {:induction false} NoFires(spec: CalendarSpec, lo: int, hi: int)
    requires forall t :: lo < t <= hi ==> !spec.Fires(t)
    ensures FiringTimes(spec, lo, hi) == []
    decreases hi - lo
  {
    hide CalendarSpec.Fires;
    if lo < hi {
      NoFires(spec, lo, hi - 1);
    }
  }

  /** The last firing instant of the lookback window, or the 200,000th if there are more. */
  ghost function LastFire(spec: CalendarSpec, before: int): Option<int> {
    var ts := FiringTimes(spec, before - LOOKBACK, before);
    if ts == [] then None
    else Some(ts[(if |ts| <= PREV_FIRE_CAP then |ts| else PREV_FIRE_CAP) - 1])
  }

  method PrevFire(before: int, spec: CalendarSpec) returns (last: Option<int>)
    requires spec.Valid() && InRange(before) && InRange(before - LOOKBACK)
    ensures last == LastFire(spec, before)
  {
    hide CalendarSpec.Fires, CalendarSpec.Valid, FiringTimes, FirstFire;
    var start := before - LOOKBACK;
    var cursor := start;
    last := None;
    ghost var ts := FiringTimes(spec, start, before);
    var i := 0;
    NoFires(spec, start, start);
    while i < PREV_FIRE_CAP
      invariant 0 <= i <= PREV_FIRE_CAP && start <= cursor <= before
      invariant FiringTimes(spec, start, cursor) <= ts && |FiringTimes(spec, start, cursor)| == i
      invariant last == if i == 0 then None else Some(ts[i - 1])
    {
      var next := NextFire(cursor, spec, None);
      FirstFireMeans(spec, cursor + 1, cursor + HORIZON, next);
      if next.Some? && next.value <= before {
        FiresStep(spec, start, cursor, next.value, before);
        last := next;
        cursor := next.value;
      } else {
        FiresSplit(spec, start, cursor, before);
        NoFires(spec, cursor, before);
        break;
      }
      i := i + 1;
    }
    FiresSplit(spec, start, cursor, before);
  }

  /** The next firing instant extends the list of those found so far. */
  lemma FiresStep(spec: CalendarSpec, start: int, cursor: int, next: int, before: int)
    requires start <= cursor < next <= before && spec.Fires(next)
    requires forall t :: cursor < t < next ==> !spec.Fires(t)
    ensures FiringTimes(spec, start, next) == FiringTimes(spec, start, cursor) + [next]
    ensures FiringTimes(spec, start, next) <= FiringTimes(spec, start, before)
  {
    hide CalendarSpec.Fires;
    FiresSplit(spec, start, cursor, next - 1);
    NoFires(spec, cursor, next - 1);
    FiresSplit(spec, start, next, before);
  }

  /** `prev_fire` finds the latest firing instant of its window exactly when the window holds
      at most 200,000 of them, and it finds none exactly when there is none. */
  lemma PrevFireIsLatestExactly(spec: CalendarSpec, before: int)
    ensures LastFire(spec, before) == None <==> forall t :: before - LOOKBACK < t <= before ==> !spec.Fires(t)
    ensures var r := LastFire(spec, before);
      r.Some? ==> before - LOOKBACK < r.value <= before && spec.Fires(r.value)
    ensures var r := LastFire(spec, before);
      r.Some? ==> ((forall t :: r.value < t <= before ==> !spec.Fires(t)) <==>
        |FiringTimes(spec, before - LOOKBACK, before)| <= PREV_FIRE_CAP)
  {
    hide CalendarSpec.Fires, FiringTimes;
    var ts := FiringTimes(spec, before - LOOKBACK, before);
    FiringTimesMean(spec, before - LOOKBACK, before);
    if ts != [] {
      assert ts[0] in ts && spec.Fires(ts[0]);
      var r := LastFire(spec, before);
      assert r.value in ts;
      if |ts| > PREV_FIRE_CAP {
        assert r.value == ts[PREV_FIRE_CAP - 1];
        assert ts[PREV_FIRE_CAP] in ts && spec.Fires(ts[PREV_FIRE_CAP]);
      } else {
        assert forall i :: 0 <= i < |ts| ==> ts[i] <= r.value;
        assert forall t :: t in ts ==> t <= r.value;
      }
    }
  }
}
