/** The proleptic Gregorian calendar, as the `time` crate provides it: day numbers, dates and
    whole-second instants at a fixed offset. Day 0 is Monday, 1 January of year 1. */
module Civil {
  const SECONDS_PER_DAY := 86_400
  const MIN_YEAR := -9999
  const MAX_YEAR := 9999

  datatype Date = Date(year: int, month: int, day: int)

  predicate IsLeap(y: int) {
    y % 4 == 0 && (y % 100 != 0 || y % 400 == 0)
  }

  function YearLength(y: int): int {
    if IsLeap(y) then 366 else 365
  }

  function MonthLength(y: int, m: int): int {
    if m == 2 then (if IsLeap(y) then 29 else 28)
    else if m == 4 || m == 6 || m == 9 || m == 11 then 30
    else 31
  }

  predicate ValidDate(d: Date) {
    1 <= d.month <= 12 && 1 <= d.day <= MonthLength(d.year, d.month)
  }

  /** Days from day 0 to 1 January of `y`. */
  function DaysBeforeYear(y: int): int {
    var p := y - 1;
    365 * p + p / 4 - p / 100 + p / 400
  }

  /** Days from 1 January to the first of month `m`; month 13 is the end of the year. */
  function DaysBeforeMonth(y: int, m: int): int
    requires 1 <= m <= 13
  {
    if m == 1 then 0 else DaysBeforeMonth(y, m - 1) + MonthLength(y, m - 1)
  }

  function MonthStartDay(y: int, m: int): int
    requires 1 <= m <= 13
  {
    DaysBeforeYear(y) + DaysBeforeMonth(y, m)
  }

  function DayNumber(d: Date): int
    requires ValidDate(d)
  {
    MonthStartDay(d.year, d.month) + d.day - 1
  }

  // ----- leap rule and month lengths -----

  /** The closed form steps by exactly the leap rule. */
  lemma YearStep(y: int)
    ensures DaysBeforeYear(y + 1) == DaysBeforeYear(y) + YearLength(y)
  {
    QuotientStep(y, 4);
    QuotientStep(y, 100);
    QuotientStep(y, 400);
    Divides(y, 100, 4);
    Divides(y, 4, 25);
  }

  /** A multiple of `k * f` is a multiple of `k`. */
  lemma Divides(y: int, k: int, f: int)
    requires (k == 100 && f == 4) || (k == 4 && f == 25)
    ensures y % (k * f) == 0 ==> y % k == 0
  {
    var q := y / (k * f);
    assert y == k * f * q + y % (k * f);
    if k == 100 {
      assert (100 * (4 * q)) % 100 == 0;
    } else {
      assert (4 * (25 * q)) % 4 == 0;
    }
  }

  lemma QuotientStep(y: int, k: int)
    requires k in {4, 100, 400}
    ensures y / k == (y - 1) / k + if y % k == 0 then 1 else 0
  {
  }

  /** Two years agree on the days before each month, but for the leap day. */
  lemma {:induction false} MonthTable(y: int, m: int)
    requires 1 <= m <= 13
    ensures DaysBeforeMonth(y, m) == DaysBeforeMonth(1, m) + if m > 2 && IsLeap(y) then 1 else 0
  {
    if m > 1 {
      MonthTable(y, m - 1);
    }
  }

  /** The days before each month, in every year. */
  lemma MonthStarts(y: int)
    ensures var leap := if y % 4 == 0 && (y % 100 != 0 || y % 400 == 0) then 1 else 0;
      && DaysBeforeMonth(y, 1) == 0 && DaysBeforeMonth(y, 2) == 31
      && DaysBeforeMonth(y, 3) == 59 + leap && DaysBeforeMonth(y, 4) == 90 + leap
      && DaysBeforeMonth(y, 5) == 120 + leap && DaysBeforeMonth(y, 6) == 151 + leap
      && DaysBeforeMonth(y, 7) == 181 + leap && DaysBeforeMonth(y, 8) == 212 + leap
      && DaysBeforeMonth(y, 9) == 243 + leap && DaysBeforeMonth(y, 10) == 273 + leap
      && DaysBeforeMonth(y, 11) == 304 + leap && DaysBeforeMonth(y, 12) == 334 + leap
      && DaysBeforeMonth(y, 13) == 365 + leap
  {
    var feb := DaysBeforeMonth(y, 3);
    assert DaysBeforeMonth(y, 2) == 31 && DaysBeforeMonth(y, 4) == feb + 31;
    assert DaysBeforeMonth(y, 5) == feb + 61 && DaysBeforeMonth(y, 6) == feb + 92;
    assert DaysBeforeMonth(y, 7) == feb + 122 && DaysBeforeMonth(y, 8) == feb + 153;
    assert DaysBeforeMonth(y, 9) == feb + 184 && DaysBeforeMonth(y, 10) == feb + 214;
    assert DaysBeforeMonth(y, 11) == feb + 245 && DaysBeforeMonth(y, 12) == feb + 275;
  }

  /** The twelve months add up to the year. */
  lemma MonthsFillYear(y: int)
    ensures DaysBeforeMonth(y, 13) == YearLength(y)
    ensures MonthStartDay(y, 13) == DaysBeforeYear(y + 1)
  {
    MonthStarts(y);
    YearStep(y);
    hide DaysBeforeYear;
  }

  lemma {:induction false} YearsMonotone(a: int, b: int)
    requires a < b
    ensures DaysBeforeYear(a) + 365 * (b - a) <= DaysBeforeYear(b) <= DaysBeforeYear(a) + 366 * (b - a)
    decreases b - a
  {
    hide DaysBeforeYear;
    YearStep(b - 1);
    if a < b - 1 {
      YearsMonotone(a, b - 1);
    }
  }

  lemma {:induction false} MonthsMonotone(y: int, a: int, b: int)
    requires 1 <= a < b <= 13
    ensures DaysBeforeMonth(y, a) + MonthLength(y, a) <= DaysBeforeMonth(y, b)
    decreases b - a
  {
    if a < b - 1 {
      MonthsMonotone(y, a, b - 1);
    }
  }

  // ----- from day numbers back to dates -----

  /** Searches upwards for the year of day `n`. */
  function YearFrom(n: int, y: int): (r: int)
    requires DaysBeforeYear(y) <= n
    ensures DaysBeforeYear(r) <= n < DaysBeforeYear(r + 1)
    decreases n - DaysBeforeYear(y)
  {
    YearStep(y);
    if n < DaysBeforeYear(y + 1) then y else YearFrom(n, y + 1)
  }

  function YearOfDay(n: int): (r: int)
    ensures DaysBeforeYear(r) <= n < DaysBeforeYear(r + 1)
  {
    var guess := 1 + if n >= 0 then n / 366 else n / 365;
    GuessIsEarly(n);
    YearFrom(n, guess)
  }

  lemma GuessIsEarly(n: int)
    ensures DaysBeforeYear(1 + if n >= 0 then n / 366 else n / 365) <= n
  {
    if n >= 0 {
      if n / 366 > 0 {
        YearsMonotone(1, 1 + n / 366);
      }
    } else {
      YearsMonotone(1 + n / 365, 1);
    }
  }

  /** Searches upwards for the month of the given day of the year. */
  function MonthFrom(y: int, doy: int, m: int): (r: int)
    requires 1 <= m <= 12 && DaysBeforeMonth(y, m) <= doy < YearLength(y)
    ensures 1 <= r <= 12 && DaysBeforeMonth(y, r) <= doy < DaysBeforeMonth(y, r + 1)
    decreases 12 - m
  {
    MonthsFillYear(y);
    if doy < DaysBeforeMonth(y, m + 1) then m else MonthFrom(y, doy, m + 1)
  }

  function DateOf(n: int): (d: Date)
    ensures ValidDate(d) && DayNumber(d) == n
  {
    var y := YearOfDay(n);
    YearStep(y);
    var doy := n - DaysBeforeYear(y);
    var m := MonthFrom(y, doy, 1);
    Date(y, m, doy - DaysBeforeMonth(y, m) + 1)
  }

  predicate Earlier(a: Date, b: Date) {
    a.year < b.year || (a.year == b.year && (a.month < b.month || (a.month == b.month && a.day < b.day)))
  }

  /** The day number orders dates exactly as the calendar does; in particular it is injective. */
  lemma DayNumberMonotone(a: Date, b: Date)
    requires ValidDate(a) && ValidDate(b)
    ensures Earlier(a, b) <==> DayNumber(a) < DayNumber(b)
    ensures DayNumber(a) == DayNumber(b) <==> a == b
  {
    hide DaysBeforeYear, DaysBeforeMonth;
    if Earlier(a, b) {
      EarlierIsSmaller(a, b);
    } else if a != b {
      EarlierIsSmaller(b, a);
    }
  }

  lemma EarlierIsSmaller(a: Date, b: Date)
    requires ValidDate(a) && ValidDate(b) && Earlier(a, b)
    ensures DayNumber(a) < DayNumber(b)
  {
    WithinYear(a);
    WithinYear(b);
    if a.year < b.year {
      YearStep(a.year);
      if a.year + 1 < b.year {
        YearsMonotone(a.year + 1, b.year);
      }
    } else if a.month < b.month {
      MonthsMonotone(a.year, a.month, b.month);
    }
    hide DaysBeforeYear, DaysBeforeMonth;
  }

  lemma WithinYear(d: Date)
    requires ValidDate(d)
    ensures DaysBeforeYear(d.year) <= DayNumber(d) < DaysBeforeYear(d.year) + YearLength(d.year)
  {
    MonthsFillYear(d.year);
    MonthsMonotone(d.year, d.month, 13);
    if d.month > 1 {
      MonthsMonotone(d.year, 1, d.month);
    }
    hide DaysBeforeYear;
  }

  /** Reading back the date of a day number gives the date it was made from. */
  lemma DateRoundTrip(d: Date)
    requires ValidDate(d)
    ensures DateOf(DayNumber(d)) == d
  {
    DayNumberMonotone(DateOf(DayNumber(d)), d);
    hide DayNumber, DateOf;
  }

  // ----- instants -----

  function DayOf(t: int): int { t / SECONDS_PER_DAY }
  function Year(t: int): int { DateOf(DayOf(t)).year }
  function Month(t: int): int { DateOf(DayOf(t)).month }
  function Day(t: int): int { DateOf(DayOf(t)).day }
  /** 1 is Monday, 7 is Sunday. */
  function Weekday(t: int): int { DayOf(t) % 7 + 1 }
  function Hour(t: int): int { t % SECONDS_PER_DAY / 3600 }
  function Minute(t: int): int { t % 3600 / 60 }
  function Second(t: int): int { t % 60 }

  /** Midnight of a date. */
  function Midnight(d: Date): int
    requires ValidDate(d)
  {
    DayNumber(d) * SECONDS_PER_DAY
  }

  const MIN_INSTANT: int := DaysBeforeYear(MIN_YEAR) * SECONDS_PER_DAY
  const MAX_INSTANT: int := DaysBeforeYear(MAX_YEAR + 1) * SECONDS_PER_DAY - 1

  predicate Representable(t: int) { MIN_INSTANT <= t <= MAX_INSTANT }

  lemma DayOfMidnight(d: Date)
    requires ValidDate(d)
    ensures DayOf(Midnight(d)) == DayNumber(d) && DateOf(DayOf(Midnight(d))) == d
  {
    DateRoundTrip(d);
    hide DayNumber, DateOf;
  }

  /** Instants before the midnight of a date are exactly those whose date is earlier. */
  lemma BeforeMidnight(t: int, d: Date)
    requires ValidDate(d)
    ensures t < Midnight(d) <==> Earlier(DateOf(DayOf(t)), d)
  {
    DayNumberMonotone(DateOf(DayOf(t)), d);
    hide DateOf, DayNumber;
    assert t < DayNumber(d) * SECONDS_PER_DAY <==> t / SECONDS_PER_DAY < DayNumber(d);
  }

  lemma YearBefore(t: int, y: int)
    ensures t < DaysBeforeYear(y) * SECONDS_PER_DAY <==> Year(t) < y
    ensures Midnight(Date(y, 1, 1)) == DaysBeforeYear(y) * SECONDS_PER_DAY
  {
    BeforeMidnight(t, Date(y, 1, 1));
    hide DateOf, DaysBeforeYear;
  }

  lemma YearsInRange(t: int)
    requires Representable(t)
    ensures MIN_YEAR <= Year(t) <= MAX_YEAR
  {
    YearBefore(t, MIN_YEAR);
    YearBefore(t, MAX_YEAR + 1);
    hide DateOf, DaysBeforeYear;
  }
}
