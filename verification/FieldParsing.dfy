/** Parsing the fields of a calendar specification. */
module FieldParsing {
  import opened Wrappers
  import opened Strings
  import opened FieldSets

  datatype FieldError = BadNumber | OutOfRange | StepZero | StepOverflow | UnknownWeekday

  /** A stepped range, as one comma-separated chunk denotes it. */
  datatype Stride = Stride(first: nat, last: nat, step: nat)
  {
    /** The values the range stands for: its start plus whole steps, up to its end. */
    predicate Holds(v: int) {
      v <= last && step > 0 && Reaches(first, v, step)
    }
  }

  /** `v` is `first` plus a whole number of steps. */
  predicate Reaches(first: int, v: int, step: nat)
    requires step > 0
    decreases v - first
  {
    v == first || (v > first && Reaches(first + step, v, step))
  }

  /** In closed form: the values reached are `first + k * step`. */
  lemma {:induction false} ReachesMultiple(first: int, k: nat, step: nat)
    requires step > 0
    ensures Reaches(first, first + k * step, step)
    decreases k
  {
    if k > 0 {
      ReachesMultiple(first + step, k - 1, step);
      assert first + step + (k - 1) * step == first + k * step;
    }
  }

  lemma {:induction false} ReachedCount(first: int, v: int, step: nat) returns (k: nat)
    requires step > 0 && Reaches(first, v, step)
    ensures v == first + k * step
    decreases v - first
  {
    if v == first {
      k := 0;
    } else {
      var j := ReachedCount(first + step, v, step);
      k := j + 1;
    }
  }

  /** The last value of a range that is not past its end. */
  function LastStep(first: int, last: int, step: nat): int
    requires step > 0
    decreases last - first
  {
    if first + step <= last then LastStep(first + step, last, step) else first
  }

  // ----- numbers -----

  predicate IsDigit(c: char) { '0' <= c <= '9' }

  predicate AllDigits(s: string) { forall i :: 0 <= i < |s| ==> IsDigit(s[i]) }

  function DigitValue(c: char): nat
    requires IsDigit(c)
  {
    c as int - '0' as int
  }

  function Digits(s: string): nat
    requires AllDigits(s)
  {
    if s == [] then 0 else 10 * Digits(s[..|s| - 1]) + DigitValue(s[|s| - 1])
  }

  /** `str::parse::<u32>`: decimal digits after an optional plus sign, within 32 bits. */
  function ParseU32(s: string): Option<nat> {
    var ds := if s != [] && s[0] == '+' then s[1..] else s;
    if ds == [] || !AllDigits(ds) then None
    else if Digits(ds) >= U32_LIMIT then None
    else Some(Digits(ds))
  }

  /** Splits at the first `..`. */
  function SplitDots(s: string): Option<(string, string)> {
    if |s| < 2 then None
    else if s[0] == '.' && s[1] == '.' then Some(("", s[2..]))
    else
      match SplitDots(s[1..])
      case None => None
      case Some((a, b)) => Some(([s[0]] + a, b))
  }

  // ----- one chunk -----

  function ParseRange(range: string, lo: nat, hi: nat): Option<(nat, nat)> {
    if range == "*" then Some((lo, hi)) else
      match SplitDots(range)
      case Some((a, b)) =>
        if ParseU32(a).Some? && ParseU32(b).Some? then Some((ParseU32(a).value, ParseU32(b).value)) else None
      case None =>
        if ParseU32(range).Some? then Some((ParseU32(range).value, ParseU32(range).value)) else None
  }

  function ParseChunk(chunk: string, lo: nat, hi: nat): (r: Result<Stride, FieldError>)
    ensures r.Ok? ==> lo <= r.value.first <= r.value.last <= hi
  {
    var parts := SplitOnce(chunk, '/');
    var step := if parts.Some? then ParseU32(parts.value.1) else Some(1);
    var range := ParseRange(if parts.Some? then parts.value.0 else chunk, lo, hi);
    if step.None? || range.None? then Err(BadNumber)
    else if range.value.0 > range.value.1 || range.value.0 < lo || range.value.1 > hi then Err(OutOfRange)
    else Ok(Stride(range.value.0, range.value.1, step.value))
  }

  /** Stepping past the last value leaves 32 bits. */
  predicate Overflows(st: Stride)
    requires st.step > 0 && st.first <= st.last
  {
    LastStep(st.first, st.last, st.step) + st.step >= U32_LIMIT
  }

  /** What a chunk contributes, or why it fails. */
  function ChunkOutcome(chunk: string, lo: nat, hi: nat): (r: Result<Stride, FieldError>)
    ensures r.Ok? ==> lo <= r.value.first <= r.value.last <= hi && r.value.step > 0 && !Overflows(r.value)
  {
    match ParseChunk(chunk, lo, hi)
    case Err(e) => Err(e)
    case Ok(st) => if st.step == 0 then Err(StepZero) else if Overflows(st) then Err(StepOverflow) else Ok(st)
  }

  // ----- sorting -----

  /** Inserts into a sorted list, keeping it sorted and free of duplicates. */
  function InsertValue(vs: seq<nat>, v: nat): (r: seq<nat>)
    requires Sorted(vs)
    ensures Sorted(r) && forall x :: x in r <==> x in vs || x == v
  {
    if vs == [] then [v]
    else if v < vs[0] then
      assert forall x :: x in [v] + vs <==> x in vs || x == v;
      [v] + vs
    else if v == vs[0] then vs
    else
      var r := InsertValue(vs[1..], v);
      assert vs == [vs[0]] + vs[1..];
      assert forall i :: 0 <= i < |r| ==> r[i] in r;
      assert forall i :: 0 <= i < |vs[1..]| ==> vs[0] < vs[1..][i];
      [vs[0]] + r
  }

  /** `sort_unstable` followed by `dedup`. */
  function SortDedup(vs: seq<nat>): (r: seq<nat>)
    ensures Sorted(r) && forall x :: x in r <==> x in vs
  {
    if vs == [] then [] else
      var n := |vs| - 1;
      assert vs == vs[..n] + [vs[n]];
      InsertValue(SortDedup(vs[..n]), vs[n])
  }

  // ----- parse_field -----

  /** `values` holds exactly what the first `n` chunks denote. */
  ghost predicate Collected(chunks: seq<string>, lo: nat, hi: nat, n: nat, values: seq<nat>)
    requires n <= |chunks|
  {
    && (forall i :: 0 <= i < n ==> ChunkOutcome(chunks[i], lo, hi).Ok?)
    && (forall v :: v in values <==> exists i :: 0 <= i < n && ChunkOutcome(chunks[i], lo, hi).value.Holds(v))
  }

  /** The first chunk that fails fails with `e`. */
  ghost predicate FirstFailure(chunks: seq<string>, lo: nat, hi: nat, e: FieldError) {
    exists i :: 0 <= i < |chunks| && ChunkOutcome(chunks[i], lo, hi) == Err(e)
      && forall j :: 0 <= j < i ==> ChunkOutcome(chunks[j], lo, hi).Ok?
  }

  /** Parses a field: a wildcard, or the sorted union of its chunks; the first chunk that
      fails decides the error. */
  method ParseField(s: string, lo: nat, hi: nat) returns (r: Result<FieldSet, FieldError>)
    requires hi < U32_LIMIT
    ensures s == "*" ==> r == Ok(FieldSet(None))
    ensures s != "*" && r.Ok? ==> r.value.values.Some? && r.value.Valid(lo, hi) && r.value.values.value != []
    ensures s != "*" && r.Ok? ==> Collected(Split(s, ','), lo, hi, |Split(s, ',')|, r.value.values.value)
    ensures r.Err? ==> s != "*" && FirstFailure(Split(s, ','), lo, hi, r.error)
  {
    hide ParseChunk, Split;
    if s == "*" {
      return Ok(FieldSet(None));
    }
    var chunks := Split(s, ',');
    var values: seq<nat> := [];
    for i := 0 to |chunks|
      invariant Collected(chunks, lo, hi, i, values)
      invariant forall v :: v in values ==> lo <= v <= hi
      invariant i > 0 ==> values != []
    {
      var st := ParseChunk(chunks[i], lo, hi);
      if st.Err? {
        return Err(st.error);
      }
      var more := Walk(st.value, lo, hi);
      if more.Err? {
        return Err(more.error);
      }
      assert ChunkOutcome(chunks[i], lo, hi) == Ok(st.value);
      CollectOne(chunks, lo, hi, i, values, more.value);
      values := values + more.value;
    }
    var sorted := SortDedup(values);
    assert values[0] in sorted;
    return Ok(FieldSet(Some(sorted)));
  }

  lemma CollectOne(chunks: seq<string>, lo: nat, hi: nat, i: nat, values: seq<nat>, more: seq<nat>)
    requires i < |chunks| && Collected(chunks, lo, hi, i, values) && ChunkOutcome(chunks[i], lo, hi).Ok?
    requires forall v :: v in more <==> ChunkOutcome(chunks[i], lo, hi).value.Holds(v)
    ensures Collected(chunks, lo, hi, i + 1, values + more)
  {
    hide ChunkOutcome, Stride.Holds;
  }

  /** The stepping loop over one range. */
  method Walk(st: Stride, lo: nat, hi: nat) returns (r: Result<seq<nat>, FieldError>)
    requires lo <= st.first <= st.last <= hi < U32_LIMIT
    ensures r.Err? <==> st.step == 0 || Overflows(st)
    ensures r.Err? ==> r.error == if st.step == 0 then StepZero else StepOverflow
    ensures r.Ok? ==> r.value != [] && forall v :: v in r.value <==> st.Holds(v)
    ensures r.Ok? ==> forall v :: v in r.value ==> lo <= v <= hi
  {
    var values: seq<nat> := [];
    var v := st.first;
    while v <= st.last
      invariant st.first <= v
      invariant st.step == 0 ==> v == st.first
      invariant v > st.first ==> values != []
      invariant st.step > 0 && v <= st.last ==> LastStep(v, st.last, st.step) == LastStep(st.first, st.last, st.step)
      invariant st.step > 0 && v > st.last ==> v - st.step == LastStep(st.first, st.last, st.step) && v < U32_LIMIT
      invariant st.step > 0 ==> forall x :: st.Holds(x) <==> x in values || (x <= st.last && Reaches(v, x, st.step))
      invariant forall x :: x in values ==> lo <= x <= hi
      decreases st.last + 1 - v
    {
      values := values + [v];
      if st.step == 0 {
        return Err(StepZero);
      }
      if v + st.step >= U32_LIMIT {
        LastIsEnd(v, st);
        return Err(StepOverflow);
      }
      v := v + st.step;
    }
    forall x | st.Holds(x) ensures x in values {
      if x <= st.last && Reaches(v, x, st.step) {
        ReachesUp(v, x, st.step);
      }
    }
    return Ok(values);
  }

  lemma LastIsEnd(v: int, st: Stride)
    requires st.step > 0 && v <= st.last < v + st.step
    ensures LastStep(v, st.last, st.step) == v
  {
  }

  lemma {:induction false} ReachesUp(first: int, v: int, step: nat)
    requires step > 0 && Reaches(first, v, step)
    ensures first <= v
    decreases v - first
  {
    if v != first {
      ReachesUp(first + step, v, step);
    }
  }

  // ----- parse_weekdays -----

  function WeekdayNum(s: string): Option<nat> {
    match s
    case "Mon" => Some(1)
    case "Tue" => Some(2)
    case "Wed" => Some(3)
    case "Thu" => Some(4)
    case "Fri" => Some(5)
    case "Sat" => Some(6)
    case "Sun" => Some(7)
    case _ => None
  }

  /** A single weekday, or a range of them. */
  function WeekdayRange(chunk: string): Option<(nat, nat)> {
    match SplitDots(chunk)
    case Some((a, b)) =>
      if WeekdayNum(a).Some? && WeekdayNum(b).Some? then Some((WeekdayNum(a).value, WeekdayNum(b).value)) else None
    case None =>
      if WeekdayNum(chunk).Some? then Some((WeekdayNum(chunk).value, WeekdayNum(chunk).value)) else None
  }

  /** Weekday `v` is met walking round the week from `a` to `b`. */
  predicate InWeek(a: nat, b: nat, v: int) {
    1 <= v <= 7 && (v - a) % 7 <= (b - a) % 7
  }

  ghost predicate DaysCollected(chunks: seq<string>, n: nat, days: seq<nat>)
    requires n <= |chunks|
  {
    && (forall i :: 0 <= i < n ==> WeekdayRange(chunks[i]).Some?)
    && (forall v :: v in days <==>
         exists i :: 0 <= i < n && InWeek(WeekdayRange(chunks[i]).value.0, WeekdayRange(chunks[i]).value.1, v))
  }

  /** Parses the weekday prefix; a range may wrap round the end of the week. */
  method ParseWeekdays(s: string) returns (r: Result<FieldSet, FieldError>)
    ensures r.Err? ==>
      r.error == UnknownWeekday && exists i :: 0 <= i < |Split(s, ',')| && WeekdayRange(Split(s, ',')[i]).None?
    ensures r.Ok? ==>
      && r.value.values.Some? && r.value.Valid(1, 7)
      && DaysCollected(Split(s, ','), |Split(s, ',')|, r.value.values.value)
  {
    hide Split, WeekdayRange, InWeek;
    var chunks := Split(s, ',');
    var out: seq<nat> := [];
    for i := 0 to |chunks|
      invariant DaysCollected(chunks, i, out)
      invariant forall v :: v in out ==> 1 <= v <= 7
    {
      var range := WeekdayRange(chunks[i]);
      if range.None? {
        return Err(UnknownWeekday);
      }
      WeekdaysInRange(chunks[i]);
      var more := WeekdaysBetween(range.value.0, range.value.1);
      assert forall v :: v in more ==> 1 <= v <= 7;
      out := out + more;
    }
    return Ok(FieldSet(Some(SortDedup(out))));
  }

  lemma WeekdaysInRange(chunk: string)
    ensures WeekdayRange(chunk).Some? ==> 1 <= WeekdayRange(chunk).value.0 <= 7 && 1 <= WeekdayRange(chunk).value.1 <= 7
  {
    hide SplitDots;
  }

  lemma InWeekMeans(a: nat, b: nat, v: int)
    requires 1 <= a <= 7 && 1 <= b <= 7
    ensures InWeek(a, b, v) <==> if a <= b then a <= v <= b else a <= v <= 7 || 1 <= v <= b
  {
    assert v >= a && v <= 7 ==> (v - a) % 7 == v - a;
    assert 1 <= v < a ==> (v - a) % 7 == v - a + 7;
  }

  method WeekdaysBetween(a: nat, b: nat) returns (days: seq<nat>)
    requires 1 <= a <= 7 && 1 <= b <= 7
    ensures forall v :: v in days <==> InWeek(a, b, v)
    ensures forall v :: v in days ==> 1 <= v <= 7
  {
    hide InWeek;
    forall v: int ensures InWeek(a, b, v) <==> if a <= b then a <= v <= b else a <= v <= 7 || 1 <= v <= b {
      InWeekMeans(a, b, v);
    }
    days := [];
    if a <= b {
      for n := a to b + 1
        invariant forall v :: v in days <==> a <= v < n
      {
        days := days + [n];
      }
    } else {
      for n := a to 8
        invariant forall v :: v in days <==> a <= v < n
      {
        days := days + [n];
      }
      for n := 1 to b + 1
        invariant forall v :: v in days <==> a <= v < 8 || 1 <= v < n
      {
        days := days + [n];
      }
    }
  }
}
