/** The windowed rate limiter behind `TriggerLimitIntervalSec=` and `TriggerLimitBurst=`. */
module TriggerLimiters {
  import opened Wrappers

  /** The limiter's fields; instants and the interval are in one unit of a monotone clock. */
  datatype Limiter = Limiter(burst: nat, interval: Option<nat>, windowStarted: Option<int>, count: nat)
  {
    /** The call falls into the current window, whose end is inclusive. */
    predicate InWindow(now: int) {
      interval.Some? && windowStarted.Some? && now - windowStarted.value <= interval.value
    }

    predicate Allows(now: int) {
      interval.None? || !InWindow(now) || count < burst
    }

    /** The limiter after a call at `now`. */
    function After(now: int): Limiter {
      if interval.None? then this
      else if !InWindow(now) then this.(windowStarted := Some(now), count := 1)
      else if count < burst then this.(count := count + 1)
      else this
    }
  }

  class TriggerLimiter {
    var burst: nat
    var interval: Option<nat>
    var windowStarted: Option<int>
    var count: nat

    ghost function State(): Limiter
      reads this
    {
      Limiter(burst, interval, windowStarted, count)
    }

    /** Burst defaults to 200; a burst without an interval gets two seconds. */
    constructor FromUnit(limitBurst: Option<nat>, limitInterval: Option<nat>, second: nat)
      ensures State() == Limiter(
        if limitBurst.Some? then limitBurst.value else 200,
        if limitInterval.None? && limitBurst.Some? then Some(2 * second) else limitInterval, None, 0)
    {
      burst := if limitBurst.Some? then limitBurst.value else 200;
      interval := if limitInterval.None? && limitBurst.Some? then Some(2 * second) else limitInterval;
      windowStarted, count := None, 0;
    }

    /** Whether a trigger is allowed now; updates the counter. */
    method Allow(now: int) returns (ok: bool)
      modifies this
      ensures ok == old(State()).Allows(now) && State() == old(State()).After(now)
    {
      if interval.None? {
        return true;
      }
      if windowStarted.Some? && now - windowStarted.value <= interval.value {
        if count >= burst {
          return false;
        }
        count := count + 1;
        return true;
      }
      windowStarted := Some(now);
      count := 1;
      return true;
    }
  }

  // ----- whole runs -----

  /** How many of the calls at `times` are accepted within `[a, b]`. */
  function Accepted(l: Limiter, times: seq<int>, a: int, b: int): nat
    decreases |times|
  {
    if times == [] then 0
    else (if l.Allows(times[0]) && a <= times[0] <= b then 1 else 0) + Accepted(l.After(times[0]), times[1..], a, b)
  }

  /** The clock never goes back, and stays at or after `now`. */
  ghost predicate Monotone(times: seq<int>, now: int) {
    (forall i :: 0 <= i < |times| ==> now <= times[i]) && (forall i, j :: 0 <= i < j < |times| ==> times[i] <= times[j])
  }

  function Cap(l: Limiter): nat { if l.burst > 1 then l.burst else 1 }

  /** What the calls after `now` can still add to the span `[a, a + d]`, `d` the interval. */
  ghost function Room(l: Limiter, now: int, a: int): nat
    requires l.interval.Some? && (l.windowStarted.Some? ==> 1 <= l.count <= Cap(l))
  {
    if l.windowStarted.None? then 2 * Cap(l) - 1
    else if l.windowStarted.value > a + l.interval.value then 0
    else if l.windowStarted.value >= a then Cap(l) - l.count
    else if now < a then 2 * Cap(l) - 1
    else 2 * Cap(l) - l.count
  }

  lemma {:induction false} AcceptedFitsRoom(l: Limiter, times: seq<int>, now: int, a: int)
    requires l.interval.Some? && Monotone(times, now)
    requires l.windowStarted.Some? ==> l.windowStarted.value <= now && 1 <= l.count <= Cap(l)
    ensures Accepted(l, times, a, a + l.interval.value) <= Room(l, now, a)
    decreases |times|
  {
    if times != [] {
      var t := times[0];
      AcceptedFitsRoom(l.After(t), times[1..], t, a);
    }
  }

  /** Over any run of a fresh limiter with an interval, any span no longer than the interval
      holds at most `2 * max(burst, 1) - 1` accepted calls. */
  lemma SpanBound(l: Limiter, times: seq<int>, now: int, a: int, b: int)
    requires l.interval.Some? && l.windowStarted.None? && Monotone(times, now) && b - a <= l.interval.value
    ensures Accepted(l, times, a, b) <= 2 * Cap(l) - 1
  {
    AcceptedFitsRoom(l, times, now, a);
    AcceptedWidens(l, times, a, b, a + l.interval.value);
  }

  lemma {:induction false} AcceptedWidens(l: Limiter, times: seq<int>, a: int, b: int, b': int)
    requires b <= b'
    ensures Accepted(l, times, a, b) <= Accepted(l, times, a, b')
    decreases |times|
  {
    if times != [] {
      AcceptedWidens(l.After(times[0]), times[1..], a, b, b');
    }
  }

  // ----- what is allowed -----

  /** Without an interval every call is allowed and nothing is counted. */
  lemma {:induction false} Unlimited(l: Limiter, times: seq<int>, a: int, b: int)
    requires l.interval.None?
    ensures Accepted(l, times, a, b) == Within(times, a, b)
    ensures forall now :: l.Allows(now) && l.After(now) == l
    decreases |times|
  {
    if times != [] {
      Unlimited(l, times[1..], a, b);
    }
  }

  /** How many instants fall into `[a, b]`. */
  function Within(times: seq<int>, a: int, b: int): nat {
    if times == [] then 0 else (if a <= times[0] <= b then 1 else 0) + Within(times[1..], a, b)
  }

  /** After a first call at `t`, calls up to and including `t + d` are allowed while the burst lasts, and
      then refused; the first call later than that is allowed again and opens the next window. */
  lemma WindowMeans(burst: nat, d: nat, t: int, n: nat, now: int)
    requires 1 <= n && t <= now
    ensures var l := Limiter(burst, Some(d), Some(t), n);
      && Limiter(burst, Some(d), None, 0).Allows(t)
      && Limiter(burst, Some(d), None, 0).After(t) == Limiter(burst, Some(d), Some(t), 1)
      && (l.Allows(now) <==> now > t + d || n < burst)
      && l.After(now) == if now > t + d then Limiter(burst, Some(d), Some(now), 1)
                         else if n < burst then Limiter(burst, Some(d), Some(t), n + 1) else l
  {
  }

  // ----- the bound is attained -----

  function Repeat(t: int, n: nat): (s: seq<int>)
    ensures |s| == n && forall i :: 0 <= i < n ==> s[i] == t
  {
    seq(n, _ => t)
  }

  /** A block of calls inside the window, as long as the burst allows, is accepted whole. */
  lemma {:induction false} BlockAccepted(l: Limiter, t: int, n: nat, rest: seq<int>, a: int, b: int)
    requires l.InWindow(t) && l.count + n <= l.burst && a <= t <= b
    ensures Accepted(l, Repeat(t, n) + rest, a, b) == n + Accepted(l.(count := l.count + n), rest, a, b)
    decreases n
  {
    if n == 0 {
      assert Repeat(t, 0) + rest == rest;
    } else {
      assert (Repeat(t, n) + rest)[0] == t && (Repeat(t, n) + rest)[1..] == Repeat(t, n - 1) + rest;
      BlockAccepted(l.(count := l.count + 1), t, n - 1, rest, a, b);
    }
  }

  /** One call opens a window, the rest of the burst comes at its end, and a full burst just after. */
  function WorstCase(d: int, burst: nat): seq<int>
    requires burst >= 1
  {
    [0] + (Repeat(d, burst - 1) + ([d + 1] + Repeat(d + 1, burst - 1)))
  }

  lemma AcceptedHead(l: Limiter, t: int, rest: seq<int>, a: int, b: int)
    ensures Accepted(l, [t] + rest, a, b) == (if l.Allows(t) && a <= t <= b then 1 else 0)
      + Accepted(l.After(t), rest, a, b)
  {
    assert ([t] + rest)[1..] == rest;
  }

  lemma WorstCaseMonotone(d: nat, burst: nat)
    requires burst >= 1
    ensures Monotone(WorstCase(d, burst), 0)
  {
    var s := WorstCase(d, burst);
    forall i | 0 <= i < |s| ensures s[i] == if i == 0 then 0 else if i < burst then d else d + 1 {
    }
  }

  /** The bound cannot be improved: for every burst and interval some run attains it. */
  lemma SpanBoundAttained(burst: nat, d: nat)
    requires burst >= 1 && d >= 1
    ensures var l := Limiter(burst, Some(d), None, 0);
      Monotone(WorstCase(d, burst), 0) && Accepted(l, WorstCase(d, burst), 1, 1 + d) == 2 * Cap(l) - 1
  {
    hide Monotone, Accepted, Repeat;
    WorstCaseMonotone(d, burst);
    var l := Limiter(burst, Some(d), None, 0);
    var l1 := Limiter(burst, Some(d), Some(0), 1);
    var l3 := Limiter(burst, Some(d), Some(d + 1), 1);
    var tail := Repeat(d + 1, burst - 1);
    AcceptedHead(l, 0, Repeat(d, burst - 1) + ([d + 1] + tail), 1, 1 + d);
    BlockAccepted(l1, d, burst - 1, [d + 1] + tail, 1, 1 + d);
    AcceptedHead(l1.(count := burst), d + 1, tail, 1, 1 + d);
    BlockAccepted(l3, d + 1, burst - 1, [], 1, 1 + d);
    assert tail + [] == tail;
    NoCalls(l3.(count := burst), 1, 1 + d);
  }

  lemma NoCalls(l: Limiter, a: int, b: int)
    ensures Accepted(l, [], a, b) == 0
  {
  }
}
