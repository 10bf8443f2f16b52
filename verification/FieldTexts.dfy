/** What the fields of a calendar specification say, read from their text. */
module FieldTexts {
  import opened Wrappers
  import opened Strings
  import opened FieldSets
  import opened FieldParsing

  const NUMERALS := "0123456789"

  /** A number as one writes it. */
  function Decimal(n: nat): string {
    if n < 10 then [NUMERALS[n]] else Decimal(n / 10) + [NUMERALS[n % 10]]
  }

  lemma NumeralMeans(d: nat)
    requires d < 10
    ensures IsDigit(NUMERALS[d]) && DigitValue(NUMERALS[d]) == d
  {
    assert NUMERALS[0] == '0' && NUMERALS[1] == '1' && NUMERALS[2] == '2' && NUMERALS[3] == '3' && NUMERALS[4] == '4';
    assert NUMERALS[5] == '5' && NUMERALS[6] == '6' && NUMERALS[7] == '7' && NUMERALS[8] == '8' && NUMERALS[9] == '9';
  }

  lemma {:induction false} DecimalDigits(n: nat)
    ensures Decimal(n) != "" && AllDigits(Decimal(n)) && Digits(Decimal(n)) == n
  {
    if n < 10 {
      NumeralMeans(n);
      OneDigit(NUMERALS[n]);
    } else {
      DecimalDigits(n / 10);
      NumeralMeans(n % 10);
      var s := Decimal(n / 10);
      assert (s + [NUMERALS[n % 10]])[..|s|] == s;
      assert 10 * (n / 10) + n % 10 == n;
    }
  }

  lemma OneDigit(c: char)
    requires IsDigit(c)
    ensures AllDigits([c]) && Digits([c]) == DigitValue(c)
  {
    assert [c][..0] == "";
    assert Digits("") == 0;
  }

  /** A written number reads as itself if it fits 32 bits, with or without a plus sign. */
  lemma DecimalReads(n: nat)
    ensures ParseU32(Decimal(n)) == if n < 0x1_0000_0000 then Some(n) else None
    ensures ParseU32("+" + Decimal(n)) == if n < 0x1_0000_0000 then Some(n) else None
  {
    DecimalDigits(n);
    var s := Decimal(n);
    assert IsDigit(s[0]);
    assert ("+" + s)[1..] == s;
    hide Decimal, Digits, AllDigits;
  }

  /** Neither separator occurs in a number. */
  lemma DecimalPlain(n: nat, c: char)
    requires !IsDigit(c)
    ensures c !in Decimal(n)
  {
    DecimalDigits(n);
    hide Decimal, Digits;
  }

  lemma {:induction false} DotsAfter(a: string, b: string)
    requires '.' !in a
    ensures SplitDots(a + ".." + b) == Some((a, b))
  {
    var s := a + ".." + b;
    if a == "" {
      assert s[2..] == b;
    } else {
      assert s[1..] == a[1..] + ".." + b;
      assert a[0] in a && '.' !in a[1..];
      DotsAfter(a[1..], b);
      assert a == [a[0]] + a[1..];
    }
  }

  lemma {:induction false} NoDots(s: string)
    requires '.' !in s
    ensures SplitDots(s) == None
  {
    if |s| >= 2 {
      assert s[0] in s;
      NoDots(s[1..]);
    }
  }

  lemma SlashAfter(a: string, b: string)
    requires '/' !in a
    ensures SplitOnce(a + "/" + b, '/') == Some((a, b))
  {
    var s := a + "/" + b;
    assert s[..|a|] == a && s[|a| + 1..] == b;
    FindUnique(s, '/', |a|);
  }

  lemma NoSlash(a: string)
    requires '/' !in a
    ensures SplitOnce(a, '/') == None
  {
  }

  /** The texts of the four ranges: everything, one value, or from one value to another. */
  datatype Range = All | One(n: nat) | Between(a: nat, b: nat)
  {
    function Text(): string {
      match this
      case All => "*"
      case One(n) => Decimal(n)
      case Between(a, b) => Decimal(a) + ".." + Decimal(b)
    }

    function First(lo: nat): nat {
      match this
      case All => lo
      case One(n) => n
      case Between(a, _) => a
    }

    function Last(hi: nat): nat {
      match this
      case All => hi
      case One(n) => n
      case Between(_, b) => b
    }
  }

  lemma RangeReads(range: Range, lo: nat, hi: nat)
    requires range.First(0) < 0x1_0000_0000 && range.Last(0) < 0x1_0000_0000
    ensures ParseRange(range.Text(), lo, hi) == Some((range.First(lo), range.Last(hi)))
    ensures '/' !in range.Text() && ',' !in range.Text()
  {
    hide Decimal, ParseU32, SplitDots;
    match range {
      case All =>
      case One(n) =>
        DecimalReads(n);
        DecimalPlain(n, '.');
        DecimalPlain(n, '/');
        DecimalPlain(n, ',');
        DecimalPlain(n, '*');
        NoDots(Decimal(n));
      case Between(a, b) =>
        DecimalReads(a);
        DecimalReads(b);
        DecimalPlain(a, '.');
        DecimalPlain(a, '/');
        DecimalPlain(b, '/');
        DecimalPlain(a, ',');
        DecimalPlain(b, ',');
        DotsAfter(Decimal(a), Decimal(b));
        assert |range.Text()| >= 2;
    }
  }

  /** A chunk: a range, every value of it or every so many. */
  function ChunkText(range: Range, step: Option<nat>): string {
    match step
    case None => range.Text()
    case Some(k) => range.Text() + "/" + Decimal(k)
  }

  /** A chunk reads as its range and step, and fails only when the range is backwards or out of bounds. */
  lemma ChunkReads(range: Range, step: Option<nat>, lo: nat, hi: nat)
    requires range.First(0) < 0x1_0000_0000 && range.Last(0) < 0x1_0000_0000
    requires step.Some? ==> step.value < 0x1_0000_0000
    ensures var a, b := range.First(lo), range.Last(hi);
      ParseChunk(ChunkText(range, step), lo, hi) ==
        if a > b || a < lo || b > hi then Err(OutOfRange)
        else Ok(Stride(a, b, if step.Some? then step.value else 1))
    ensures ',' !in ChunkText(range, step)
  {
    hide Decimal, ParseU32, ParseRange, Range.Text, SplitOnce;
    RangeReads(range, lo, hi);
    if step.Some? {
      SlashAfter(range.Text(), Decimal(step.value));
      DecimalReads(step.value);
      DecimalPlain(step.value, ',');
    } else {
      NoSlash(range.Text());
    }
  }

  /** A step of zero is an error. */
  lemma StepZeroFails(range: Range, lo: nat, hi: nat)
    requires lo <= range.First(lo) <= range.Last(hi) <= hi < 0x1_0000_0000
    ensures ChunkOutcome(ChunkText(range, Some(0)), lo, hi) == Err(StepZero)
  {
    hide ParseChunk, ChunkText;
    ChunkReads(range, Some(0), lo, hi);
  }

  /** So is one that leaves 32 bits after the last value listed. */
  lemma StepOverflows(range: Range, k: nat, lo: nat, hi: nat) returns (last: nat)
    requires lo <= range.First(lo) <= range.Last(hi) <= hi < 0x1_0000_0000 && 0 < k < 0x1_0000_0000
    ensures last <= range.Last(hi) < last + k && Reaches(range.First(lo), last, k)
    ensures ChunkOutcome(ChunkText(range, Some(k)), lo, hi) == Err(StepOverflow) <==> last + k >= 0x1_0000_0000
  {
    var a, b, text := range.First(lo), range.Last(hi), ChunkText(range, Some(k));
    ChunkReads(range, Some(k), lo, hi);
    assert ParseChunk(text, lo, hi) == Ok(Stride(a, b, k));
    hide ParseChunk, ChunkText, Range.First, Range.Last, Reaches, LastStep;
    LastStepReached(a, b, k);
    last := LastStep(a, b, k);
  }

  lemma {:induction false} LastStepReached(a: int, b: int, k: nat)
    requires k > 0 && a <= b
    ensures a <= LastStep(a, b, k) <= b < LastStep(a, b, k) + k && Reaches(a, LastStep(a, b, k), k)
    decreases b - a
  {
    if a + k <= b {
      LastStepReached(a + k, b, k);
      ReachesUp(a + k, LastStep(a + k, b, k), k);
    }
  }

  /** A field of one chunk that parses lists the start of its range and every so many after it, up to
      its end. */
  lemma FieldReads(range: Range, step: Option<nat>, lo: nat, hi: nat, values: seq<nat>, v: nat)
    requires range.First(0) < 0x1_0000_0000 && range.Last(0) < 0x1_0000_0000
    requires step.Some? ==> 0 < step.value < 0x1_0000_0000
    requires Collected(Split(ChunkText(range, step), ','), lo, hi, |Split(ChunkText(range, step), ',')|, values)
    ensures v in values <==> v <= range.Last(hi) && Reaches(range.First(lo), v, if step.Some? then step.value else 1)
  {
    var text := ChunkText(range, step);
    ChunkReads(range, step, lo, hi);
    hide ParseChunk, Split, Range.Text, ChunkText, Overflows;
    SplitNone(text, ',');
    assert [text][0] == text;
    assert ChunkOutcome(text, lo, hi).Ok?;
  }

  // ----- weekdays -----

  const WEEK: seq<string> := ["Mon", "Tue", "Wed", "Thu", "Fri", "Sat", "Sun"]

  lemma DayReads(i: nat)
    requires i < 7
    ensures WeekdayNum(WEEK[i]) == Some(i + 1) && '.' !in WEEK[i] && ',' !in WEEK[i]
  {
    if i == 0 {
      assert WEEK[i] == "Mon";
    } else if i == 1 {
      assert WEEK[i] == "Tue";
    } else if i == 2 {
      assert WEEK[i] == "Wed";
    } else if i == 3 {
      assert WEEK[i] == "Thu";
    } else if i == 4 {
      assert WEEK[i] == "Fri";
    } else if i == 5 {
      assert WEEK[i] == "Sat";
    } else {
      assert WEEK[i] == "Sun";
    }
  }

  /** Nothing else names a weekday. */
  lemma OnlyTheseDays(s: string)
    requires WeekdayNum(s).Some?
    ensures 1 <= WeekdayNum(s).value <= 7 && s == WEEK[WeekdayNum(s).value - 1]
  {
  }

  /** A weekday reads as itself, a range of two as the days from one to the other, Monday after Sunday. */
  lemma WeekdaysRead(i: nat, j: nat, days: seq<nat>, single: bool)
    requires i < 7 && j < 7 && (single ==> i == j)
    requires var s := if single then WEEK[i] else WEEK[i] + ".." + WEEK[j];
      DaysCollected(Split(s, ','), |Split(s, ',')|, days)
    ensures forall v :: v in days <==> if i <= j then i + 1 <= v <= j + 1 else i + 1 <= v <= 7 || 1 <= v <= j + 1
  {
    hide Split, WeekdayNum, SplitDots, InWeek;
    var s := if single then WEEK[i] else WEEK[i] + ".." + WEEK[j];
    DayReads(i);
    DayReads(j);
    SplitNone(s, ',');
    if single {
      NoDots(s);
    } else {
      DotsAfter(WEEK[i], WEEK[j]);
    }
    assert WeekdayRange(s) == Some((i + 1, j + 1));
    assert [s][0] == s;
    forall v: nat
      ensures v in days <==> if i <= j then i + 1 <= v <= j + 1 else i + 1 <= v <= 7 || 1 <= v <= j + 1
    {
      InWeekMeans(i + 1, j + 1, v);
    }
  }
}
