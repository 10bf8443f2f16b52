/** Drop-in layering: merging parsed sources is parsing their concatenation. */
module Layering {
  import opened Wrappers
  import opened UnitNames
  import opened Strings
  import opened Inis

  // ----- merging -----

  /** `b`'s sections laid under `a`'s, section by section, in `b`'s order. */
  function Merge(a: Ini, b: Ini): Ini {
    Ini(InsertAll(a.order, b.order), map n | n in a.table.Keys + b.table.Keys :: a.Entries(n) + b.Entries(n))
  }

  function InsertAll(a: seq<string>, b: seq<string>): seq<string> {
    if b == [] then a else Insert(InsertAll(a, b[..|b| - 1]), b[|b| - 1])
  }

  lemma {:induction false} InsertAllMeans(a: seq<string>, b: seq<string>)
    ensures forall n :: n in InsertAll(a, b) <==> n in a || n in b
    ensures NoDuplicates(a) ==> NoDuplicates(InsertAll(a, b))
  {
    if b != [] {
      InsertAllMeans(a, b[..|b| - 1]);
      assert b == b[..|b| - 1] + [b[|b| - 1]];
    }
  }

  /** Two inis with the same order, sections and entries are the same. */
  lemma IniExtensional(a: Ini, b: Ini)
    requires a.order == b.order && a.table.Keys == b.table.Keys
    requires forall n :: n in a.table ==> a.Entries(n) == b.Entries(n)
    ensures a == b
  {
    assert forall n :: n in a.table ==> a.table[n] == a.Entries(n) && b.table[n] == b.Entries(n);
    assert a.table == b.table;
  }

  lemma MergeShape(a: Ini, b: Ini)
    ensures Merge(a, b).order == InsertAll(a.order, b.order) && Merge(a, b).table.Keys == a.table.Keys + b.table.Keys
  {
  }

  lemma ExtendShape(a: Ini, n: string, es: seq<Entry>)
    ensures a.Extend(n, es).order == Insert(a.order, n) && a.Extend(n, es).table.Keys == a.table.Keys + {n}
  {
  }

  lemma MergeEntries(a: Ini, b: Ini, n: string)
    ensures Merge(a, b).Entries(n) == a.Entries(n) + b.Entries(n)
  {
    hide InsertAll;
  }

  lemma ExtendEntries(a: Ini, n: string, es: seq<Entry>, k: string)
    ensures a.Extend(n, es).Entries(k) == if k == n then a.Entries(n) + es else a.Entries(k)
  {
  }

  /** Extending the lower layer commutes with merging. */
  lemma MergeExtend(a: Ini, b: Ini, n: string, es: seq<Entry>)
    requires a.Valid() && b.Valid()
    ensures Merge(a, b.Extend(n, es)) == Merge(a, b).Extend(n, es)
  {
    hide Merge, InsertAll, Insert, Ini.Extend, Ini.Entries, Ini.Valid;
    MergeExtendOrder(a.order, b.order, n);
    var l, r := Merge(a, b.Extend(n, es)), Merge(a, b).Extend(n, es);
    MergeShape(a, b.Extend(n, es));
    MergeShape(a, b);
    ExtendShape(b, n, es);
    ExtendShape(Merge(a, b), n, es);
    assert l.order == r.order && l.table.Keys == r.table.Keys;
    forall k ensures l.Entries(k) == r.Entries(k) {
      MergeEntries(a, b.Extend(n, es), k);
      MergeEntries(a, b, k);
      ExtendEntries(b, n, es, k);
      ExtendEntries(Merge(a, b), n, es, k);
      assert a.Entries(n) + (b.Entries(n) + es) == (a.Entries(n) + b.Entries(n)) + es;
    }
    IniExtensional(l, r);
  }

  lemma MergeExtendOrder(a: seq<string>, b: seq<string>, n: string)
    ensures InsertAll(a, Insert(b, n)) == Insert(InsertAll(a, b), n)
  {
    InsertAllMeans(a, b);
    if n !in b {
      assert (b + [n])[..|b|] == b;
    }
  }

  lemma MergeEmpty(a: Ini)
    ensures Merge(a, EMPTY) == a
  {
    assert forall n :: n in a.table ==> a.Entries(n) + EMPTY.Entries(n) == a.table[n];
  }

  lemma ExtendValid(a: Ini, n: string, es: seq<Entry>)
    requires a.Valid()
    ensures a.Extend(n, es).Valid()
  {
  }

  lemma MergeValid(a: Ini, b: Ini)
    requires a.Valid() && b.Valid()
    ensures Merge(a, b).Valid()
  {
    InsertAllMeans(a.order, b.order);
  }

  // ----- parsing one text after another -----

  /** A logical line that is complete within its text reads the same when more text follows. */
  lemma {:induction false} FoldedAppend(accum: string, a: seq<string>, b: seq<string>)
    requires Folded(accum, a).Some?
    ensures Folded(accum, a + b) == Folded(accum, a)
    decreases |a|
  {
    hide JoinLine, Continues;
    if Continues(accum) {
      assert (a + b)[0] == a[0] && (a + b)[1..] == a[1..] + b;
      FoldedAppend(JoinLine(accum, a[0]), a[1..], b);
    }
  }

  /** Parsing goes on where the first text left off. */
  lemma {:induction false} ParseAppend(a: seq<string>, b: seq<string>, base: nat, st: State)
    requires ParseLines(a, base, st).Ok?
    ensures ParseLines(a + b, base, st) == ParseLines(b, base + |a|, ParseLines(a, base, st).value)
    decreases |a|
  {
    hide Interpret, Folded, StripCr, Trim, ParseLines;
    if a == [] {
      assert a + b == b;
      ParseNothing(base, st);
    } else {
      ParseHead(a, base, st);
      FoldedAppend(StripCr(a[0]), a[1..], b);
      var (text, used) := Folded(StripCr(a[0]), a[1..]).value;
      var st' := Interpret(st, Trim(text), base + 1).value;
      ParseAppend(a[1 + used..], b, base + 1 + used, st');
      ParseHead(a + b, base, st);
      assert (a + b)[0] == a[0] && (a + b)[1..] == a[1..] + b && (a + b)[1 + used..] == a[1 + used..] + b;
    }
  }

  /** One logical line off the front. */
  lemma ParseHead(lines: seq<string>, base: nat, st: State)
    requires lines != []
    ensures ParseLines(lines, base, st) ==
      match Folded(StripCr(lines[0]), lines[1..])
      case None => Err(TrailingBackslash(base + 1))
      case Some((text, used)) =>
        match Interpret(st, Trim(text), base + 1)
        case Err(e) => Err(e)
        case Ok(st') => ParseLines(lines[1 + used..], base + 1 + used, st')
  {
    hide Folded, Interpret, StripCr, Trim;
  }

  /** A state over `ini0`, as reached by the same text that takes an empty start to `e`. */
  function Over(ini0: Ini, section0: Option<string>, e: State): State {
    State(Merge(ini0, e.ini), if e.section.Some? then e.section else section0)
  }

  lemma InterpretOver(ini0: Ini, section0: Option<string>, e: State, t: string, line: nat)
    requires ini0.Valid() && e.ini.Valid() && Interpret(e, t, line).Ok?
    ensures Interpret(Over(ini0, section0, e), t, line) == Ok(Over(ini0, section0, Interpret(e, t, line).value))
    ensures Interpret(e, t, line).value.ini.Valid()
  {
    hide Merge, Trim, SplitOnce, Ini.Extend, Ini.Valid;
    if !IsComment(t) {
      if t[0] == '[' {
        var name := Trim(t[1..|t| - 1]);
        MergeExtend(ini0, e.ini, name, []);
        ExtendValid(e.ini, name, []);
      } else {
        var (k, v) := SplitOnce(t, '=').value;
        var es := [Entry(Trim(k), Trim(v), line)];
        MergeExtend(ini0, e.ini, e.section.value, es);
        ExtendValid(e.ini, e.section.value, es);
      }
    }
  }

  /** A text that parses on its own lays its sections under whatever came before. */
  lemma {:induction false} ParseOver(lines: seq<string>, base: nat, ini0: Ini, section0: Option<string>, e: State)
    requires ini0.Valid() && e.ini.Valid() && ParseLines(lines, base, e).Ok?
    ensures ParseLines(lines, base, Over(ini0, section0, e)) ==
      Ok(Over(ini0, section0, ParseLines(lines, base, e).value))
    ensures ParseLines(lines, base, e).value.ini.Valid()
    decreases |lines|
  {
    hide Interpret, Folded, Over, Ini.Valid;
    if lines != [] {
      var (text, used) := Folded(StripCr(lines[0]), lines[1..]).value;
      InterpretOver(ini0, section0, e, Trim(text), base + 1);
      ParseOver(lines[1 + used..], base + 1 + used, ini0, section0, Interpret(e, Trim(text), base + 1).value);
    }
  }

  // ----- line numbers -----

  function EraseEntries(es: seq<Entry>): (r: seq<Entry>)
    ensures |r| == |es| && forall i :: 0 <= i < |es| ==> r[i] == es[i].(line := 0)
  {
    seq(|es|, i requires 0 <= i < |es| => es[i].(line := 0))
  }

  /** The ini without its line numbers. */
  function Erase(a: Ini): Ini {
    Ini(a.order, map n | n in a.table :: EraseEntries(a.table[n]))
  }

  lemma EraseExtend(a: Ini, n: string, es: seq<Entry>)
    ensures Erase(a.Extend(n, es)) == Erase(a).Extend(n, EraseEntries(es))
  {
    assert EraseEntries(a.Entries(n) + es) == EraseEntries(a.Entries(n)) + EraseEntries(es);
    assert EraseEntries(a.Entries(n)) == Erase(a).Entries(n);
  }

  lemma EraseAppend(a: seq<Entry>, b: seq<Entry>)
    ensures EraseEntries(a + b) == EraseEntries(a) + EraseEntries(b)
  {
  }

  lemma EraseOf(a: Ini, n: string)
    ensures Erase(a).Entries(n) == EraseEntries(a.Entries(n))
  {
  }

  lemma EraseMerge(a: Ini, b: Ini)
    ensures Erase(Merge(a, b)) == Merge(Erase(a), Erase(b))
  {
    var l, r := Erase(Merge(a, b)), Merge(Erase(a), Erase(b));
    assert l.order == r.order && l.table.Keys == r.table.Keys;
    hide Merge, Erase, EraseEntries, Ini.Entries;
    forall n ensures l.Entries(n) == r.Entries(n) {
      EraseOf(Merge(a, b), n);
      EraseOf(a, n);
      EraseOf(b, n);
      MergeEntries(a, b, n);
      MergeEntries(Erase(a), Erase(b), n);
      EraseAppend(a.Entries(n), b.Entries(n));
    }
    IniExtensional(l, r);
  }

  ghost predicate SameButLines(a: State, b: State) {
    Erase(a.ini) == Erase(b.ini) && a.section == b.section
  }

  /** The same state or the same error, line numbers aside. */
  ghost predicate SameOutcome(a: Result<State, ParseError>, b: Result<State, ParseError>) {
    match (a, b)
    case (Ok(x), Ok(y)) => SameButLines(x, y)
    case (Err(e), Err(f)) => e.(line := 0) == f.(line := 0)
    case _ => false
  }

  lemma InterpretErased(a: State, b: State, t: string, line: nat, line': nat)
    requires SameButLines(a, b)
    ensures SameOutcome(Interpret(a, t, line), Interpret(b, t, line'))
  {
    hide Trim, Ini.Extend, Erase, SplitOnce;
    if !IsComment(t) {
      if t[0] == '[' {
        if |t| > 1 {
          var name := Trim(t[1..|t| - 1]);
          EraseExtend(a.ini, name, []);
          EraseExtend(b.ini, name, []);
        }
      } else if a.section.Some? && SplitOnce(t, '=').Some? {
        var (k, v) := SplitOnce(t, '=').value;
        var e, e' := Entry(Trim(k), Trim(v), line), Entry(Trim(k), Trim(v), line');
        EraseExtend(a.ini, a.section.value, [e]);
        EraseExtend(b.ini, a.section.value, [e']);
        assert EraseEntries([e]) == EraseEntries([e']);
      }
    }
  }

  /** Where a text starts changes line numbers and nothing else, in its errors too. */
  lemma {:induction false} ParseErased(lines: seq<string>, base: nat, base': nat, a: State, b: State)
    requires SameButLines(a, b)
    ensures SameOutcome(ParseLines(lines, base, a), ParseLines(lines, base', b))
    decreases |lines|
  {
    hide Interpret, Folded, SameButLines, ParseLines, StripCr, Trim;
    if lines == [] {
      ParseNothing(base, a);
      ParseNothing(base', b);
    } else {
      ParseHead(lines, base, a);
      ParseHead(lines, base', b);
      var f := Folded(StripCr(lines[0]), lines[1..]);
      if f.Some? {
        var (text, used) := f.value;
        InterpretErased(a, b, Trim(text), base + 1, base' + 1);
        var ia, ib := Interpret(a, Trim(text), base + 1), Interpret(b, Trim(text), base' + 1);
        if ia.Ok? {
          ParseErased(lines[1 + used..], base + 1 + used, base' + 1 + used, ia.value, ib.value);
        }
      }
    }
  }

  // ----- layering -----

  /** If two sources parse, so does the first, a newline and the second, and the result is the
      section-wise merge of theirs, line numbers aside. */
  lemma LayeringIsConcatenation(s1: string, s2: string)
    requires Parsed(s1).Ok? && Parsed(s2).Ok?
    ensures var r := Parsed(s1 + ['\n'] + s2);
      r.Ok? && Erase(r.value) == Erase(Merge(Parsed(s1).value, Parsed(s2).value))
    ensures Parsed(s1).value.Valid() && Parsed(s2).value.Valid()
  {
    hide ParseLines, Split, Merge, Erase;
    var l1, l2 := Split(s1, '\n'), Split(s2, '\n');
    SplitAppend(s1, s2, '\n');
    ParseAppend(l1, l2, 0, START);
    MergeEmpty(EMPTY);
    ParseOver(l1, 0, EMPTY, None, START);
    ParseOver(l2, 0, EMPTY, None, START);
    var st1 := ParseLines(l1, 0, START).value;
    MergeEmpty(st1.ini);
    ParseOver(l2, 0, st1.ini, st1.section, START);
    assert Over(st1.ini, st1.section, START) == st1;
    assert SameButLines(st1, st1);
    ParseErased(l2, |l1|, 0, st1, st1);
  }

  /** What a key's effective list becomes under a merge. */
  lemma MergedEffectiveList(a: Ini, b: Ini, section: string, key: string)
    ensures Effective(Merge(a, b).Entries(section), key) ==
      if ResetsKey(b.Entries(section), key) then Effective(b.Entries(section), key)
      else Effective(a.Entries(section), key) + Effective(b.Entries(section), key)
  {
    EffectiveLayers(a.Entries(section), b.Entries(section), key);
    assert Merge(a, b).Entries(section) == a.Entries(section) + b.Entries(section);
    hide Effective, ResetsKey, InsertAll;
  }
}
