/** Rendering an ini back to text, and reading it back. */
module Rendering {
  import opened Wrappers
  import opened UnitNames
  import opened Strings
  import opened Inis
  import opened Layering

  // ----- rendering -----

  function HeaderLine(name: string): string { "[" + name + "]" }
  function EntryLine(e: Entry): string { e.key + "=" + e.value }

  function EntryLines(es: seq<Entry>): (ls: seq<string>)
    ensures |ls| == |es| && forall i :: 0 <= i < |es| ==> ls[i] == EntryLine(es[i])
  {
    seq(|es|, i requires 0 <= i < |es| => EntryLine(es[i]))
  }

  /** A section as rendered: its header, its entries, and a blank line. */
  function SectionLines(name: string, es: seq<Entry>): seq<string> {
    [HeaderLine(name)] + EntryLines(es) + [""]
  }

  function RenderedLines(ini: Ini, order: seq<string>): seq<string> {
    if order == [] then [] else
      RenderedLines(ini, order[..|order| - 1]) + SectionLines(order[|order| - 1], ini.Entries(order[|order| - 1]))
  }

  /** Each line followed by a newline. */
  function Unlines(ls: seq<string>): string {
    if ls == [] then "" else Unlines(ls[..|ls| - 1]) + ls[|ls| - 1] + "\n"
  }

  function Rendered(ini: Ini): string {
    Unlines(RenderedLines(ini, ini.order))
  }

  lemma {:induction false} UnlinesAppend(a: seq<string>, b: seq<string>)
    ensures Unlines(a + b) == Unlines(a) + Unlines(b)
  {
    if b == [] {
      assert a + b == a;
    } else {
      var n := |b| - 1;
      assert (a + b)[..|a| + n] == a + b[..n];
      UnlinesAppend(a, b[..n]);
    }
  }

  lemma UnlinesOne(l: string)
    ensures Unlines([l]) == l + "\n"
  {
    assert [l][..0] == [];
    assert "" + l + "\n" == l + "\n";
  }

  /** The renderer as it runs: nested loops appending to one string. */
  method RenderIni(ini: Ini) returns (s: string)
    requires forall n :: n in ini.order ==> n in ini.table
    ensures s == Rendered(ini)
  {
    hide Unlines, RenderedLines;
    s := "";
    RenderNothing(ini);
    for i := 0 to |ini.order|
      invariant s == Unlines(RenderedLines(ini, ini.order[..i]))
    {
      var section := ini.order[i];
      var before := s;
      s := s + "[" + section + "]\n";
      var es := ini.table[section];
      HeaderRendered(section);
      assert es[..0] == [];
      for j := 0 to |es|
        invariant s == before + Unlines([HeaderLine(section)] + EntryLines(es[..j]))
      {
        var e := es[j];
        s := s + e.key + "=" + e.value + "\n";
        EntryRendered(section, es, j);
      }
      s := s + "\n";
      assert es[..|es|] == es;
      SectionRendered(ini, i);
    }
    assert ini.order[..|ini.order|] == ini.order;
  }

  lemma RenderNothing(ini: Ini)
    ensures Unlines(RenderedLines(ini, ini.order[..0])) == ""
  {
  }

  lemma HeaderRendered(name: string)
    ensures Unlines([HeaderLine(name)] + EntryLines([])) == "[" + name + "]\n"
  {
    UnlinesOne(HeaderLine(name));
    assert [HeaderLine(name)] + EntryLines([]) == [HeaderLine(name)];
  }

  lemma EntryRendered(name: string, es: seq<Entry>, j: nat)
    requires j < |es|
    ensures Unlines([HeaderLine(name)] + EntryLines(es[..j + 1])) ==
      Unlines([HeaderLine(name)] + EntryLines(es[..j])) + es[j].key + "=" + es[j].value + "\n"
  {
    hide Unlines;
    var a := [HeaderLine(name)] + EntryLines(es[..j]);
    assert [HeaderLine(name)] + EntryLines(es[..j + 1]) == a + [EntryLine(es[j])];
    UnlinesAppend(a, [EntryLine(es[j])]);
    UnlinesOne(EntryLine(es[j]));
  }

  lemma SectionRendered(ini: Ini, i: nat)
    requires i < |ini.order|
    ensures var n := ini.order[i];
      Unlines(RenderedLines(ini, ini.order[..i + 1])) ==
      Unlines(RenderedLines(ini, ini.order[..i])) + Unlines([HeaderLine(n)] + EntryLines(ini.Entries(n))) + "\n"
  {
    hide Unlines;
    var n := ini.order[i];
    assert ini.order[..i + 1][..i] == ini.order[..i];
    UnlinesAppend(RenderedLines(ini, ini.order[..i]), SectionLines(n, ini.Entries(n)));
    UnlinesAppend([HeaderLine(n)] + EntryLines(ini.Entries(n)), [""]);
    UnlinesOne("");
    assert "" + "\n" == "\n";
  }

  // ----- what parsing guarantees about its results -----

  predicate GoodName(n: string) { Trimmed(n) && '\n' !in n }

  /** A key and value that a line can carry without being misread. */
  predicate GoodEntry(e: Entry) {
    && Trimmed(e.key) && '\n' !in e.key && '=' !in e.key
    && (e.key != [] ==> e.key[0] !in ['#', ';', '['])
    && Trimmed(e.value) && '\n' !in e.value && (e.value != [] ==> e.value[|e.value| - 1] != '\\')
  }

  predicate GoodEntries(es: seq<Entry>) { forall i :: 0 <= i < |es| ==> GoodEntry(es[i]) }

  ghost predicate Good(ini: Ini) {
    ini.Valid() && (forall n :: n in ini.table ==> GoodName(n) && GoodEntries(ini.table[n]))
  }

  lemma GoodIsValid(ini: Ini)
    requires Good(ini)
    ensures ini.Valid() && forall n :: n in ini.order ==> n in ini.table
  {
  }

  lemma GoodExtend(ini: Ini, n: string, es: seq<Entry>)
    requires Good(ini) && GoodName(n) && GoodEntries(es)
    ensures Good(ini.Extend(n, es))
  {
    hide GoodName, GoodEntry;
    ExtendValid(ini, n, es);
    var r := ini.Extend(n, es);
    forall k | k in r.table ensures GoodName(k) && GoodEntries(r.table[k]) {
      if k == n {
        var was := ini.Entries(n);
        forall i | 0 <= i < |was + es| ensures GoodEntry((was + es)[i]) {
          if i >= |was| {
            assert (was + es)[i] == es[i - |was|];
          }
        }
      }
    }
  }

  lemma GoodMerge(a: Ini, b: Ini)
    requires Good(a) && Good(b)
    ensures Good(Merge(a, b))
  {
    hide GoodName, GoodEntry;
    MergeValid(a, b);
    var r := Merge(a, b);
    forall k | k in r.table ensures GoodName(k) && GoodEntries(r.table[k]) {
      var x, y := a.Entries(k), b.Entries(k);
      assert r.table[k] == x + y;
      forall i | 0 <= i < |x + y| ensures GoodEntry((x + y)[i]) {
        if i >= |x| {
          assert (x + y)[i] == y[i - |x|];
        }
      }
    }
  }

  /** A logical line as the parser hands it over: trimmed, on one line, not continued. */
  predicate GoodLine(t: string) {
    Trimmed(t) && '\n' !in t && (t != [] ==> t[|t| - 1] != '\\')
  }

  lemma LineToEntry(t: string, k: string, v: string, line: nat)
    requires GoodLine(t) && !IsComment(t) && t[0] != '[' && SplitOnce(t, '=') == Some((k, v))
    ensures GoodEntry(Entry(Trim(k), Trim(v), line))
  {
    var i := Find(t, '=');
    hide IsSpace, Find, TrimStart, TrimEnd, Trim;
    assert k == t[..i] && v == t[i + 1..];
    TrimKeepsFirst(k);
    TrimKeepsLast(v);
    assert k != [] ==> k[0] == t[0];
    assert v != [] ==> v[|v| - 1] == t[|t| - 1];
  }

  lemma TrimKeepsFirst(s: string)
    requires s != [] ==> !IsSpace(s[0])
    ensures Trimmed(Trim(s)) && (forall c :: c in Trim(s) ==> c in s)
      && (Trim(s) != [] ==> s != [] && Trim(s)[0] == s[0])
  {
    TrimMeans(s);
    TrimEndMeans(s);
    hide IsSpace, TrimEnd;
    assert TrimStart(s) == s;
  }

  lemma TrimKeepsLast(s: string)
    requires s != [] ==> !IsSpace(s[|s| - 1])
    ensures Trimmed(Trim(s)) && (forall c :: c in Trim(s) ==> c in s)
      && (Trim(s) != [] ==> s != [] && Trim(s)[|Trim(s)| - 1] == s[|s| - 1])
  {
    TrimMeans(s);
    assert TrimEnd(s) == s;
    hide IsSpace, TrimStart, TrimEnd;
  }

  lemma InterpretGood(st: State, t: string, line: nat)
    requires Good(st.ini) && (st.section.Some? ==> GoodName(st.section.value)) && GoodLine(t)
      && Interpret(st, t, line).Ok?
    ensures var r := Interpret(st, t, line).value; Good(r.ini) && (r.section.Some? ==> GoodName(r.section.value))
  {
    hide Good, GoodEntry, Trim, SplitOnce, Ini.Extend, Trimmed;
    if !IsComment(t) {
      if t[0] == '[' {
        TrimMeans(t[1..|t| - 1]);
        GoodExtend(st.ini, Trim(t[1..|t| - 1]), []);
      } else {
        var (k, v) := SplitOnce(t, '=').value;
        LineToEntry(t, k, v, line);
        GoodExtend(st.ini, st.section.value, [Entry(Trim(k), Trim(v), line)]);
      }
    }
  }

  lemma JoinGood(s: string, next: string)
    requires Continues(s) && '\n' !in s && '\n' !in next
    ensures '\n' !in JoinLine(s, next)
  {
    TrimEndMeans(s);
    TrimStartMeans(StripCr(next));
    hide TrimEnd, TrimStart;
  }

  lemma {:induction false} FoldedGood(accum: string, rest: seq<string>)
    requires '\n' !in accum && (forall l :: l in rest ==> '\n' !in l) && Folded(accum, rest).Some?
    ensures GoodLine(Trim(Folded(accum, rest).value.0))
    decreases |rest|
  {
    hide Trim, TrimEnd, JoinLine;
    if Continues(accum) {
      assert rest[0] in rest && forall l :: l in rest[1..] ==> l in rest;
      JoinGood(accum, rest[0]);
      FoldedGood(JoinLine(accum, rest[0]), rest[1..]);
    } else {
      TrimMeans(accum);
    }
  }

  /** Everything the parser builds can be rendered safely. */
  lemma {:induction false} ParseLinesGood(lines: seq<string>, base: nat, st: State)
    requires forall l :: l in lines ==> '\n' !in l
    requires Good(st.ini) && (st.section.Some? ==> GoodName(st.section.value)) && ParseLines(lines, base, st).Ok?
    ensures Good(ParseLines(lines, base, st).value.ini)
    decreases |lines|
  {
    hide Good, GoodName, GoodLine, Interpret, Folded, Trim, ParseLines;
    if lines == [] {
      ParseNothing(base, st);
    } else {
      ParseHead(lines, base, st);
      assert lines[0] in lines && '\n' !in StripCr(lines[0]);
      assert forall l :: l in lines[1..] ==> l in lines;
      FoldedGood(StripCr(lines[0]), lines[1..]);
      var (text, used) := Folded(StripCr(lines[0]), lines[1..]).value;
      InterpretGood(st, Trim(text), base + 1);
      assert forall l :: l in lines[1 + used..] ==> l in lines;
      ParseLinesGood(lines[1 + used..], base + 1 + used, Interpret(st, Trim(text), base + 1).value);
    }
  }

  lemma ParsedIsGood(source: string)
    requires Parsed(source).Ok?
    ensures Good(Parsed(source).value)
  {
    hide ParseLines, Split;
    SplitPieces(source, '\n');
    ParseLinesGood(Split(source, '\n'), 0, START);
  }

  // ----- reading rendered lines back -----

  /** A rendered line stands for itself: no continuation, nothing to trim. */
  lemma LineStands(l: string, rest: seq<string>)
    requires Trimmed(l) && (l != [] ==> l[|l| - 1] != '\\')
    ensures Folded(StripCr(l), rest) == Some((l, 0)) && Trim(l) == l
  {
    TrimmedStays(l);
    assert IsSpace('\r');
  }

  lemma HeaderReads(st: State, n: string, line: nat)
    requires GoodName(n)
    ensures var l := HeaderLine(n);
      Trimmed(l) && l[|l| - 1] != '\\' && Interpret(st, l, line) == Ok(State(st.ini.Extend(n, []), Some(n)))
  {
    var l := HeaderLine(n);
    assert l[1..|l| - 1] == n;
    TrimmedStays(n);
    hide Trim, Ini.Extend;
  }

  lemma EntryReads(st: State, e: Entry, line: nat)
    requires GoodEntry(e) && st.section.Some?
    ensures var l := EntryLine(e);
      Trimmed(l) && l[|l| - 1] != '\\'
      && Interpret(st, l, line) == Ok(State(st.ini.Extend(st.section.value, [e.(line := line)]), st.section))
  {
    var l := EntryLine(e);
    hide IsSpace, Ini.Extend, Find, Trim, TrimStart, TrimEnd;
    assert l == e.key + ['='] + e.value;
    assert l[..|e.key|] == e.key && l[|e.key| + 1..] == e.value;
    FindUnique(l, '=', |e.key|);
    TrimmedStays(e.key);
    TrimmedStays(e.value);
    NotSpace();
    assert l[0] == if e.key == [] then '=' else e.key[0];
    assert l[|l| - 1] == if e.value == [] then '=' else e.value[|e.value| - 1];
  }

  lemma NotSpace()
    ensures !IsSpace('=') && !IsSpace('[') && !IsSpace(']')
  {
  }

  /** One line that stands for itself, then the rest. */
  lemma ParseStanding(l: string, rest: seq<string>, base: nat, st: State)
    requires Trimmed(l) && (l != [] ==> l[|l| - 1] != '\\')
    ensures ParseLines([l] + rest, base, st) ==
      match Interpret(st, l, base + 1) case Err(e) => Err(e) case Ok(st') => ParseLines(rest, base + 1, st')
  {
    hide Interpret, Folded, ParseLines;
    LineStands(l, rest);
    ParseHead([l] + rest, base, st);
    assert ([l] + rest)[1..] == rest && ([l] + rest)[1 + 0..] == rest;
  }

  lemma ExtendTwice(a: Ini, n: string, x: seq<Entry>, y: seq<Entry>)
    ensures a.Extend(n, x).Extend(n, y) == a.Extend(n, x + y)
  {
    assert a.Entries(n) + x + y == a.Entries(n) + (x + y);
  }

  /** The entries of a section read back, renumbered, after at least one `x` of that section. */
  lemma {:induction false} EntriesRead(es: seq<Entry>, rest: seq<string>, base: nat, ini: Ini, n: string, x: seq<Entry>)
      returns (es': seq<Entry>)
    requires GoodEntries(es)
    ensures EraseEntries(es') == EraseEntries(es)
    ensures ParseLines(EntryLines(es) + rest, base, State(ini.Extend(n, x), Some(n))) ==
      ParseLines(rest, base + |es|, State(ini.Extend(n, x + es'), Some(n)))
    decreases |es|
  {
    hide ParseLines, Interpret, GoodEntry, Trimmed, Ini.Extend, EntryLines, EraseEntries, EntryLine;
    if es == [] {
      es' := [];
      assert EntryLines(es) + rest == rest && x + es' == x;
    } else {
      EntriesHead(es);
      var st := State(ini.Extend(n, x), Some(n));
      var l, e := EntryLine(es[0]), es[0].(line := base + 1);
      EntryReads(st, es[0], base + 1);
      assert EntryLines(es) + rest == [l] + (EntryLines(es[1..]) + rest);
      ParseStanding(l, EntryLines(es[1..]) + rest, base, st);
      ExtendTwice(ini, n, x, [e]);
      var tail := EntriesRead(es[1..], rest, base + 1, ini, n, x + [e]);
      es' := [e] + tail;
      assert x + [e] + tail == x + es';
      EntriesHead(es');
      assert es'[1..] == tail;
    }
  }

  lemma EntriesHead(es: seq<Entry>)
    requires es != []
    ensures EntryLines(es) == [EntryLine(es[0])] + EntryLines(es[1..])
    ensures EraseEntries(es) == [es[0].(line := 0)] + EraseEntries(es[1..])
  {
    hide EntryLine;
  }

  lemma BlankReads(rest: seq<string>, base: nat, st: State)
    ensures ParseLines([""] + rest, base, st) == ParseLines(rest, base + 1, st)
  {
    ParseStanding("", rest, base, st);
    hide ParseLines;
  }

  /** A rendered section reads back as itself. */
  lemma SectionReads(n: string, es: seq<Entry>, rest: seq<string>, base: nat, st: State) returns (es': seq<Entry>)
    requires GoodName(n) && GoodEntries(es)
    ensures EraseEntries(es') == EraseEntries(es)
    ensures ParseLines(SectionLines(n, es) + rest, base, st) ==
      ParseLines(rest, base + |es| + 2, State(st.ini.Extend(n, es'), Some(n)))
  {
    hide ParseLines, Interpret, GoodEntries, GoodName, Trimmed, Ini.Extend, EntryLines, HeaderLine;
    var l, tail := HeaderLine(n), EntryLines(es) + ([""] + rest);
    assert SectionLines(n, es) + rest == [l] + tail;
    HeaderReads(st, n, base + 1);
    ParseStanding(l, tail, base, st);
    es' := EntriesRead(es, [""] + rest, base + 1, st.ini, n, []);
    BlankReads(rest, base + 1 + |es|, State(st.ini.Extend(n, [] + es'), Some(n)));
    assert [] + es' == es';
  }

  /** The first `k` sections of an ini. */
  function Prefix(ini: Ini, k: nat): Ini
    requires k <= |ini.order|
  {
    Ini(ini.order[..k], map n | n in ini.order[..k] :: ini.Entries(n))
  }

  lemma PrefixStep(ini: Ini, k: nat)
    requires ini.Valid() && k < |ini.order|
    ensures Prefix(ini, k + 1) == Prefix(ini, k).Extend(ini.order[k], ini.Entries(ini.order[k]))
  {
    var n := ini.order[k];
    assert ini.order[..k + 1] == ini.order[..k] + [n];
    assert n !in ini.order[..k];
    var l, r := Prefix(ini, k + 1), Prefix(ini, k).Extend(n, ini.Entries(n));
    assert l.table.Keys == r.table.Keys;
    assert [] + ini.Entries(n) == ini.Entries(n);
  }

  lemma PrefixWhole(ini: Ini)
    requires ini.Valid()
    ensures Prefix(ini, |ini.order|) == ini
  {
    assert ini.order[..|ini.order|] == ini.order;
  }

  /** The first `k` rendered sections read back as those sections, line numbers aside. */
  lemma {:induction false} OrderReads(ini: Ini, k: nat, rest: seq<string>) returns (base: nat, st: State)
    requires Good(ini) && k <= |ini.order|
    ensures ParseLines(RenderedLines(ini, ini.order[..k]) + rest, 0, START) == ParseLines(rest, base, st)
    ensures Erase(st.ini) == Erase(Prefix(ini, k))
    decreases k
  {
    hide ParseLines, SectionLines, GoodName, GoodEntries, Erase, Prefix, Ini.Extend;
    if k == 0 {
      base, st := 0, START;
      assert RenderedLines(ini, ini.order[..0]) + rest == rest;
      EmptyPrefix(ini);
    } else {
      var n := ini.order[k - 1];
      var es := ini.Entries(n);
      var tail := SectionLines(n, es) + rest;
      var base1, st1 := OrderReads(ini, k - 1, tail);
      var es' := SectionReads(n, es, rest, base1, st1);
      base, st := base1 + |es| + 2, State(st1.ini.Extend(n, es'), Some(n));
      assert ini.order[..k][..k - 1] == ini.order[..k - 1];
      assert RenderedLines(ini, ini.order[..k]) + rest == RenderedLines(ini, ini.order[..k - 1]) + tail;
      PrefixStep(ini, k - 1);
      EraseExtend(st1.ini, n, es');
      EraseExtend(Prefix(ini, k - 1), n, es);
    }
  }

  lemma EmptyPrefix(ini: Ini)
    ensures Prefix(ini, 0) == EMPTY
  {
    assert ini.order[..0] == [];
  }

  lemma {:induction false} SplitUnlines(ls: seq<string>)
    requires forall l :: l in ls ==> '\n' !in l
    ensures Split(Unlines(ls), '\n') == ls + [""]
  {
    if ls == [] {
    } else {
      var n := |ls| - 1;
      assert ls == ls[..n] + [ls[n]];
      assert forall l :: l in ls[..n] ==> l in ls;
      SplitUnlines(ls[..n]);
      LastLine(Unlines(ls[..n]), ls[..n], ls[n]);
    }
  }

  lemma {:induction false} SplitConcat(a: string, b: string, c: char)
    requires c !in b
    ensures Split(a + b, c) == Split(a, c)[..|Split(a, c)| - 1] + [Split(a, c)[|Split(a, c)| - 1] + b]
    decreases |a|
  {
    hide Split;
    if c in a {
      var i := FirstIndex(a, c);
      SplitAt(a, c, i);
      assert (a + b)[..i] == a[..i] && (a + b)[i + 1..] == a[i + 1..] + b;
      SplitAt(a + b, c, i);
      SplitConcat(a[i + 1..], b, c);
    } else {
      SplitNone(a, c);
      SplitNone(a + b, c);
    }
  }

  lemma LastLine(a: string, ls: seq<string>, l: string)
    requires Split(a, '\n') == ls + [""] && '\n' !in l
    ensures Split(a + l + "\n", '\n') == ls + [l] + [""]
  {
    SplitConcat(a, l, '\n');
    SplitNone("", '\n');
    hide Split;
    assert "" + l == l;
    SplitAppend(a + l, "", '\n');
    assert a + l + ['\n'] + "" == a + l + "\n";
  }

  lemma RenderedLinesFit(ini: Ini, k: nat)
    requires Good(ini) && k <= |ini.order|
    ensures forall l :: l in RenderedLines(ini, ini.order[..k]) ==> '\n' !in l
  {
    if k > 0 {
      RenderedLinesFit(ini, k - 1);
      assert ini.order[..k][..k - 1] == ini.order[..k - 1];
      SectionLinesFit(ini.order[k - 1], ini.Entries(ini.order[k - 1]));
      hide SectionLines, GoodName, GoodEntries;
    }
  }

  lemma SectionLinesFit(n: string, es: seq<Entry>)
    requires GoodName(n) && GoodEntries(es)
    ensures forall l :: l in SectionLines(n, es) ==> '\n' !in l
  {
    hide Trimmed;
    forall i | 0 <= i < |es| ensures '\n' !in EntryLines(es)[i] {
      assert GoodEntry(es[i]);
    }
    assert '\n' !in HeaderLine(n);
  }

  /** Rendering then parsing is the identity, line numbers aside, on every safe ini; by
      `ParsedIsGood` and `GoodMerge` that is every parse result and every merge of them. */
  lemma RenderRoundTrip(ini: Ini)
    requires Good(ini)
    ensures Parsed(Rendered(ini)).Ok? && Erase(Parsed(Rendered(ini)).value) == Erase(ini)
  {
    hide ParseLines, Split, Erase, Unlines, RenderedLines, Good, Prefix;
    var ls := RenderedLines(ini, ini.order);
    assert ini.order[..|ini.order|] == ini.order;
    GoodIsValid(ini);
    RenderedLinesFit(ini, |ini.order|);
    SplitUnlines(ls);
    var base, st := OrderReads(ini, |ini.order|, [""]);
    BlankReads([], base, st);
    ParseNothing(base + 1, st);
    assert [""] + [] == [""];
    PrefixWhole(ini);
  }
}
