/** The unit-file parser: lines with continuations, sections, and `Key=Value` directives. */
module Inis {
  import opened Wrappers
  import opened UnitNames
  import opened Strings

  datatype Entry = Entry(key: string, value: string, line: nat)

  /** Sections in order of first mention, each with its entries in order. */
  datatype Ini = Ini(order: seq<string>, table: map<string, seq<Entry>>)
  {
    ghost predicate Valid() {
      NoDuplicates(order) && forall n :: n in order <==> n in table
    }

    /** The entries of a section; an absent section has none. */
    function Entries(n: string): seq<Entry> {
      if n in table then table[n] else []
    }

    /** `entry(section).or_default().extend(es)`. */
    function Extend(n: string, es: seq<Entry>): Ini {
      Ini(Insert(order, n), table[n := Entries(n) + es])
    }
  }

  const EMPTY := Ini([], map[])

  datatype ParseError =
    | TrailingBackslash(line: nat)
    | UnterminatedHeader(line: nat)
    | OutsideSection(line: nat)
    | NoEquals(line: nat)

  /** Where the parser stands between two logical lines. */
  datatype State = State(ini: Ini, section: Option<string>)

  const START := State(EMPTY, None)

  function StripCr(line: string): string {
    if line != [] && line[|line| - 1] == '\r' then line[..|line| - 1] else line
  }

  /** The line asks for its successor: its last visible character is a backslash. */
  predicate Continues(s: string) {
    var t := TrimEnd(s);
    t != [] && t[|t| - 1] == '\\'
  }

  /** The line without its backslash, joined to the next with a single space. */
  function JoinLine(s: string, next: string): string
    requires Continues(s)
  {
    var t := TrimEnd(s);
    t[..|t| - 1] + " " + TrimStart(StripCr(next))
  }

  /** The logical line that opens with `accum` and goes on over `rest`, and how many lines of
      `rest` it takes; none if the text ends first. */
  function Folded(accum: string, rest: seq<string>): (r: Option<(string, nat)>)
    ensures r.Some? ==> r.value.1 <= |rest| && !Continues(r.value.0)
    decreases |rest|
  {
    if !Continues(accum) then Some((accum, 0))
    else if rest == [] then None
    else
      match Folded(JoinLine(accum, rest[0]), rest[1..])
      case None => None
      case Some((text, used)) => Some((text, used + 1))
  }

  predicate IsComment(t: string) {
    t == [] || t[0] == '#' || t[0] == ';'
  }

  /** What one trimmed logical line does. */
  function Interpret(st: State, t: string, line: nat): Result<State, ParseError> {
    if IsComment(t) then Ok(st)
    else if t[0] == '[' then
      if |t| == 1 || t[|t| - 1] != ']' then Err(UnterminatedHeader(line)) else
      var name := Trim(t[1..|t| - 1]);
      Ok(State(st.ini.Extend(name, []), Some(name)))
    else if st.section.None? then Err(OutsideSection(line))
    else
      match SplitOnce(t, '=')
      case None => Err(NoEquals(line))
      case Some((k, v)) => Ok(State(st.ini.Extend(st.section.value, [Entry(Trim(k), Trim(v), line)]), st.section))
  }

  /** Parses `lines`, of which `base` came before. */
  function ParseLines(lines: seq<string>, base: nat, st: State): Result<State, ParseError>
    decreases |lines|
  {
    if lines == [] then Ok(st) else
      match Folded(StripCr(lines[0]), lines[1..])
      case None => Err(TrailingBackslash(base + 1))
      case Some((text, used)) =>
        match Interpret(st, Trim(text), base + 1)
        case Err(e) => Err(e)
        case Ok(st') => ParseLines(lines[1 + used..], base + 1 + used, st')
  }

  function ParsedFrom(r: Result<State, ParseError>): Result<Ini, ParseError> {
    match r
    case Ok(st) => Ok(st.ini)
    case Err(e) => Err(e)
  }

  function Parsed(source: string): Result<Ini, ParseError> {
    ParsedFrom(ParseLines(Split(source, '\n'), 0, START))
  }

  /** The parser as it runs: an index over the lines and an ini filled as it goes. */
  method Parse(source: string) returns (r: Result<Ini, ParseError>)
    ensures r == Parsed(source)
  {
    hide ParseLines, Interpret, Folded, Split;
    var ini, section: Option<string> := EMPTY, None;
    var lines := Split(source, '\n');
    var i := 0;
    assert lines[0..] == lines;
    while i < |lines|
      invariant 0 <= i <= |lines|
      invariant ParseLines(lines, 0, START) == ParseLines(lines[i..], i, State(ini, section))
    {
      var lineno := i + 1;
      var accum, end := Accumulate(lines, i);
      ParseStep(lines, i, State(ini, section));
      if accum.None? {
        return Err(TrailingBackslash(lineno));
      }
      var next := Interpret(State(ini, section), Trim(accum.value), lineno);
      if next.Err? {
        return Err(next.error);
      }
      ini, section := next.value.ini, next.value.section;
      i := end;
    }
    ParseNothing(|lines|, State(ini, section));
    assert lines[|lines|..] == [];
    return Ok(ini);
  }

  /** The continuation loop: the logical line that starts at line `i` and the index after it. */
  method Accumulate(lines: seq<string>, i: nat) returns (accum: Option<string>, end: nat)
    requires i < |lines|
    ensures match Folded(StripCr(lines[i]), lines[i + 1..])
      case None => accum.None?
      case Some((text, used)) => accum == Some(text) && end == i + 1 + used
  {
    hide Folded, JoinLine, Continues, StripCr;
    end := i;
    var line := StripCr(lines[i]);
    ghost var first := line;
    while Continues(line)
      invariant i <= end < |lines|
      invariant Folded(first, lines[i + 1..]) == Later(Folded(line, lines[end + 1..]), end - i)
      decreases |lines| - end
    {
      FoldedStep(line, lines, end + 1);
      end := end + 1;
      if end >= |lines| {
        return None, end;
      }
      line := JoinLine(line, lines[end]);
    }
    FoldedDone(line, lines[end + 1..]);
    end := end + 1;
    return Some(line), end;
  }

  /** The same logical line, seen `n` lines earlier. */
  function Later(r: Option<(string, nat)>, n: nat): Option<(string, nat)> {
    match r
    case None => None
    case Some((text, used)) => Some((text, used + n))
  }

  lemma FoldedDone(line: string, rest: seq<string>)
    requires !Continues(line)
    ensures Folded(line, rest) == Some((line, 0))
  {
  }

  lemma FoldedStep(line: string, lines: seq<string>, k: nat)
    requires Continues(line) && k <= |lines|
    ensures Folded(line, lines[k..]) ==
      if k == |lines| then None else Later(Folded(JoinLine(line, lines[k]), lines[k + 1..]), 1)
  {
    if k < |lines| {
      assert lines[k..][0] == lines[k] && lines[k..][1..] == lines[k + 1..];
    }
  }

  lemma ParseNothing(base: nat, st: State)
    ensures ParseLines([], base, st) == Ok(st)
  {
  }

  lemma ParseStep(lines: seq<string>, i: nat, st: State)
    requires i < |lines|
    ensures ParseLines(lines[i..], i, st) ==
      match Folded(StripCr(lines[i]), lines[i + 1..])
      case None => Err(TrailingBackslash(i + 1))
      case Some((text, used)) =>
        match Interpret(st, Trim(text), i + 1)
        case Err(e) => Err(e)
        case Ok(st') => ParseLines(lines[i + 1 + used..], i + 1 + used, st')
  {
    hide Interpret, Folded;
    assert lines[i..][0] == lines[i] && lines[i..][1..] == lines[i + 1..];
    var f := Folded(StripCr(lines[i]), lines[i + 1..]);
    if f.Some? {
      assert lines[i..][1 + f.value.1..] == lines[i + 1 + f.value.1..];
    }
  }

  // ----- where entries come from -----

  /** Entry `e` is what the logical line that opens at its own line number says. */
  predicate EntryAt(lines: seq<string>, e: Entry) {
    1 <= e.line <= |lines| &&
    match Folded(StripCr(lines[e.line - 1]), lines[e.line..])
    case None => false
    case Some((text, _)) =>
      match SplitOnce(Trim(text), '=')
      case None => false
      case Some((k, v)) => e.key == Trim(k) && e.value == Trim(v)
  }

  /** Every entry stems from one of the first `n` lines, and each section follows their order. */
  ghost predicate Traced(lines: seq<string>, es: seq<Entry>, n: nat) {
    && (forall i :: 0 <= i < |es| ==> EntryAt(lines, es[i]) && es[i].line <= n)
    && (forall i, j :: 0 <= i < j < |es| ==> es[i].line < es[j].line)
  }

  /** One logical line only ever adds: at most one entry, carrying its line number, to the section
      then current; no section loses or reorders anything. */
  lemma LineOnlyAdds(st: State, t: string, line: nat, n: string)
    requires Interpret(st, t, line).Ok?
    ensures var st' := Interpret(st, t, line).value;
      && st.ini.order <= st'.ini.order
      && (st'.ini.Entries(n) == st.ini.Entries(n)
          || (st'.section == st.section == Some(n) && SplitOnce(t, '=').Some?
              && st'.ini.Entries(n) == st.ini.Entries(n)
                 + [Entry(Trim(SplitOnce(t, '=').value.0), Trim(SplitOnce(t, '=').value.1), line)]))
  {
    hide Trim;
    assert st.ini.Entries(n) + [] == st.ini.Entries(n);
  }

  lemma {:induction false} ParseTraces(lines: seq<string>, i: nat, st: State, n: string)
    requires i <= |lines| && Traced(lines, st.ini.Entries(n), i) && ParseLines(lines[i..], i, st).Ok?
    ensures Traced(lines, ParseLines(lines[i..], i, st).value.ini.Entries(n), |lines|)
    decreases |lines| - i
  {
    hide ParseLines, Interpret, Folded, StripCr, Ini.Entries, Trim;
    if i == |lines| {
      assert lines[i..] == [];
      ParseNothing(i, st);
    } else {
      ParseStep(lines, i, st);
      var (text, used) := Folded(StripCr(lines[i]), lines[i + 1..]).value;
      var st' := Interpret(st, Trim(text), i + 1).value;
      LineOnlyAdds(st, Trim(text), i + 1, n);
      assert Traced(lines, st'.ini.Entries(n), i + 1 + used);
      ParseTraces(lines, i + 1 + used, st', n);
    }
  }

  /** Every entry of a parsed text is what the text says at the entry's line number, and the entries
      of a section stand in the order of their lines. */
  lemma EntriesPointHome(source: string, n: string)
    requires Parsed(source).Ok?
    ensures Traced(Split(source, '\n'), Parsed(source).value.Entries(n), |Split(source, '\n')|)
  {
    hide ParseLines, Split, EntryAt;
    var lines := Split(source, '\n');
    assert lines[0..] == lines;
    ParseTraces(lines, 0, START, n);
  }

  // ----- effective lists -----

  predicate Resets(e: Entry) { Trim(e.value) == [] }

  /** The entries for `key` after the last reset. */
  function Effective(entries: seq<Entry>, key: string): seq<Entry> {
    if entries == [] then [] else
      var n := |entries| - 1;
      var before := Effective(entries[..n], key);
      if entries[n].key != key then before
      else if Resets(entries[n]) then []
      else before + [entries[n]]
  }

  method EffectiveList(ini: Ini, section: string, key: string) returns (out: seq<Entry>)
    ensures out == Effective(ini.Entries(section), key)
  {
    out := [];
    if section in ini.table {
      var entries := ini.table[section];
      for i := 0 to |entries|
        invariant out == Effective(entries[..i], key)
      {
        var e := entries[i];
        assert entries[..i + 1][..i] == entries[..i];
        if e.key == key {
          if Trim(e.value) == [] {
            out := [];
          } else {
            out := out + [e];
          }
        }
      }
      assert entries[..|entries|] == entries;
    }
  }

  /** Some entry for `key` is empty, so that the list starts over. */
  predicate ResetsKey(entries: seq<Entry>, key: string) {
    exists i :: 0 <= i < |entries| && entries[i].key == key && Resets(entries[i])
  }

  /** A later layer replaces the list if it resets the key, and otherwise adds to it. */
  lemma {:induction false} EffectiveLayers(a: seq<Entry>, b: seq<Entry>, key: string)
    ensures Effective(a + b, key) == if ResetsKey(b, key) then Effective(b, key)
      else Effective(a, key) + Effective(b, key)
  {
    if b == [] {
      assert a + b == a;
    } else {
      var n := |b| - 1;
      assert (a + b)[..|a| + n] == a + b[..n];
      EffectiveLayers(a, b[..n], key);
      assert ResetsKey(b, key) <==> ResetsKey(b[..n], key) || (b[n].key == key && Resets(b[n])) by {
        assert forall i :: 0 <= i < n ==> b[..n][i] == b[i];
      }
      hide ResetsKey, Resets;
    }
  }
}
