/** What each form of line does to a unit file that parsed so far. */
module LineForms {
  import opened Wrappers
  import opened UnitNames
  import opened Strings
  import opened Inis
  import opened Layering
  import opened Continuations

  /** Text without blanks at its ends. */
  predicate Bare(s: string) {
    s == "" || (!IsSpace(s[0]) && !IsSpace(s[|s| - 1]))
  }

  lemma TrimBetween(lead: string, core: string, trail: string)
    requires AllSpace(lead) && AllSpace(trail) && Bare(core)
    ensures Trim(lead + core + trail) == core
    ensures core != "" ==> TrimEnd(lead + core + trail) == lead + core
  {
    hide IsSpace;
    if core == "" {
      assert AllSpace(lead + core + trail);
      TrimStartBlank(lead + core + trail);
    } else {
      var n := |core| - 1;
      assert lead + core + trail == lead + (core + trail);
      TrimStartAppend(lead, core + trail);
      assert core + trail == core[..n] + [core[n]] + trail;
      TrimEndAppend(core[..n], core[n], trail);
      assert lead + core + trail == (lead + core[..n]) + [core[n]] + trail;
      TrimEndAppend(lead + core[..n], core[n], trail);
      assert lead + core[..n] + [core[n]] == lead + core;
    }
  }

  lemma OneMoreLine(pre: seq<string>, line: string, st: State)
    requires ParseLines(pre, 0, START) == Ok(st) && !Continues(StripCr(line))
    ensures ParseLines(pre + [line], 0, START) == Interpret(st, Trim(line), |pre| + 1)
  {
    TrimCr(line);
    hide ParseLines, Interpret, StripCr, Trim, Continues;
    ParseAppend(pre, [line], 0, START);
    ParseHead([line], |pre|, st);
    FoldedDone(StripCr(line), []);
    assert [line][1..] == [];
    var r := Interpret(st, Trim(line), |pre| + 1);
    if r.Ok? {
      ParseNothing(|pre| + 1, r.value);
    }
  }

  /** A line with surrounding blanks, not ending in a backslash, does what its text says. */
  lemma TextLine(pre: seq<string>, lead: string, core: string, trail: string, st: State)
    requires ParseLines(pre, 0, START) == Ok(st) && AllSpace(lead) && AllSpace(trail) && Bare(core)
    requires core != "" ==> core[|core| - 1] != '\\'
    ensures ParseLines(pre + [lead + core + trail], 0, START) == Interpret(st, core, |pre| + 1)
  {
    hide ParseLines, Interpret, Trim, Continues, Bare, AllSpace;
    TrimBetween(lead, core, trail);
    EndsHere(lead, core, trail);
    OneMoreLine(pre, lead + core + trail, st);
  }

  lemma EndsHere(lead: string, core: string, trail: string)
    requires AllSpace(lead) && AllSpace(trail) && Bare(core) && (core != "" ==> core[|core| - 1] != '\\')
    ensures !Continues(StripCr(lead + core + trail))
  {
    hide Trim, TrimEnd, StripCr, IsSpace;
    var line := lead + core + trail;
    TrimCr(line);
    if core == "" {
      BlankNeverContinues(line);
    } else {
      TrimBetween(lead, core, trail);
      assert (lead + core)[|lead + core| - 1] == core[|core| - 1];
    }
  }

  lemma BlankNeverContinues(line: string)
    requires AllSpace(line)
    ensures !Continues(line)
  {
    TrimEndMeans(line);
    assert !IsSpace('\\');
    hide TrimEnd, IsSpace;
  }

  // ----- the forms -----

  /** Blank lines and comments change nothing. */
  lemma CommentIgnored(pre: seq<string>, lead: string, core: string, trail: string, st: State)
    requires ParseLines(pre, 0, START) == Ok(st) && AllSpace(lead) && AllSpace(trail) && Bare(core)
    requires core == "" || (core[0] in {'#', ';'} && core[|core| - 1] != '\\')
    ensures ParseLines(pre + [lead + core + trail], 0, START) == Ok(st)
  {
    hide ParseLines;
    TextLine(pre, lead, core, trail, st);
  }

  /** A header opens its section, which keeps its place and its entries if it was open before. */
  lemma HeaderOpens(pre: seq<string>, lead: string, a: string, name: string, b: string, trail: string, st: State)
    requires ParseLines(pre, 0, START) == Ok(st) && AllSpace(lead) && AllSpace(trail)
    requires AllSpace(a) && AllSpace(b) && Bare(name)
    ensures var r := ParseLines(pre + [lead + ("[" + a + name + b + "]") + trail], 0, START);
      && r.Ok? && r.value.section == Some(name)
      && r.value.ini.order == (if name in st.ini.order then st.ini.order else st.ini.order + [name])
      && forall n :: r.value.ini.Entries(n) == st.ini.Entries(n)
  {
    var core := "[" + a + name + b + "]";
    HeaderMeans(st, a, name, b, |pre| + 1);
    assert core[0] == '[' && core[|core| - 1] == ']' && !IsSpace('[') && !IsSpace(']');
    hide ParseLines, Trim, Interpret, AllSpace, IsSpace;
    TextLine(pre, lead, core, trail, st);
    hide Ini.Extend, Ini.Entries;
    ExtendShape(st.ini, name, []);
    forall n ensures st.ini.Extend(name, []).Entries(n) == st.ini.Entries(n) {
      ExtendEntries(st.ini, name, [], n);
      assert st.ini.Entries(n) + [] == st.ini.Entries(n);
    }
  }

  lemma HeaderMeans(st: State, a: string, name: string, b: string, line: nat)
    requires AllSpace(a) && AllSpace(b) && Bare(name)
    ensures Interpret(st, "[" + a + name + b + "]", line) == Ok(State(st.ini.Extend(name, []), Some(name)))
  {
    var core := "[" + a + name + b + "]";
    assert core[0] == '[' && core[|core| - 1] == ']' && core[1..|core| - 1] == a + name + b;
    TrimBetween(a, name, b);
    hide Trim, AllSpace, Ini.Extend;
  }

  /** A header that is not closed is an error. */
  lemma HeaderUnclosed(pre: seq<string>, lead: string, core: string, trail: string, st: State)
    requires ParseLines(pre, 0, START) == Ok(st) && AllSpace(lead) && AllSpace(trail) && Bare(core)
    requires core != "" && core[0] == '[' && core[|core| - 1] != ']' && core[|core| - 1] != '\\'
    ensures ParseLines(pre + [lead + core + trail], 0, START) == Err(UnterminatedHeader(|pre| + 1))
  {
    hide ParseLines;
    TextLine(pre, lead, core, trail, st);
  }

  /** A directive adds one entry at the end of the section that is open: the text before its first
      equals sign, and the text after it, both without surrounding blanks. */
  lemma DirectiveAdds(pre: seq<string>, lead: string, key: string, a: string, b: string, value: string, trail: string,
                      st: State)
    requires ParseLines(pre, 0, START) == Ok(st) && AllSpace(lead) && AllSpace(trail) && AllSpace(a) && AllSpace(b)
    requires Bare(key) && '=' !in key && (key == "" ==> a == "") && (key != "" ==> key[0] !in {'[', '#', ';'})
    requires Bare(value) && (value == "" ==> b == "") && (value != "" ==> value[|value| - 1] != '\\')
    ensures var r := ParseLines(pre + [lead + (key + a + "=" + b + value) + trail], 0, START);
      match st.section
      case None => r == Err(OutsideSection(|pre| + 1))
      case Some(s) =>
        && r.Ok? && r.value.section == Some(s)
        && forall n :: r.value.ini.Entries(n) ==
             st.ini.Entries(n) + if n == s then [Entry(key, value, |pre| + 1)] else []
  {
    var core := key + a + "=" + b + value;
    DirectiveIsBare(key, a, b, value);
    DirectiveMeans(st, key, a, b, value, |pre| + 1);
    hide ParseLines, Interpret, AllSpace, Bare;
    EntryAdded(pre, lead, core, trail, st, key, value);
  }

  lemma EntryAdded(pre: seq<string>, lead: string, core: string, trail: string, st: State, key: string, value: string)
    requires ParseLines(pre, 0, START) == Ok(st) && AllSpace(lead) && AllSpace(trail) && Bare(core)
    requires core != "" && core[|core| - 1] != '\\'
    requires Interpret(st, core, |pre| + 1) ==
      match st.section
      case None => Err(OutsideSection(|pre| + 1))
      case Some(s) => Ok(State(st.ini.Extend(s, [Entry(key, value, |pre| + 1)]), st.section))
    ensures var r := ParseLines(pre + [lead + core + trail], 0, START);
      match st.section
      case None => r == Err(OutsideSection(|pre| + 1))
      case Some(s) =>
        && r.Ok? && r.value.section == Some(s)
        && forall n :: r.value.ini.Entries(n) ==
             st.ini.Entries(n) + if n == s then [Entry(key, value, |pre| + 1)] else []
  {
    hide ParseLines, Interpret, AllSpace, Bare, Ini.Extend, Ini.Entries;
    TextLine(pre, lead, core, trail, st);
    if st.section.Some? {
      var s, e := st.section.value, [Entry(key, value, |pre| + 1)];
      forall n ensures st.ini.Extend(s, e).Entries(n) == st.ini.Entries(n) + if n == s then e else [] {
        ExtendEntries(st.ini, s, e, n);
        assert st.ini.Entries(n) + [] == st.ini.Entries(n);
      }
    }
  }

  lemma DirectiveMeans(st: State, key: string, a: string, b: string, value: string, line: nat)
    requires AllSpace(a) && AllSpace(b) && Bare(key) && '=' !in key && (key == "" ==> a == "")
    requires (key != "" ==> key[0] !in {'[', '#', ';'}) && Bare(value) && (value == "" ==> b == "")
    requires value != "" ==> value[|value| - 1] != '\\'
    ensures Interpret(st, key + a + "=" + b + value, line) ==
      match st.section
      case None => Err(OutsideSection(line))
      case Some(s) => Ok(State(st.ini.Extend(s, [Entry(key, value, line)]), st.section))
  {
    DirectiveIsBare(key, a, b, value);
    DirectiveSplits(key, a, b, value);
    hide Trim, SplitOnce, AllSpace, Bare, Ini.Extend;
  }

  lemma DirectiveIsBare(key: string, a: string, b: string, value: string)
    requires Bare(key) && (key == "" ==> a == "") && (key != "" ==> key[0] !in {'[', '#', ';'})
    requires Bare(value) && (value == "" ==> b == "") && (value != "" ==> value[|value| - 1] != '\\')
    ensures var core := key + a + "=" + b + value;
      core != "" && Bare(core) && core[|core| - 1] != '\\' && core[0] !in {'[', '#', ';'}
  {
    assert !IsSpace('=');
    hide IsSpace;
    var core := key + a + "=" + b + value;
    assert core[0] == if key == "" then '=' else key[0];
    assert core[|core| - 1] == if value == "" then '=' else value[|value| - 1];
  }

  lemma DirectiveSplits(key: string, a: string, b: string, value: string)
    requires Bare(key) && '=' !in key && AllSpace(a) && AllSpace(b) && Bare(value)
    ensures var r := SplitOnce(key + a + "=" + b + value, '=');
      r.Some? && Trim(r.value.0) == key && Trim(r.value.1) == value
  {
    var core, left := key + a + "=" + b + value, key + a;
    assert !IsSpace('=');
    hide IsSpace, Trim, Find;
    assert forall i :: 0 <= i < |a| ==> a[i] != '=';
    assert core[..|left|] == left && core[|left| + 1..] == b + value && core[|left|] == '=';
    FindUnique(core, '=', |left|);
    assert SplitOnce(core, '=') == Some((left, b + value));
    hide SplitOnce, Bare, AllSpace;
    TrimBetween("", key, a) by {
      assert AllSpace("");
    }
    TrimBetween(b, value, "") by {
      assert AllSpace("");
    }
    assert "" + key + a == left && b + value + "" == b + value;
  }

  /** Any other line within a section is an error, as it is outside. */
  lemma NoDirective(pre: seq<string>, lead: string, core: string, trail: string, st: State)
    requires ParseLines(pre, 0, START) == Ok(st) && AllSpace(lead) && AllSpace(trail) && Bare(core)
    requires core != "" && core[0] !in {'[', '#', ';'} && '=' !in core && core[|core| - 1] != '\\'
    ensures ParseLines(pre + [lead + core + trail], 0, START) ==
      Err(if st.section.None? then OutsideSection(|pre| + 1) else NoEquals(|pre| + 1))
  {
    hide ParseLines;
    TextLine(pre, lead, core, trail, st);
  }

  /** Once a line is wrong, what follows does not matter. */
  lemma {:induction false} ErrorsStay(pre: seq<string>, post: seq<string>, base: nat, st: State)
    requires ParseLines(pre, base, st).Err? && !ParseLines(pre, base, st).error.TrailingBackslash?
    ensures ParseLines(pre + post, base, st) == ParseLines(pre, base, st)
    decreases |pre|
  {
    hide ParseLines, Folded, Interpret, StripCr, Trim;
    if pre == [] {
      ParseNothing(base, st);
    } else {
      ParseHead(pre, base, st);
      var f := Folded(StripCr(pre[0]), pre[1..]);
      if f.Some? {
        var (text, used) := f.value;
        HeadAppend(pre, post, base, st, text, used);
        var r := Interpret(st, Trim(text), base + 1);
        if r.Ok? {
          ErrorsStay(pre[1 + used..], post, base + 1 + used, r.value);
        }
      }
    }
  }

  // ----- effective lists -----

  /** A single entry counts for its own key, once, unless its value is blank. */
  lemma EffectiveOne(e: Entry, key: string)
    ensures Effective([e], key) == if e.key == key && !AllSpace(e.value) then [e] else []
  {
    assert [e][..0] == [];
    assert Effective([], key) == [];
    if AllSpace(e.value) {
      TrimStartBlank(e.value);
    } else {
      TrimStartVisible(e.value, "");
      var t := TrimStart(e.value);
      TrimEndMeans(t);
    }
    hide IsSpace, TrimStart, TrimEnd;
  }
}
