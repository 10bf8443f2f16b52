/** Continued lines: a text reads like the same text with each continued line joined to its next. */
module Continuations {
  import opened Wrappers
  import opened Strings
  import opened Inis
  import opened Layering

  predicate AllSpace(s: string) { forall i :: 0 <= i < |s| ==> IsSpace(s[i]) }

  /** A line as a text has it: leading blanks, its own content, and perhaps a carriage return. */
  predicate IsLine(lead: string, body: string, cr: string) {
    && AllSpace(lead) && (body == "" || !IsSpace(body[0]))
    && (cr == "\r" || (cr == "" && (lead + body == "" || (lead + body)[|lead + body| - 1] != '\r')))
  }

  // ----- trimming -----

  lemma {:induction false} TrimEndAppend(s: string, c: char, blanks: string)
    requires AllSpace(blanks) && !IsSpace(c)
    ensures TrimEnd(s + [c] + blanks) == s + [c]
  {
    var t := s + [c] + blanks;
    if blanks == [] {
      assert t == s + [c];
    } else {
      var n := |blanks| - 1;
      assert t[|t| - 1] == blanks[n];
      assert t[..|t| - 1] == s + [c] + blanks[..n];
      TrimEndAppend(s, c, blanks[..n]);
    }
  }

  lemma {:induction false} TrimStartAppend(lead: string, s: string)
    requires AllSpace(lead) && (s == "" || !IsSpace(s[0]))
    ensures TrimStart(lead + s) == s
  {
    if lead == [] {
      assert lead + s == s;
    } else {
      assert (lead + s)[1..] == lead[1..] + s;
      TrimStartAppend(lead[1..], s);
    }
  }

  /** What follows the first visible character does not matter to trimming the start. */
  lemma {:induction false} TrimStartVisible(s: string, t: string)
    requires !AllSpace(s)
    ensures TrimStart(s + t) == TrimStart(s) + t && TrimStart(s) != "" && !IsSpace(TrimStart(s)[0])
  {
    if IsSpace(s[0]) {
      assert (s + t)[1..] == s[1..] + t;
      assert !AllSpace(s[1..]) by {
        var i :| 0 <= i < |s| && !IsSpace(s[i]);
        assert s[1..][i - 1] == s[i];
      }
      TrimStartVisible(s[1..], t);
    }
  }

  lemma {:induction false} TrimStartBlank(s: string)
    requires AllSpace(s)
    ensures TrimStart(s) == ""
  {
    if s != [] {
      TrimStartBlank(s[1..]);
    }
  }

  /** A trailing carriage return is white space like any other. */
  lemma TrimCr(s: string)
    ensures TrimEnd(StripCr(s)) == TrimEnd(s) && Trim(StripCr(s)) == Trim(s)
  {
    var t := StripCr(s);
    if t != s {
      assert s == t + ['\r'];
      if AllSpace(t) {
        TrimStartBlank(t);
        TrimStartBlank(s);
      } else {
        TrimStartVisible(t, ['\r']);
        var u := TrimStart(t);
        assert (u + ['\r'])[..|u|] == u;
      }
    }
  }

  // ----- one continuation -----

  /** A carriage return at the end of a line does not change what it opens. */
  lemma FoldedCr(s: string, rest: seq<string>)
    ensures SameText(Folded(s, rest), Folded(StripCr(s), rest), 0)
  {
    TrimCr(s);
  }

  /** The same logical line but for surrounding blanks, one taking `n` more lines. */
  predicate SameText(f: Option<(string, nat)>, g: Option<(string, nat)>, n: nat) {
    match (f, g)
    case (None, None) => true
    case (Some((x, i)), Some((y, j))) => Trim(x) == Trim(y) && i == j + n
    case _ => false
  }

  lemma JoinedLine(s: string, blanks: string, lead: string, body: string, cr: string)
    requires AllSpace(blanks) && IsLine(lead, body, cr)
    ensures Continues(s + "\\" + blanks)
    ensures JoinLine(s + "\\" + blanks, lead + body + cr) == s + " " + body
  {
    assert !IsSpace('\\');
    hide TrimEnd, TrimStart, IsSpace;
    TrimEndAppend(s, '\\', blanks);
    assert StripCr(lead + body + cr) == lead + body;
    TrimStartAppend(lead, body);
  }
  /** Opening with the continued line, or with the joined one. */
  lemma OpensAlike(s: string, blanks: string, lead: string, body: string, cr: string, post: seq<string>)
    requires AllSpace(blanks) && IsLine(lead, body, cr)
    ensures SameText(Folded(StripCr(s + "\\" + blanks), [lead + body + cr] + post),
                     Folded(StripCr(s + " " + body), post), 1)
  {
    var line, next := s + "\\" + blanks, lead + body + cr;
    assert exists b :: AllSpace(b) && StripCr(line) == s + "\\" + b by {
      if blanks != "" {
        assert line == s + "\\" + blanks[..|blanks| - 1] + [blanks[|blanks| - 1]];
        assert AllSpace(blanks[..|blanks| - 1]);
      }
      assert AllSpace(blanks);
    }
    var b :| AllSpace(b) && StripCr(line) == s + "\\" + b;
    hide StripCr, JoinLine, Continues, AllSpace, IsLine, Folded;
    JoinedLine(s, b, lead, body, cr);
    FoldedHead(StripCr(line), next, post);
    FoldedCr(s + " " + body, post);
  }

  lemma FoldedHead(accum: string, next: string, rest: seq<string>)
    requires Continues(accum)
    ensures Folded(accum, [next] + rest) == Later(Folded(JoinLine(accum, next), rest), 1)
  {
    assert ([next] + rest)[0] == next && ([next] + rest)[1..] == rest;
  }
  /** Met while an earlier line is being continued; a visible `s` keeps the spacing the same. */
  lemma {:induction false} ContinuesAlike(accum: string, rest: seq<string>, s: string, blanks: string, lead: string,
                                          body: string, cr: string, post: seq<string>)
    requires AllSpace(blanks) && IsLine(lead, body, cr) && !AllSpace(s) && Folded(accum, rest).None?
    ensures SameText(Folded(accum, rest + ([s + "\\" + blanks, lead + body + cr] + post)),
                     Folded(accum, rest + ([s + " " + body] + post)), 1)
    ensures var f := Folded(accum, rest + ([s + " " + body] + post)); f.Some? ==> f.value.1 > |rest|
    decreases |rest|
  {
    hide JoinLine, Continues, AllSpace, IsLine;
    var two, one := [s + "\\" + blanks, lead + body + cr] + post, [s + " " + body] + post;
    if rest == [] {
      assert rest + two == two && rest + one == one;
      assert two == [s + "\\" + blanks] + ([lead + body + cr] + post);
      hide Folded;
      JoinsAlike(accum, s, blanks, lead, body, cr, post);
      FoldedHead(accum, s + "\\" + blanks, [lead + body + cr] + post);
      FoldedHead(accum, s + " " + body, post);
    } else {
      ContinuesAlike(JoinLine(accum, rest[0]), rest[1..], s, blanks, lead, body, cr, post);
      assert rest + two == [rest[0]] + (rest[1..] + two) && rest + one == [rest[0]] + (rest[1..] + one);
      hide Folded;
      FoldedHead(accum, rest[0], rest[1..] + two);
      FoldedHead(accum, rest[0], rest[1..] + one);
    }
  }

  /** One step of it: both join the same visible text. */
  lemma JoinsAlike(accum: string, s: string, blanks: string, lead: string, body: string, cr: string, post: seq<string>)
    requires AllSpace(blanks) && IsLine(lead, body, cr) && !AllSpace(s) && Continues(accum)
    ensures SameText(Folded(JoinLine(accum, s + "\\" + blanks), [lead + body + cr] + post),
                     Folded(JoinLine(accum, s + " " + body), post), 1)
  {
    hide Folded, IsLine, Continues, AllSpace, JoinLine, TrimStart, StripCr;
    var before := JoinLine(accum, "") + TrimStart(s);
    JoinsText(accum, s, "\\" + blanks);
    JoinsText(accum, s, " " + body);
    assert s + ("\\" + blanks) == s + "\\" + blanks && s + (" " + body) == s + " " + body;
    assert before + ("\\" + blanks) == before + "\\" + blanks && before + (" " + body) == before + " " + body;
    OpensAlike(before, blanks, lead, body, cr, post);
  }

  lemma JoinsText(accum: string, s: string, t: string)
    requires Continues(accum) && !AllSpace(s)
    ensures JoinLine(accum, s + t) == StripCr(JoinLine(accum, "") + TrimStart(s) + t)
  {
    hide Continues, AllSpace;
    var before, text := JoinLine(accum, ""), TrimStart(s) + t;
    TrimStartVisible(s, t);
    JoinsTrimmed(accum, s + t, text);
    assert before + text == before + TrimStart(s) + t;
    hide JoinLine, TrimStart;
    assert StripCr(before + text) == before + StripCr(text);
  }

  /** Joining a line adds its text after the trimmed start. */
  lemma JoinsTrimmed(accum: string, line: string, text: string)
    requires Continues(accum) && TrimStart(line) == text && text != "" && !IsSpace(text[0])
    ensures JoinLine(accum, line) == JoinLine(accum, "") + StripCr(text)
  {
    var cr := StripCr(line);
    assert StripCr("") == "" && TrimStart("") == "";
    assert TrimStart(cr) == StripCr(text) by {
      TrimStartSuffix(line);
    }
  }

  /** Trimming the start and dropping a final carriage return do not interfere. */
  lemma {:induction false} TrimStartSuffix(line: string)
    requires TrimStart(line) != ""
    ensures TrimStart(StripCr(line)) == StripCr(TrimStart(line))
  {
    if IsSpace(line[0]) {
      assert StripCr(line)[1..] == StripCr(line[1..]);
      TrimStartSuffix(line[1..]);
    }
  }
  // ----- whole texts -----

  /** The lines end in the middle of a continued line. */
  ghost predicate Hangs(lines: seq<string>, base: nat, st: State) {
    exists n :: ParseLines(lines, base, st) == Err(TrailingBackslash(n))
  }

  /** One logical line off the front of two texts that open alike. */
  lemma HeadsAlike(a: seq<string>, b: seq<string>, base: nat, base': nat, st: State, st': State, rest: seq<string>)
    requires a != [] && b != [] && SameButLines(st, st')
    requires SameText(Folded(StripCr(a[0]), a[1..]), Folded(StripCr(b[0]), b[1..]), 1)
    requires var g := Folded(StripCr(b[0]), b[1..]);
      g.Some? ==> a[2 + g.value.1..] == rest && b[1 + g.value.1..] == rest
    ensures SameOutcome(ParseLines(a, base, st), ParseLines(b, base', st'))
  {
    hide Folded, Interpret, ParseLines, StripCr, Trim, SameButLines;
    ParseHead(a, base, st);
    ParseHead(b, base', st');
    var f, g := Folded(StripCr(a[0]), a[1..]), Folded(StripCr(b[0]), b[1..]);
    if g.Some? {
      var ia, ib := Interpret(st, Trim(f.value.0), base + 1), Interpret(st', Trim(g.value.0), base' + 1);
      InterpretErased(st, st', Trim(g.value.0), base + 1, base' + 1);
      if ia.Ok? {
        ParseErased(rest, base + 1 + f.value.1, base' + 1 + g.value.1, ia.value, ib.value);
      }
    }
  }

  /** A complete logical line off the front of a text that goes on with `tail`. */
  lemma HeadAppend(pre: seq<string>, tail: seq<string>, base: nat, st: State, text: string, used: nat)
    requires pre != [] && Folded(StripCr(pre[0]), pre[1..]) == Some((text, used)) && used < |pre|
    ensures ParseLines(pre + tail, base, st) ==
      match Interpret(st, Trim(text), base + 1)
      case Err(e) => Err(e)
      case Ok(st') => ParseLines(pre[1 + used..] + tail, base + 1 + used, st')
  {
    hide Folded, Interpret, ParseLines, StripCr, Trim;
    FoldedAppend(StripCr(pre[0]), pre[1..], tail);
    ParseHead(pre + tail, base, st);
    assert (pre + tail)[0] == pre[0] && (pre + tail)[1..] == pre[1..] + tail;
    assert (pre + tail)[1 + used..] == pre[1 + used..] + tail;
  }

  lemma ContinuedHere(s: string, blanks: string, lead: string, body: string, cr: string, post: seq<string>, base: nat,
                      base': nat, st: State, st': State)
    requires AllSpace(blanks) && IsLine(lead, body, cr) && SameButLines(st, st')
    ensures SameOutcome(ParseLines([s + "\\" + blanks, lead + body + cr] + post, base, st),
                        ParseLines([s + " " + body] + post, base', st'))
  {
    hide Folded, ParseLines, StripCr, SameButLines, IsLine, AllSpace, SameText;
    var two, one := [s + "\\" + blanks, lead + body + cr] + post, [s + " " + body] + post;
    assert two[1..] == [lead + body + cr] + post && one[1..] == post;
    OpensAlike(s, blanks, lead, body, cr, post);
    var g := Folded(StripCr(one[0]), post);
    assert g.Some? ==> two[2 + g.value.1..] == post[g.value.1..] && one[1 + g.value.1..] == post[g.value.1..];
    HeadsAlike(two, one, base, base', st, st', if g.Some? then post[g.value.1..] else []);
  }

  lemma ContinuedThrough(pre: seq<string>, s: string, blanks: string, lead: string, body: string, cr: string,
                         post: seq<string>, base: nat, base': nat, st: State, st': State)
    requires AllSpace(blanks) && IsLine(lead, body, cr) && SameButLines(st, st')
    requires !AllSpace(s) && pre != [] && Folded(StripCr(pre[0]), pre[1..]).None?
    ensures SameOutcome(ParseLines(pre + ([s + "\\" + blanks, lead + body + cr] + post), base, st),
                        ParseLines(pre + ([s + " " + body] + post), base', st'))
  {
    hide Folded, ParseLines, StripCr, SameButLines, IsLine, AllSpace, SameText;
    var two, one := [s + "\\" + blanks, lead + body + cr] + post, [s + " " + body] + post;
    var first, rest := StripCr(pre[0]), pre[1..];
    assert (pre + two)[1..] == rest + two && (pre + one)[1..] == rest + one;
    ContinuesAlike(first, rest, s, blanks, lead, body, cr, post);
    var g := Folded(first, rest + one);
    if g.Some? {
      RestAlike(pre, two, one, post, g.value.1);
    }
    HeadsAlike(pre + two, pre + one, base, base', st, st', if g.Some? then post[g.value.1 - |pre|..] else []);
  }

  lemma {:induction false} ContinuedFrom(pre: seq<string>, s: string, blanks: string, lead: string, body: string,
                                         cr: string, post: seq<string>, base: nat, base': nat, st: State, st': State)
    requires AllSpace(blanks) && IsLine(lead, body, cr) && SameButLines(st, st')
    requires !AllSpace(s) || !Hangs(pre, base, st)
    ensures SameOutcome(ParseLines(pre + ([s + "\\" + blanks, lead + body + cr] + post), base, st),
                        ParseLines(pre + ([s + " " + body] + post), base', st'))
    decreases |pre|
  {
    hide Folded, Interpret, ParseLines, StripCr, Trim, SameButLines, IsLine, AllSpace;
    var two, one := [s + "\\" + blanks, lead + body + cr] + post, [s + " " + body] + post;
    if pre == [] {
      assert pre + two == two && pre + one == one;
      ContinuedHere(s, blanks, lead, body, cr, post, base, base', st, st');
    } else {
      ParseHead(pre, base, st);
      var f := Folded(StripCr(pre[0]), pre[1..]);
      if f.None? {
        ContinuedThrough(pre, s, blanks, lead, body, cr, post, base, base', st, st');
      } else {
        var (text, used) := f.value;
        HeadAppend(pre, two, base, st, text, used);
        HeadAppend(pre, one, base', st', text, used);
        InterpretErased(st, st', Trim(text), base + 1, base' + 1);
        var ia, ib := Interpret(st, Trim(text), base + 1), Interpret(st', Trim(text), base' + 1);
        if ia.Ok? {
          ContinuedFrom(pre[1 + used..], s, blanks, lead, body, cr, post, base + 1 + used, base' + 1 + used,
            ia.value, ib.value);
        }
      }
    }
  }

  lemma RestAlike(pre: seq<string>, two: seq<string>, one: seq<string>, post: seq<string>, used: nat)
    requires pre != [] && |two| == |post| + 2 && two[2..] == post && |one| == |post| + 1 && one[1..] == post
    requires |pre| <= used < |pre + one|
    ensures (pre + two)[2 + used..] == post[used - |pre|..] && (pre + one)[1 + used..] == post[used - |pre|..]
  {
    var k := used - |pre|;
    assert (pre + two)[2 + used..] == two[2 + k..] == two[2..][k..];
    assert (pre + one)[1 + used..] == one[1 + k..] == one[1..][k..];
  }
  /** The same ini or the same error, line numbers aside. */
  ghost predicate SameReading(a: Result<Ini, ParseError>, b: Result<Ini, ParseError>) {
    match (a, b)
    case (Ok(x), Ok(y)) => Erase(x) == Erase(y)
    case (Err(e), Err(f)) => e.(line := 0) == f.(line := 0)
    case _ => false
  }

  /** A line that ends in a backslash is read with the next as one: its text up to the backslash, a
      space, and the next line without its leading blanks. (Where several lines are continued and one
      of them holds nothing but the backslash, that line still adds its space.) */
  lemma ContinuedLineJoins(source: string, joined: string, pre: seq<string>, s: string, blanks: string, lead: string,
                           body: string, cr: string, post: seq<string>)
    requires AllSpace(blanks) && IsLine(lead, body, cr) && (!AllSpace(s) || !Hangs(pre, 0, START))
    requires Split(source, '\n') == pre + ([s + "\\" + blanks, lead + body + cr] + post)
    requires Split(joined, '\n') == pre + ([s + " " + body] + post)
    ensures SameReading(Parsed(source), Parsed(joined))
  {
    hide ParseLines, Split, AllSpace, IsLine, Erase;
    assert SameButLines(START, START);
    ContinuedFrom(pre, s, blanks, lead, body, cr, post, 0, 0, START, START);
  }

  lemma FoldsToNothing(s: string, blanks: string)
    requires AllSpace(blanks)
    ensures Folded(StripCr(s + "\\" + blanks), []) == None
  {
    TrimEndAppend(s, '\\', blanks);
    TrimCr(s + "\\" + blanks);
    hide TrimEnd, StripCr;
  }

  /** A continuation with nothing to continue it is an error, reported at the line it opens. */
  lemma NothingToContinue(source: string, pre: seq<string>, s: string, blanks: string)
    requires AllSpace(blanks) && Split(source, '\n') == pre + [s + "\\" + blanks] && ParseLines(pre, 0, START).Ok?
    ensures Parsed(source) == Err(TrailingBackslash(|pre| + 1))
  {
    hide ParseLines, Split, Folded, StripCr;
    var line := s + "\\" + blanks;
    FoldsToNothing(s, blanks);
    ParseAppend(pre, [line], 0, START);
    ParseHead([line], |pre|, ParseLines(pre, 0, START).value);
  }

  // ----- several in a row -----

  /** A line in the middle: it continues one line and is continued by another. */
  datatype Middle = Middle(lead: string, body: string, blanks: string)

  predicate AreMiddles(ms: seq<Middle>) {
    forall i :: 0 <= i < |ms| ==>
      AllSpace(ms[i].lead) && AllSpace(ms[i].blanks) && (ms[i].body == "" || !IsSpace(ms[i].body[0]))
  }

  function Lines(ms: seq<Middle>): seq<string> {
    if ms == [] then [] else [ms[0].lead + ms[0].body + "\\" + ms[0].blanks] + Lines(ms[1..])
  }

  function Spaced(s: string, ms: seq<Middle>): string
    decreases |ms|
  {
    if ms == [] then s else Spaced(s + " " + ms[0].body, ms[1..])
  }

  /** The blanks after a backslash, without and with a final carriage return. */
  lemma MiddleIsLine(m: Middle) returns (blanks: string, cr: string)
    requires AreMiddles([m])
    ensures AllSpace(blanks) && IsLine(m.lead, m.body + "\\" + blanks, cr)
    ensures m.lead + m.body + "\\" + m.blanks == m.lead + (m.body + "\\" + blanks) + cr
  {
    assert AllSpace([m][0].lead) && AllSpace([m][0].blanks);
    var n := |m.blanks|;
    if n > 0 && m.blanks[n - 1] == '\r' {
      blanks, cr := m.blanks[..n - 1], "\r";
      assert m.blanks == blanks + cr;
    } else {
      blanks, cr := m.blanks, "";
      var all := m.lead + (m.body + "\\" + blanks);
      assert all[|all| - 1] == if n > 0 then blanks[n - 1] else '\\';
    }
  }

  /** However many lines in a row are continued, they read as one line of their bodies with a space
      between each two. */
  lemma {:induction false} ContinuedLinesJoin(pre: seq<string>, s: string, blanks: string, ms: seq<Middle>,
                                              lead: string, body: string, cr: string, post: seq<string>)
    requires AllSpace(blanks) && AreMiddles(ms) && IsLine(lead, body, cr) && (!AllSpace(s) || !Hangs(pre, 0, START))
    ensures SameOutcome(
      ParseLines(pre + ([s + "\\" + blanks] + Lines(ms) + [lead + body + cr] + post), 0, START),
      ParseLines(pre + ([Spaced(s, ms) + " " + body] + post), 0, START))
    decreases |ms|
  {
    hide ParseLines, IsLine, SameOutcome, Hangs;
    assert SameButLines(START, START);
    hide SameButLines;
    if ms == [] {
      assert [s + "\\" + blanks] + Lines(ms) + [lead + body + cr] + post
          == [s + "\\" + blanks, lead + body + cr] + post;
      ContinuedFrom(pre, s, blanks, lead, body, cr, post, 0, 0, START, START);
    } else {
      var m, rest := ms[0], Lines(ms[1..]) + [lead + body + cr] + post;
      assert AreMiddles([m]) && AreMiddles(ms[1..]);
      var blanks', cr' := MiddleIsLine(m);
      var s' := s + " " + m.body;
      ContinuedFrom(pre, s, blanks, m.lead, m.body + "\\" + blanks', cr', rest, 0, 0, START, START);
      assert AllSpace(s') ==> AllSpace(s) by {
        assert forall i :: 0 <= i < |s| ==> s'[i] == s[i];
      }
      ContinuedLinesJoin(pre, s', blanks', ms[1..], lead, body, cr, post);
      assert s + " " + (m.body + "\\" + blanks') == s' + "\\" + blanks';
      assert [s + "\\" + blanks] + Lines(ms) + [lead + body + cr] + post
          == [s + "\\" + blanks, m.lead + (m.body + "\\" + blanks') + cr'] + rest;
      assert [s' + "\\" + blanks'] + rest == [s' + "\\" + blanks'] + Lines(ms[1..]) + [lead + body + cr] + post;
      OutcomesChain(ParseLines(pre + ([s + "\\" + blanks, m.lead + (m.body + "\\" + blanks') + cr'] + rest), 0, START),
        ParseLines(pre + ([s' + "\\" + blanks'] + rest), 0, START),
        ParseLines(pre + ([Spaced(s, ms) + " " + body] + post), 0, START));
    }
  }

  lemma OutcomesChain(a: Result<State, ParseError>, b: Result<State, ParseError>, c: Result<State, ParseError>)
    requires SameOutcome(a, b) && SameOutcome(b, c)
    ensures SameOutcome(a, c)
  {
  }
}
