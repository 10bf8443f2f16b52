/** Shell-style splitting of command lines, and why it undoes quoting. */
module ShellSplits {
  import opened Wrappers

  datatype ShellError = TrailingBackslash | TrailingBackslashInQuotes

  predicate IsBlank(c: char) { c == ' ' || c == '\t' }

  // ----- the splitting machine -----

  /** Inside single quotes: everything up to the closing quote, or to the end. */
  function InSingle(s: string, cur: string): (r: (string, string))
    ensures |r.0| <= |s|
  {
    if s == [] then ([], cur)
    else if s[0] == '\'' then (s[1..], cur)
    else InSingle(s[1..], cur + [s[0]])
  }

  /** What a backslash and `n` stand for inside double quotes. */
  function Unescape(n: char): string {
    if n == '\\' || n == '"' then [n]
    else if n == 'n' then "\n"
    else if n == 't' then "\t"
    else if n == 'r' then "\r"
    else ['\\', n]
  }

  /** Inside double quotes: escapes are resolved; the quote may stay open to the end. */
  function InDouble(s: string, cur: string): (r: Result<(string, string), ShellError>)
    ensures r.Ok? ==> |r.value.0| <= |s|
  {
    if s == [] then Ok(([], cur))
    else if s[0] == '"' then Ok((s[1..], cur))
    else if s[0] == '\\' then
      if |s| == 1 then Err(TrailingBackslashInQuotes) else InDouble(s[2..], cur + Unescape(s[1]))
    else InDouble(s[1..], cur + [s[0]])
  }

  /** The machine between characters: tokens so far, the current one, and whether it is open. */
  function Scan(s: string, out: seq<string>, cur: string, inToken: bool): Result<seq<string>, ShellError>
    decreases |s|
  {
    if s == [] then Ok(if inToken then out + [cur] else out)
    else if IsBlank(s[0]) then
      if inToken then Scan(s[1..], out + [cur], "", false) else Scan(s[1..], out, cur, false)
    else if s[0] == '\\' then
      if |s| == 1 then Err(TrailingBackslash) else Scan(s[2..], out, cur + [s[1]], true)
    else if s[0] == '\'' then
      var (rest, cur') := InSingle(s[1..], cur);
      Scan(rest, out, cur', true)
    else if s[0] == '"' then
      match InDouble(s[1..], cur)
      case Err(e) => Err(e)
      case Ok((rest, cur')) => Scan(rest, out, cur', true)
    else Scan(s[1..], out, cur + [s[0]], true)
  }

  function Words(s: string): Result<seq<string>, ShellError> { Scan(s, [], "", false) }

  // ----- the code -----

  method ShellSplit(s: string) returns (r: Result<seq<string>, ShellError>)
    ensures r == Words(s)
  {
    hide InSingle, InDouble;
    var out: seq<string> := [];
    var cur: string := "";
    var inToken := false;
    var i := 0;
    assert s[0..] == s;
    while i < |s|
      invariant 0 <= i <= |s|
      invariant Scan(s[i..], out, cur, inToken) == Words(s)
    {
      var c := s[i];
      assert s[i..][0] == c && s[i..][1..] == s[i + 1..];
      i := i + 1;
      if IsBlank(c) {
        if inToken {
          out := out + [cur];
          cur := "";
          inToken := false;
        }
      } else if c == '\\' {
        if i == |s| {
          return Err(TrailingBackslash);
        }
        assert s[i - 1..][2..] == s[i + 1..];
        cur := cur + [s[i]];
        i := i + 1;
        inToken := true;
      } else if c == '\'' {
        inToken := true;
        i, cur := ScanSingle(s, i, cur);
      } else if c == '"' {
        inToken := true;
        var q := ScanDouble(s, i, cur);
        if q.Err? {
          return Err(q.error);
        }
        i, cur := q.value.0, q.value.1;
      } else {
        cur := cur + [c];
        inToken := true;
      }
    }
    assert s[i..] == [];
    if inToken {
      out := out + [cur];
    }
    return Ok(out);
  }

  /** The single-quote loop, from just after the opening quote. */
  method ScanSingle(s: string, start: nat, cur0: string) returns (i: nat, cur: string)
    requires start <= |s|
    ensures start <= i <= |s| && InSingle(s[start..], cur0) == (s[i..], cur)
  {
    i, cur := start, cur0;
    while i < |s|
      invariant start <= i <= |s|
      invariant InSingle(s[i..], cur) == InSingle(s[start..], cur0)
    {
      assert s[i..][0] == s[i] && s[i..][1..] == s[i + 1..];
      i := i + 1;
      if s[i - 1] == '\'' {
        return;
      }
      cur := cur + [s[i - 1]];
    }
    assert s[i..] == [];
  }

  /** The double-quote loop, from just after the opening quote. */
  method ScanDouble(s: string, start: nat, cur0: string) returns (r: Result<(nat, string), ShellError>)
    requires start <= |s|
    ensures match InDouble(s[start..], cur0)
      case Err(e) => r == Err(e)
      case Ok((rest, cur)) => r.Ok? && start <= r.value.0 <= |s| && rest == s[r.value.0..] && cur == r.value.1
  {
    var i, cur := start, cur0;
    while i < |s|
      invariant start <= i <= |s|
      invariant InDouble(s[i..], cur) == InDouble(s[start..], cur0)
    {
      var c := s[i];
      assert s[i..][0] == c && s[i..][1..] == s[i + 1..];
      i := i + 1;
      if c == '"' {
        return Ok((i, cur));
      } else if c == '\\' {
        if i == |s| {
          return Err(TrailingBackslashInQuotes);
        }
        assert s[i - 1..][2..] == s[i + 1..];
        cur := cur + Unescape(s[i]);
        i := i + 1;
      } else {
        cur := cur + [c];
      }
    }
    assert s[i..] == [];
    return Ok((i, cur));
  }

  // ----- quoting -----

  /** One stretch of a word and the way it is written. */
  datatype Piece =
    | Plain(text: string)
    | SingleQuoted(text: string)
    | DoubleQuoted(text: string)
    | Escaped(text: string)

  predicate IsPlain(c: char) { !IsBlank(c) && c != '\\' && c != '\'' && c != '"' }

  predicate Writable(p: Piece) {
    match p
    case Plain(t) => forall i :: 0 <= i < |t| ==> IsPlain(t[i])
    case SingleQuoted(t) => '\'' !in t
    case DoubleQuoted(_) => true
    case Escaped(_) => true
  }

  /** A backslash before every backslash and double quote. */
  function EscapeDouble(t: string): string {
    if t == [] then []
    else (if t[0] == '\\' || t[0] == '"' then ['\\', t[0]] else [t[0]]) + EscapeDouble(t[1..])
  }

  /** A backslash before every character. */
  function EscapeAll(t: string): string {
    if t == [] then [] else ['\\', t[0]] + EscapeAll(t[1..])
  }

  function Write(p: Piece): string {
    match p
    case Plain(t) => t
    case SingleQuoted(t) => ['\''] + t + ['\'']
    case DoubleQuoted(t) => ['"'] + EscapeDouble(t) + ['"']
    case Escaped(t) => EscapeAll(t)
  }

  function WriteAll(ps: seq<Piece>): string {
    if ps == [] then [] else Write(ps[0]) + WriteAll(ps[1..])
  }

  function TextOf(ps: seq<Piece>): string {
    if ps == [] then [] else ps[0].text + TextOf(ps[1..])
  }

  lemma {:induction false} PlainReads(t: string, rest: string, out: seq<string>, cur: string, inToken: bool)
    requires forall i :: 0 <= i < |t| ==> IsPlain(t[i])
    ensures Scan(t + rest, out, cur, inToken) == Scan(rest, out, cur + t, inToken || t != [])
    decreases |t|
  {
    if t == [] {
      assert t + rest == rest && cur + t == cur;
    } else {
      assert (t + rest)[0] == t[0] && (t + rest)[1..] == t[1..] + rest;
      PlainReads(t[1..], rest, out, cur + [t[0]], true);
      assert cur + [t[0]] + t[1..] == cur + t;
    }
  }

  lemma {:induction false} SingleReads(t: string, rest: string, cur: string)
    requires '\'' !in t
    ensures InSingle(t + ['\''] + rest, cur) == (rest, cur + t)
    ensures InSingle(t, cur) == ([], cur + t)
    decreases |t|
  {
    if t == [] {
      assert (t + ['\''] + rest)[1..] == rest && cur + t == cur;
    } else {
      assert (t + ['\''] + rest)[1..] == t[1..] + ['\''] + rest;
      assert t == [t[0]] + t[1..];
      SingleReads(t[1..], rest, cur + [t[0]]);
      assert cur + [t[0]] + t[1..] == cur + t;
    }
  }

  lemma {:induction false} DoubleReads(t: string, rest: string, cur: string)
    ensures InDouble(EscapeDouble(t) + ['"'] + rest, cur) == Ok((rest, cur + t))
    ensures InDouble(EscapeDouble(t), cur) == Ok(([], cur + t))
    decreases |t|
  {
    var s := EscapeDouble(t) + ['"'] + rest;
    if t == [] {
      assert s[1..] == rest && cur + t == cur;
    } else {
      DoubleReads(t[1..], rest, cur + [t[0]]);
      assert cur + [t[0]] + t[1..] == cur + t;
      var tail := EscapeDouble(t[1..]);
      if t[0] == '\\' || t[0] == '"' {
        assert EscapeDouble(t) == ['\\', t[0]] + tail;
        assert s[..2] == ['\\', t[0]] && s[2..] == tail + ['"'] + rest;
        assert EscapeDouble(t)[2..] == tail;
      } else {
        assert EscapeDouble(t) == [t[0]] + tail;
        assert s[0] == t[0] && s[1..] == tail + ['"'] + rest;
        assert EscapeDouble(t)[1..] == tail;
      }
    }
  }

  lemma EscapeScanned(c: char, rest: string, out: seq<string>, cur: string, inToken: bool)
    ensures Scan(['\\', c] + rest, out, cur, inToken) == Scan(rest, out, cur + [c], true)
  {
    assert (['\\', c] + rest)[2..] == rest;
    hide InSingle, InDouble;
  }

  lemma {:induction false} EscapedReads(t: string, rest: string, out: seq<string>, cur: string, inToken: bool)
    ensures Scan(EscapeAll(t) + rest, out, cur, inToken) == Scan(rest, out, cur + t, inToken || t != [])
    decreases |t|
  {
    hide Scan;
    if t == [] {
      assert EscapeAll(t) + rest == rest && cur + t == cur;
    } else {
      assert EscapeAll(t) + rest == ['\\', t[0]] + (EscapeAll(t[1..]) + rest);
      EscapeScanned(t[0], EscapeAll(t[1..]) + rest, out, cur, inToken);
      EscapedReads(t[1..], rest, out, cur + [t[0]], true);
      assert cur + [t[0]] + t[1..] == cur + t;
    }
  }

  /** A written piece adds its text to the current word, opening one if it shows at all. */
  lemma PieceReads(p: Piece, rest: string, out: seq<string>, cur: string, inToken: bool)
    requires Writable(p)
    ensures Scan(Write(p) + rest, out, cur, inToken) == Scan(rest, out, cur + p.text, inToken || Write(p) != [])
  {
    hide Scan, InSingle, InDouble, EscapeDouble, IsPlain;
    match p {
      case Plain(t) => PlainReads(t, rest, out, cur, inToken);
      case SingleQuoted(t) => SingleScanned(t, rest, out, cur, inToken);
      case DoubleQuoted(t) => DoubleScanned(t, rest, out, cur, inToken);
      case Escaped(t) =>
        EscapedReads(t, rest, out, cur, inToken);
        assert EscapeAll(t) == [] <==> t == [];
    }
  }

  lemma SingleScanned(t: string, rest: string, out: seq<string>, cur: string, inToken: bool)
    requires '\'' !in t
    ensures Scan(['\''] + t + ['\''] + rest, out, cur, inToken) == Scan(rest, out, cur + t, true)
  {
    var s := ['\''] + t + ['\''] + rest;
    assert s[0] == '\'' && s[1..] == t + ['\''] + rest;
    SingleReads(t, rest, cur);
    hide InSingle;
  }

  lemma DoubleScanned(t: string, rest: string, out: seq<string>, cur: string, inToken: bool)
    ensures Scan(['"'] + EscapeDouble(t) + ['"'] + rest, out, cur, inToken) == Scan(rest, out, cur + t, true)
  {
    hide EscapeDouble, InDouble;
    var s := ['"'] + EscapeDouble(t) + ['"'] + rest;
    assert s[0] == '"' && s[1..] == EscapeDouble(t) + ['"'] + rest;
    DoubleReads(t, rest, cur);
  }

  lemma {:induction false} PiecesRead(ps: seq<Piece>, rest: string, out: seq<string>, cur: string, inToken: bool)
    requires forall i :: 0 <= i < |ps| ==> Writable(ps[i])
    ensures Scan(WriteAll(ps) + rest, out, cur, inToken) ==
      Scan(rest, out, cur + TextOf(ps), inToken || WriteAll(ps) != [])
    decreases |ps|
  {
    hide Scan, Writable, Write;
    if ps == [] {
      assert WriteAll(ps) + rest == rest && cur + TextOf(ps) == cur;
    } else {
      assert WriteAll(ps) + rest == Write(ps[0]) + (WriteAll(ps[1..]) + rest);
      PieceReads(ps[0], WriteAll(ps[1..]) + rest, out, cur, inToken);
      PiecesRead(ps[1..], rest, out, cur + ps[0].text, inToken || Write(ps[0]) != []);
      assert cur + ps[0].text + TextOf(ps[1..]) == cur + TextOf(ps);
    }
  }

  // ----- whole lines -----

  predicate AllBlank(s: string) { forall i :: 0 <= i < |s| ==> IsBlank(s[i]) }

  /** A word as written, and the blanks that follow it. */
  datatype Word = Word(pieces: seq<Piece>, blanks: string)

  /** The word shows on the line: empty words need a pair of quotes. */
  predicate Visible(w: Word) {
    WriteAll(w.pieces) != [] && AllBlank(w.blanks) && forall i :: 0 <= i < |w.pieces| ==> Writable(w.pieces[i])
  }

  /** Words are kept apart by blanks; only the last may go without. */
  ghost predicate Line(ws: seq<Word>) {
    && (forall i :: 0 <= i < |ws| ==> Visible(ws[i]))
    && (forall i :: 0 <= i < |ws| - 1 ==> ws[i].blanks != [])
  }

  function WriteLine(ws: seq<Word>): string {
    if ws == [] then [] else WriteAll(ws[0].pieces) + ws[0].blanks + WriteLine(ws[1..])
  }

  function Texts(ws: seq<Word>): (ts: seq<string>)
    ensures |ts| == |ws| && forall i :: 0 <= i < |ws| ==> ts[i] == TextOf(ws[i].pieces)
  {
    seq(|ws|, i requires 0 <= i < |ws| => TextOf(ws[i].pieces))
  }

  lemma {:induction false} BlanksRead(b: string, rest: string, out: seq<string>, cur: string)
    requires AllBlank(b)
    ensures Scan(b + rest, out, cur, false) == Scan(rest, out, cur, false)
    decreases |b|
  {
    if b == [] {
      assert b + rest == rest;
    } else {
      assert (b + rest)[0] == b[0] && (b + rest)[1..] == b[1..] + rest;
      BlanksRead(b[1..], rest, out, cur);
    }
  }

  /** The first blank after a word ends it; so does the end of the line. */
  lemma WordEnds(b: string, rest: string, out: seq<string>, t: string)
    requires AllBlank(b) && b != []
    ensures Scan(b + rest, out, t, true) == Scan(rest, out + [t], "", false)
  {
    assert (b + rest)[0] == b[0] && (b + rest)[1..] == b[1..] + rest;
    BlanksRead(b[1..], rest, out + [t], "");
    hide InSingle, InDouble;
  }

  lemma LineEnds(out: seq<string>, t: string)
    ensures Scan([], out, t, true) == Ok(out + [t]) && Scan([], out, t, false) == Ok(out)
  {
  }

  lemma {:induction false} WordsRead(ws: seq<Word>, out: seq<string>)
    requires Line(ws)
    ensures Scan(WriteLine(ws), out, "", false) == Ok(out + Texts(ws))
    decreases |ws|
  {
    hide Scan, AllBlank, WriteAll, TextOf, Writable;
    if ws == [] {
      LineEnds(out, "");
      assert out + Texts(ws) == out;
    } else {
      var w := ws[0];
      var rest := WriteLine(ws[1..]);
      assert WriteLine(ws) == WriteAll(w.pieces) + (w.blanks + rest);
      PiecesRead(w.pieces, w.blanks + rest, out, "", false);
      var t := TextOf(w.pieces);
      assert "" + t == t;
      if w.blanks == [] {
        assert ws == [w] && ws[1..] == [];
        assert w.blanks + rest == [];
        LineEnds(out, t);
        assert Texts(ws) == [t];
      } else {
        WordEnds(w.blanks, rest, out, t);
        assert Line(ws[1..]);
        WordsRead(ws[1..], out + [t]);
        assert out + [t] + Texts(ws[1..]) == out + Texts(ws);
      }
    }
  }

  /** Splitting undoes quoting: however the stretches of each word are written, and whatever
      blanks stand before, between and after the words, the words come back exactly. */
  lemma SplitUndoesQuoting(lead: string, ws: seq<Word>)
    requires AllBlank(lead) && Line(ws)
    ensures Words(lead + WriteLine(ws)) == Ok(Texts(ws))
  {
    hide Scan, WriteLine;
    BlanksRead(lead, WriteLine(ws), [], "");
    WordsRead(ws, []);
    assert [] + Texts(ws) == Texts(ws);
  }

  // ----- escapes and blanks -----

  /** Inside double quotes a backslash takes `n`, `t` and `r` to control characters, drops out before a
      quote or another backslash, and stays before anything else; outside it just drops out. */
  lemma EscapesRead(c: char)
    ensures Words(['"', '\\', c, '"']) ==
      Ok([if c == 'n' then "\n" else if c == 't' then "\t" else if c == 'r' then "\r"
          else if c == '"' then "\"" else if c == '\\' then "\\" else ['\\', c]])
    ensures Words(['\\', c]) == Ok([[c]])
  {
    var s := ['"', '\\', c, '"'];
    assert s[1..] == ['\\', c, '"'] && s[1..][2..] == ['"'] && ['"'][1..] == [];
    assert InDouble(['"'], Unescape(c)) == Ok(([], Unescape(c)));
    assert "" + Unescape(c) == Unescape(c);
    assert InDouble(s[1..], "") == Ok(([], Unescape(c)));
    assert Scan(s, [], "", false) == Scan([], [], Unescape(c), true);
    LastWord([], Unescape(c));
    assert ['\\', c][2..] == [] && "" + [c] == [c];
    LastWord([], [c]);
  }

  lemma LastWord(out: seq<string>, cur: string)
    ensures Scan([], out, cur, true) == Ok(out + [cur])
    ensures out == [] ==> out + [cur] == [cur]
  {
  }

  lemma PlainStep(c: char, rest: string, out: seq<string>, cur: string, inToken: bool)
    requires IsPlain(c)
    ensures Scan([c] + rest, out, cur, inToken) == Scan(rest, out, cur + [c], true)
  {
    assert ([c] + rest)[1..] == rest;
  }

  /** Words are separated by spaces and tabs, and by nothing else. */
  lemma BlanksSeparate(a: char, c: char, b: char)
    requires a !in " \t\\'\"" && b !in " \t\\'\"" && c !in "\\'\""
    ensures Words([a, c, b]) == Ok(if c == ' ' || c == '\t' then [[a], [b]] else [[a, c, b]])
  {
    assert ' ' in " \t\\'\"" && '\t' in " \t\\'\"" && '\\' in " \t\\'\"" && '\'' in " \t\\'\"";
    assert '"' in " \t\\'\"" && '\\' in "\\'\"" && '\'' in "\\'\"" && '"' in "\\'\"";
    assert [a, c, b] == [a] + ([c] + ([b] + [])) && "" + [a] == [a] && "" + [b] == [b];
    PlainStep(a, [c] + ([b] + []), [], "", false);
    if c == ' ' || c == '\t' {
      assert ([c] + ([b] + []))[1..] == [b] + [];
      PlainStep(b, [], [[a]], "", false);
      LastWord([[a]], [b]);
      assert [] + [[a]] == [[a]] && [[a]] + [[b]] == [[a], [b]];
    } else {
      PlainStep(c, [b] + [], [], [a], true);
      PlainStep(b, [], [], [a] + [c], true);
      LastWord([], [a] + [c] + [b]);
      assert [a] + [c] + [b] == [a, c, b] && [b] + [] == [b];
    }
  }

  // ----- where a line ends -----

  /** What is open at the end of a line: nothing, a quote, or an escape with nothing to escape. */
  datatype Mode = Between | Single | Double | Dangling

  function EndFrom(s: string, m: Mode): Mode
    decreases |s|
  {
    if s == [] || m == Dangling then m
    else if m == Single then EndFrom(s[1..], if s[0] == '\'' then Between else Single)
    else if s[0] == '\\' then if |s| == 1 then Dangling else EndFrom(s[2..], m)
    else if s[0] == '"' then EndFrom(s[1..], if m == Double then Between else Double)
    else EndFrom(s[1..], if m == Between && s[0] == '\'' then Single else m)
  }

  function Ending(s: string): Mode { EndFrom(s, Between) }

  /** Inside single quotes: closed within the line, or open to its end. */
  lemma {:induction false} SingleEnds(s: string, cur: string, t: string)
    ensures var (rest, cur') := InSingle(s, cur);
      if '\'' in s then
        && EndFrom(s, Single) == EndFrom(rest, Between) && InSingle(s + t, cur) == (rest + t, cur') && |rest| < |s|
      else
        && EndFrom(s, Single) == Single && rest == [] && InSingle(s + ['\''], cur) == ([], cur')
    decreases |s|
  {
    if s != [] {
      assert (s + t)[0] == s[0] && (s + t)[1..] == s[1..] + t;
      assert (s + ['\''])[0] == s[0] && (s + ['\''])[1..] == s[1..] + ['\''];
      if s[0] != '\'' {
        assert '\'' in s <==> '\'' in s[1..];
        SingleEnds(s[1..], cur + [s[0]], t);
      }
    } else {
      assert [] + ['\''] == ['\''] && ['\''][1..] == [];
    }
  }

  /** Inside double quotes: an escape left dangling, closed within the line, or open to its end. */
  lemma {:induction false} DoubleEnds(s: string, cur: string, t: string)
    ensures var r := InDouble(s, cur);
      && (EndFrom(s, Double) == Dangling || r.Ok?)
      && (r.Err? ==> EndFrom(s, Double) == Dangling)
      && (r.Ok? ==> var (rest, cur') := r.value;
            || (EndFrom(s, Double) == EndFrom(rest, Between) && InDouble(s + t, cur) == Ok((rest + t, cur'))
                 && |rest| < |s|)
            || (EndFrom(s, Double) == Double && rest == [] && InDouble(s + ['"'], cur) == Ok(([], cur'))))
    decreases |s|
  {
    if s == [] {
      assert [] + ['"'] == ['"'] && ['"'][1..] == [];
    } else {
      assert (s + t)[0] == s[0] && (s + t)[1..] == s[1..] + t;
      assert (s + ['"'])[0] == s[0] && (s + ['"'])[1..] == s[1..] + ['"'];
      if s[0] == '\\' {
        if |s| > 1 {
          assert (s + t)[1] == s[1] && (s + t)[2..] == s[2..] + t;
          assert (s + ['"'])[1] == s[1] && (s + ['"'])[2..] == s[2..] + ['"'];
          DoubleEnds(s[2..], cur + Unescape(s[1]), t);
        }
      } else if s[0] != '"' {
        DoubleEnds(s[1..], cur + [s[0]], t);
      }
    }
  }

  /** A line fails exactly on a dangling escape, and an open quote reads as if it were closed. */
  lemma {:induction false} ScanEnds(s: string, out: seq<string>, cur: string, inToken: bool)
    ensures Scan(s, out, cur, inToken).Err? <==> Ending(s) == Dangling
    ensures Ending(s) == Single ==> Scan(s + ['\''], out, cur, inToken) == Scan(s, out, cur, inToken)
    ensures Ending(s) == Double ==> Scan(s + ['"'], out, cur, inToken) == Scan(s, out, cur, inToken)
    decreases |s|
  {
    hide InSingle, InDouble;
    if s != [] {
      Shifted(s, ['\'']);
      Shifted(s, ['"']);
      if IsBlank(s[0]) {
        if inToken {
          ScanEnds(s[1..], out + [cur], "", false);
        } else {
          ScanEnds(s[1..], out, cur, false);
        }
      } else if s[0] == '\\' {
        if |s| > 1 {
          ScanEnds(s[2..], out, cur + [s[1]], true);
        }
      } else if s[0] == '\'' {
        AfterSingle(s, out, cur, inToken);
      } else if s[0] == '"' {
        AfterDouble(s, out, cur, inToken);
      } else {
        ScanEnds(s[1..], out, cur + [s[0]], true);
      }
    }
  }

  lemma Shifted(s: string, t: string)
    requires s != []
    ensures (s + t)[0] == s[0] && (s + t)[1..] == s[1..] + t
    ensures |s| > 1 ==> (s + t)[1] == s[1] && (s + t)[2..] == s[2..] + t
  {
  }

  lemma {:induction false} AfterSingle(s: string, out: seq<string>, cur: string, inToken: bool)
    requires s != [] && s[0] == '\''
    ensures Scan(s, out, cur, inToken).Err? <==> Ending(s) == Dangling
    ensures Ending(s) == Single ==> Scan(s + ['\''], out, cur, inToken) == Scan(s, out, cur, inToken)
    ensures Ending(s) == Double ==> Scan(s + ['"'], out, cur, inToken) == Scan(s, out, cur, inToken)
    decreases |s|, 0
  {
    hide InSingle, InDouble;
    Shifted(s, ['\'']);
    Shifted(s, ['"']);
    var (rest, cur') := InSingle(s[1..], cur);
    SingleEnds(s[1..], cur, ['\'']);
    SingleEnds(s[1..], cur, ['"']);
    if '\'' in s[1..] {
      ScanEnds(rest, out, cur', true);
    } else {
      LineEnds(out, cur');
    }
  }

  lemma {:induction false} AfterDouble(s: string, out: seq<string>, cur: string, inToken: bool)
    requires s != [] && s[0] == '"'
    ensures Scan(s, out, cur, inToken).Err? <==> Ending(s) == Dangling
    ensures Ending(s) == Single ==> Scan(s + ['\''], out, cur, inToken) == Scan(s, out, cur, inToken)
    ensures Ending(s) == Double ==> Scan(s + ['"'], out, cur, inToken) == Scan(s, out, cur, inToken)
    decreases |s|, 0
  {
    hide InSingle, InDouble;
    Shifted(s, ['\'']);
    Shifted(s, ['"']);
    DoubleEnds(s[1..], cur, ['\'']);
    DoubleEnds(s[1..], cur, ['"']);
    var r := InDouble(s[1..], cur);
    if r.Ok? {
      var (rest, cur') := r.value;
      ScanEnds(rest, out, cur', true);
      LineEnds(out, cur');
    }
  }

  /** Splitting fails exactly on lines that end in a dangling escape; an unterminated quote is not an
      error, but reads as if it were closed at the end. */
  lemma SplittingFailsExactly(s: string)
    ensures Words(s).Err? <==> Ending(s) == Dangling
    ensures Ending(s) == Single ==> Words(s + ['\'']) == Words(s)
    ensures Ending(s) == Double ==> Words(s + ['"']) == Words(s)
  {
    ScanEnds(s, [], "", false);
    hide Scan;
  }

  /** For instance, a line that is one open quote and its text reads as that text. */
  lemma UnterminatedQuotesClose(t: string)
    ensures '\'' !in t ==> Words(['\''] + t) == Ok([t])
    ensures Words(['"'] + EscapeDouble(t)) == Ok([t])
  {
    assert "" + t == t && [] + [t] == [t];
    assert Scan([], [], t, true) == Ok([t]);
    if '\'' !in t {
      SingleReads(t, [], "");
      assert (['\''] + t)[1..] == t;
    }
    DoubleReads(t, [], "");
    assert (['"'] + EscapeDouble(t))[1..] == EscapeDouble(t);
  }
}
