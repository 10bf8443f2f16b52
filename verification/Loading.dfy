/** Loading a unit: the main text, then the drop-ins of each directory laid on top. */
module Loading {
  import opened Wrappers
  import opened Inis
  import opened Layering
  import opened Rendering

  /** All sources parse. */
  predicate AllParse(sources: seq<string>) {
    forall i :: 0 <= i < |sources| ==> Parsed(sources[i]).Ok?
  }

  /** Why loading fails: a file cannot be read, does not parse, or the typed view rejects a directive. */
  datatype LoadError = Unreadable | Syntax(error: ParseError) | BadDirective

  /** A drop-in file is its text, or none if it cannot be read. */
  type File = Option<string>

  function Opened(f: File): Result<Ini, LoadError> {
    match f
    case None => Err(Unreadable)
    case Some(text) => match Parsed(text) case Ok(ini) => Ok(ini) case Err(e) => Err(Syntax(e))
  }

  predicate AllOpen(files: seq<File>) {
    forall i :: 0 <= i < |files| ==> Opened(files[i]).Ok?
  }

  function Texts(files: seq<File>): (ts: seq<string>)
    requires AllOpen(files)
    ensures |ts| == |files| && AllParse(ts) && forall i :: 0 <= i < |files| ==> files[i] == Some(ts[i])
  {
    seq(|files|, i requires 0 <= i < |files| => files[i].value)
  }

  /** The first of the files that cannot be read or parsed fails with `e`. */
  ghost predicate FirstBad(files: seq<File>, e: LoadError) {
    exists i :: 0 <= i < |files| && AllOpen(files[..i]) && Opened(files[i]) == Err(e)
  }

  /** The raw ini after laying the drop-ins on top of it, in order. */
  function MergeAll(raw: Ini, sources: seq<string>): Ini
    requires AllParse(sources)
  {
    if sources == [] then raw else Merge(MergeAll(raw, sources[..|sources| - 1]), Parsed(sources[|sources| - 1]).value)
  }

  /** Lays every section of one parsed drop-in under the existing ones. */
  method LayDropin(raw: Ini, added: Ini) returns (merged: Ini)
    requires raw.Valid() && added.Valid()
    ensures merged == Merge(raw, added)
  {
    hide Merge, Ini.Extend;
    merged := raw;
    MergeEmpty(raw);
    EmptyPrefix(added);
    for i := 0 to |added.order|
      invariant merged == Merge(raw, Prefix(added, i))
    {
      PrefixStep(added, i);
      PrefixValid(added, i);
      MergeExtend(raw, Prefix(added, i), added.order[i], added.Entries(added.order[i]));
      merged := merged.Extend(added.order[i], added.table[added.order[i]]);
    }
    PrefixWhole(added);
  }

  lemma PrefixValid(ini: Ini, k: nat)
    requires ini.Valid() && k <= |ini.order|
    ensures Prefix(ini, k).Valid()
  {
  }

  /** Whether the typed view accepts a section's directive: its key and value alone decide. */
  type Directives = (string, string, string) -> bool

  predicate Accepts(ok: Directives, ini: Ini) {
    forall n | n in ini.table :: forall i :: 0 <= i < |ini.table[n]| ==>
      ok(n, ini.table[n][i].key, ini.table[n][i].value)
  }

  lemma AcceptsSection(ok: Directives, ini: Ini, n: string)
    requires Accepts(ok, ini)
    ensures forall i :: 0 <= i < |ini.Entries(n)| ==> ok(n, ini.Entries(n)[i].key, ini.Entries(n)[i].value)
  {
  }

  lemma AcceptsBySection(ok: Directives, ini: Ini)
    requires forall n, i :: 0 <= i < |ini.Entries(n)| ==> ok(n, ini.Entries(n)[i].key, ini.Entries(n)[i].value)
    ensures Accepts(ok, ini)
  {
    forall n, i | n in ini.table && 0 <= i < |ini.table[n]| ensures ok(n, ini.table[n][i].key, ini.table[n][i].value) {
      assert ini.Entries(n)[i] == ini.table[n][i];
    }
  }

  /** A merge is accepted exactly when both layers are: no layer repairs another. */
  lemma MergeAccepted(ok: Directives, a: Ini, b: Ini)
    ensures Accepts(ok, Merge(a, b)) <==> Accepts(ok, a) && Accepts(ok, b)
  {
    hide Accepts, Merge, Ini.Entries;
    var m := Merge(a, b);
    forall n ensures m.Entries(n) == a.Entries(n) + b.Entries(n) {
      MergeEntries(a, b, n);
    }
    if Accepts(ok, m) {
      forall n, i | 0 <= i < |a.Entries(n)| ensures ok(n, a.Entries(n)[i].key, a.Entries(n)[i].value) {
        AcceptsSection(ok, m, n);
        assert m.Entries(n)[i] == a.Entries(n)[i];
      }
      forall n, i | 0 <= i < |b.Entries(n)| ensures ok(n, b.Entries(n)[i].key, b.Entries(n)[i].value) {
        AcceptsSection(ok, m, n);
        assert m.Entries(n)[|a.Entries(n)| + i] == b.Entries(n)[i];
      }
      AcceptsBySection(ok, a);
      AcceptsBySection(ok, b);
    }
    if Accepts(ok, a) && Accepts(ok, b) {
      forall n, i | 0 <= i < |m.Entries(n)| ensures ok(n, m.Entries(n)[i].key, m.Entries(n)[i].value) {
        AcceptsSection(ok, a, n);
        AcceptsSection(ok, b, n);
      }
      AcceptsBySection(ok, m);
    }
  }

  /** Line numbers do not matter to what is accepted. */
  lemma AcceptsErased(ok: Directives, a: Ini, b: Ini)
    requires Erase(a) == Erase(b)
    ensures Accepts(ok, a) <==> Accepts(ok, b)
  {
    hide Accepts, Erase;
    if Accepts(ok, a) {
      AcceptsTransfers(ok, a, b);
    }
    if Accepts(ok, b) {
      AcceptsTransfers(ok, b, a);
    }
  }

  lemma AcceptsTransfers(ok: Directives, a: Ini, b: Ini)
    requires Erase(a) == Erase(b) && Accepts(ok, a)
    ensures Accepts(ok, b)
  {
    hide Accepts, Erase, Ini.Entries, EraseEntries;
    forall n, i | 0 <= i < |b.Entries(n)| ensures ok(n, b.Entries(n)[i].key, b.Entries(n)[i].value) {
      EraseOf(a, n);
      EraseOf(b, n);
      AcceptsSection(ok, a, n);
      assert EraseEntries(a.Entries(n))[i] == EraseEntries(b.Entries(n))[i];
    }
    AcceptsBySection(ok, b);
  }

  /** The loader's core: read and parse each drop-in, lay it on top, then re-render, re-parse and
      re-derive the typed view. */
  method ApplyDropins(raw: Ini, files: seq<File>, ok: Directives) returns (r: Result<Ini, LoadError>)
    requires Good(raw)
    ensures !AllOpen(files) ==> r.Err? && FirstBad(files, r.error)
    ensures AllOpen(files) ==> var whole := Parsed(Rendered(MergeAll(raw, Texts(files))));
      whole.Ok? && r == if Accepts(ok, whole.value) then Ok(whole.value) else Err(BadDirective)
  {
    hide Good, Parsed, Rendered, Merge;
    var unit := raw;
    for i := 0 to |files|
      invariant AllOpen(files[..i]) && unit == MergeAll(raw, Texts(files[..i])) && Good(unit)
    {
      var text := files[i];
      if text.None? {
        return Err(Unreadable);
      }
      var added := Parse(text.value);
      if added.Err? {
        return Err(Syntax(added.error));
      }
      ParsedIsGood(text.value);
      GoodIsValid(unit);
      GoodIsValid(added.value);
      GoodMerge(unit, added.value);
      assert files[..i + 1][..i] == files[..i];
      assert Texts(files[..i + 1])[..i] == Texts(files[..i]);
      unit := LayDropin(unit, added.value);
    }
    assert files[..|files|] == files;
    GoodIsValid(unit);
    RenderRoundTrip(unit);
    var merged := RenderIni(unit);
    var reparsed := Parse(merged);
    if !Accepts(ok, reparsed.value) {
      return Err(BadDirective);
    }
    return Ok(reparsed.value);
  }

  /** The main text followed by each drop-in on lines of its own. */
  function Concatenated(main: string, sources: seq<string>): string {
    if sources == [] then main else Concatenated(main, sources[..|sources| - 1]) + ['\n'] + sources[|sources| - 1]
  }

  /** Loading a unit with drop-ins is parsing the concatenated text, line numbers aside. */
  lemma DropinsAreConcatenation(main: string, sources: seq<string>)
    requires Parsed(main).Ok? && AllParse(sources)
    ensures var loaded, whole := Parsed(Rendered(MergeAll(Parsed(main).value, sources))),
      Parsed(Concatenated(main, sources));
      loaded.Ok? && whole.Ok? && Erase(loaded.value) == Erase(whole.value)
  {
    hide Parsed, Rendered, Erase, Merge;
    ParsedIsGood(main);
    MergeAllConcatenated(main, sources);
    RenderRoundTrip(MergeAll(Parsed(main).value, sources));
  }

  lemma {:induction false} MergeAllConcatenated(main: string, sources: seq<string>)
    requires Parsed(main).Ok? && AllParse(sources)
    ensures var merged, whole := MergeAll(Parsed(main).value, sources), Parsed(Concatenated(main, sources));
      Good(merged) && whole.Ok? && Erase(merged) == Erase(whole.value)
    decreases |sources|
  {
    hide Parsed, Erase, Merge, Good;
    ParsedIsGood(main);
    if sources != [] {
      var n := |sources| - 1;
      var before, added := Concatenated(main, sources[..n]), sources[n];
      MergeAllConcatenated(main, sources[..n]);
      LayeringIsConcatenation(before, added);
      ParsedIsGood(added);
      var merged := MergeAll(Parsed(main).value, sources[..n]);
      GoodMerge(merged, Parsed(added).value);
      EraseMerge(merged, Parsed(added).value);
      EraseMerge(Parsed(before).value, Parsed(added).value);
    }
  }

  // ----- several directories -----

  /** The files of the directories that exist, in the order they are applied. */
  function Files(dirs: seq<Option<seq<File>>>): seq<File> {
    if dirs == [] then [] else
      var n := |dirs| - 1;
      Files(dirs[..n]) + if dirs[n].Some? then dirs[n].value else []
  }

  lemma AllOpenAppend(a: seq<File>, b: seq<File>)
    ensures AllOpen(a + b) <==> AllOpen(a) && AllOpen(b)
    ensures AllOpen(a + b) ==> Texts(a + b) == Texts(a) + Texts(b)
  {
    hide Parsed, Opened;
    if AllOpen(a + b) {
      assert forall i :: 0 <= i < |a| ==> (a + b)[i] == a[i];
      assert forall i :: 0 <= i < |b| ==> (a + b)[|a| + i] == b[i];
    }
  }

  lemma NothingConcatenated(main: string)
    ensures Concatenated(main, []) == main && AllOpen([]) && Texts([]) == [] && Files([]) == []
  {
  }

  lemma {:induction false} ConcatenatedTwice(main: string, a: seq<string>, b: seq<string>)
    ensures Concatenated(Concatenated(main, a), b) == Concatenated(main, a + b)
    decreases |b|
  {
    if b == [] {
      assert a + b == a;
    } else {
      var n := |b| - 1;
      assert (a + b)[..|a| + n] == a + b[..n] && (a + b)[|a| + n] == b[n];
      ConcatenatedTwice(main, a, b[..n]);
    }
  }

  /** Line numbers below do not matter to the merge, but for the line numbers of the result. */
  lemma {:induction false} MergeAllErased(a: Ini, b: Ini, sources: seq<string>)
    requires Erase(a) == Erase(b) && AllParse(sources)
    ensures Erase(MergeAll(a, sources)) == Erase(MergeAll(b, sources))
    decreases |sources|
  {
    hide Parsed, Erase, Merge;
    if sources != [] {
      var n := |sources| - 1;
      MergeAllErased(a, b, sources[..n]);
      EraseMerge(MergeAll(a, sources[..n]), Parsed(sources[n]).value);
      EraseMerge(MergeAll(b, sources[..n]), Parsed(sources[n]).value);
    }
  }

  lemma {:induction false} MergeAllGood(raw: Ini, sources: seq<string>)
    requires Good(raw) && AllParse(sources)
    ensures Good(MergeAll(raw, sources))
    decreases |sources|
  {
    hide Parsed, Merge, Good;
    if sources != [] {
      var n := |sources| - 1;
      MergeAllGood(raw, sources[..n]);
      ParsedIsGood(sources[n]);
      GoodMerge(MergeAll(raw, sources[..n]), Parsed(sources[n]).value);
    }
  }

  /** If the unit reads like the text concatenated so far, so it does after one more directory. */
  lemma DirectoryApplied(main: string, before: seq<string>, sources: seq<string>, unit: Ini)
    requires Good(unit) && AllParse(sources)
    requires Parsed(Concatenated(main, before)).Ok? && Erase(unit) == Erase(Parsed(Concatenated(main, before)).value)
    ensures var loaded, whole := Parsed(Rendered(MergeAll(unit, sources))),
      Parsed(Concatenated(main, before + sources));
      loaded.Ok? && Good(loaded.value) && whole.Ok? && Erase(loaded.value) == Erase(whole.value)
  {
    hide Parsed, Rendered, Erase, Good, MergeAll, Concatenated;
    var text := Concatenated(main, before);
    ConcatenatedTwice(main, before, sources);
    DropinsAreConcatenation(text, sources);
    MergeAllErased(unit, Parsed(text).value, sources);
    ParsedIsGood(text);
    MergeAllGood(unit, sources);
    MergeAllGood(Parsed(text).value, sources);
    RenderRoundTrip(MergeAll(unit, sources));
    RenderRoundTrip(MergeAll(Parsed(text).value, sources));
    ParsedIsGood(Rendered(MergeAll(unit, sources)));
  }

  /** The text a unit amounts to after the directories up to `n`. */
  function WholeText(main: string, dirs: seq<Option<seq<File>>>, n: nat): string
    requires n <= |dirs| && AllOpen(Files(dirs[..n]))
  {
    Concatenated(main, Texts(Files(dirs[..n])))
  }

  /** Every file of the first `n` directories opens, and the typed view accepts the text so far. */
  ghost predicate AcceptedAt(main: string, dirs: seq<Option<seq<File>>>, n: nat, ok: Directives)
    requires n <= |dirs|
  {
    AllOpen(Files(dirs[..n])) && var whole := Parsed(WholeText(main, dirs, n)); whole.Ok? && Accepts(ok, whole.value)
  }

  /** Directory `n` is where loading stops, with error `e`. */
  ghost predicate StopsAt(main: string, dirs: seq<Option<seq<File>>>, n: nat, ok: Directives, e: LoadError)
    requires n < |dirs|
  {
    && AcceptedAt(main, dirs, n, ok) && dirs[n].Some?
    && (FirstBad(dirs[n].value, e)
         || (e == BadDirective && AllOpen(dirs[n].value) && !AcceptedAt(main, dirs, n + 1, ok)))
  }

  /** The unit after `n` directories that applied reads like the text so far. */
  ghost predicate Loaded(main: string, dirs: seq<Option<seq<File>>>, n: nat, ok: Directives, unit: Ini)
    requires n <= |dirs|
  {
    && Good(unit) && AcceptedAt(main, dirs, n, ok) && AllOpen(Files(dirs[..n]))
    && var whole := Parsed(WholeText(main, dirs, n)); whole.Ok? && Erase(unit) == Erase(whole.value)
  }

  /** Parses the main text and applies each directory in turn; one that cannot be listed is skipped. */
  method Load(main: File, dirs: seq<Option<seq<File>>>, ok: Directives) returns (r: Result<Ini, LoadError>)
    ensures Opened(main).Err? ==> r == Err(Opened(main).error)
    ensures Opened(main).Ok? && !Accepts(ok, Opened(main).value) ==> r == Err(BadDirective)
    ensures Opened(main).Ok? && Accepts(ok, Opened(main).value) && r.Err? ==>
      exists n :: 0 <= n < |dirs| && StopsAt(main.value, dirs, n, ok, r.error)
    ensures r.Ok? <==> Opened(main).Ok? && AcceptedAt(main.value, dirs, |dirs|, ok)
    ensures r.Ok? ==> main.Some? && Loaded(main.value, dirs, |dirs|, ok, r.value)
  {
    hide Good, Parsed, Rendered, Erase, AllOpen, FirstBad, AcceptedAt, WholeText, Accepts;
    if main.None? {
      return Err(Unreadable);
    }
    var parsed := Parse(main.value);
    if parsed.Err? {
      return Err(Syntax(parsed.error));
    }
    if !Accepts(ok, parsed.value) {
      MainRejected(main.value, dirs, ok);
      return Err(BadDirective);
    }
    ParsedIsGood(main.value);
    LoadStart(main.value, dirs, ok);
    var unit := parsed.value;
    for i := 0 to |dirs|
      invariant Loaded(main.value, dirs, i, ok, unit)
    {
      if dirs[i].Some? {
        LoadStep(main.value, dirs, i, ok, unit);
        var applied := ApplyDropins(unit, dirs[i].value, ok);
        if applied.Err? {
          LoadStops(main.value, dirs, i, ok);
          assert StopsAt(main.value, dirs, i, ok, applied.error);
          return applied;
        }
        unit := applied.value;
      } else {
        LoadSkip(main.value, dirs, i, ok, unit);
      }
    }
    return Ok(unit);
  }

  /** A merge is accepted only if what lies below is. */
  lemma {:induction false} MergeAllAccepted(ok: Directives, raw: Ini, sources: seq<string>)
    requires AllParse(sources) && Accepts(ok, MergeAll(raw, sources))
    ensures Accepts(ok, raw)
    decreases |sources|
  {
    hide Parsed, Accepts, Merge;
    if sources != [] {
      var n := |sources| - 1;
      MergeAccepted(ok, MergeAll(raw, sources[..n]), Parsed(sources[n]).value);
      MergeAllAccepted(ok, raw, sources[..n]);
    }
  }

  /** Whatever is accepted in the end was accepted all along: no later directory repairs an
      earlier one. */
  lemma {:induction false} AcceptedAllAlong(main: string, dirs: seq<Option<seq<File>>>, k: nat, n: nat, ok: Directives)
    requires k <= n <= |dirs| && Parsed(main).Ok? && AcceptedAt(main, dirs, n, ok)
    ensures AcceptedAt(main, dirs, k, ok)
    decreases n - k
  {
    hide Parsed, AcceptedAt;
    if k < n {
      AcceptedBefore(main, dirs, n - 1, ok);
      AcceptedAllAlong(main, dirs, k, n - 1, ok);
    }
  }

  lemma AcceptedBefore(main: string, dirs: seq<Option<seq<File>>>, n: nat, ok: Directives)
    requires n < |dirs| && Parsed(main).Ok? && AcceptedAt(main, dirs, n + 1, ok)
    ensures AcceptedAt(main, dirs, n, ok)
  {
    hide Parsed, Opened, Erase, MergeAll, Concatenated, AllOpen, Accepts, Good;
    var before, files := Files(dirs[..n]), if dirs[n].Some? then dirs[n].value else [];
    FilesStep(dirs, n);
    AllOpenAppend(before, files);
    var text := Concatenated(main, Texts(before));
    MergeAllConcatenated(main, Texts(before));
    ConcatenatedTwice(main, Texts(before), Texts(files));
    MergeAllConcatenated(text, Texts(files));
    var merged := MergeAll(Parsed(text).value, Texts(files));
    AcceptsErased(ok, merged, Parsed(Concatenated(text, Texts(files))).value);
    MergeAllAccepted(ok, Parsed(text).value, Texts(files));
  }

  lemma MainRejected(main: string, dirs: seq<Option<seq<File>>>, ok: Directives)
    requires Parsed(main).Ok? && !Accepts(ok, Parsed(main).value)
    ensures !AcceptedAt(main, dirs, |dirs|, ok)
  {
    hide Parsed, AllOpen, Accepts;
    assert dirs[..0] == [];
    NothingConcatenated(main);
    if AcceptedAt(main, dirs, |dirs|, ok) {
      AcceptedAllAlong(main, dirs, 0, |dirs|, ok);
    }
  }

  lemma LoadStart(main: string, dirs: seq<Option<seq<File>>>, ok: Directives)
    requires Parsed(main).Ok? && Good(Parsed(main).value) && Accepts(ok, Parsed(main).value)
    ensures Loaded(main, dirs, 0, ok, Parsed(main).value)
  {
    hide Good, Parsed, Erase;
    assert dirs[..0] == [];
    NothingConcatenated(main);
  }

  lemma FilesStep(dirs: seq<Option<seq<File>>>, i: nat)
    requires i < |dirs|
    ensures Files(dirs[..i + 1]) == Files(dirs[..i]) + if dirs[i].Some? then dirs[i].value else []
  {
    assert dirs[..i + 1][..i] == dirs[..i];
  }

  /** What applying directory `i` yields. */
  lemma LoadStep(main: string, dirs: seq<Option<seq<File>>>, i: nat, ok: Directives, unit: Ini)
    requires i < |dirs| && dirs[i].Some? && Loaded(main, dirs, i, ok, unit)
    ensures AllOpen(dirs[i].value) ==>
      var loaded := Parsed(Rendered(MergeAll(unit, Texts(dirs[i].value))));
      loaded.Ok? && (Accepts(ok, loaded.value) <==> AcceptedAt(main, dirs, i + 1, ok))
      && (Accepts(ok, loaded.value) ==> Loaded(main, dirs, i + 1, ok, loaded.value))
    ensures !AllOpen(dirs[i].value) ==> !AllOpen(Files(dirs[..i + 1]))
  {
    hide Good, Parsed, Erase, Rendered, AllOpen, MergeAll, Opened, Concatenated, AcceptedAt, Accepts;
    var before, files := Files(dirs[..i]), dirs[i].value;
    FilesStep(dirs, i);
    AllOpenAppend(before, files);
    if AllOpen(files) {
      DirectoryApplied(main, Texts(before), Texts(files), unit);
      AcceptedMeans(main, dirs, i + 1, ok);
      AcceptsErased(ok, Parsed(Rendered(MergeAll(unit, Texts(files)))).value,
        Parsed(WholeText(main, dirs, i + 1)).value);
    }
  }

  lemma AcceptedMeans(main: string, dirs: seq<Option<seq<File>>>, n: nat, ok: Directives)
    requires n <= |dirs| && AllOpen(Files(dirs[..n]))
    ensures AcceptedAt(main, dirs, n, ok) <==>
      Parsed(WholeText(main, dirs, n)).Ok? && Accepts(ok, Parsed(WholeText(main, dirs, n)).value)
  {
    hide Parsed, Opened;
  }

  lemma LoadSkip(main: string, dirs: seq<Option<seq<File>>>, i: nat, ok: Directives, unit: Ini)
    requires i < |dirs| && dirs[i].None? && Loaded(main, dirs, i, ok, unit)
    ensures Loaded(main, dirs, i + 1, ok, unit)
  {
    hide Good, Parsed, Erase, AllOpen, Accepts, Concatenated;
    FilesStep(dirs, i);
    assert Files(dirs[..i]) + [] == Files(dirs[..i]);
  }

  /** A directory that fails, or whose result is rejected, stops the whole load. */
  lemma LoadStops(main: string, dirs: seq<Option<seq<File>>>, i: nat, ok: Directives)
    requires i < |dirs| && Parsed(main).Ok? && (!AllOpen(Files(dirs[..i + 1])) || !AcceptedAt(main, dirs, i + 1, ok))
    ensures !AcceptedAt(main, dirs, |dirs|, ok)
  {
    hide Parsed, AllOpen, Accepts;
    if AcceptedAt(main, dirs, |dirs|, ok) {
      AcceptedAllAlong(main, dirs, i + 1, |dirs|, ok);
    }
  }
}
