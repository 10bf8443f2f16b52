/** What whole expansions end with: the job set and the final kind of every job. */
module RunTheorems {
  import opened Wrappers
  import opened UnitNames
  import opened DepGraphs
  import opened Jobs
  import opened Merging
  import opened Expansion
  import opened ExpansionTheorems

  /** A log all of whose requests are seeds or follow, by a documented rule, from an earlier
      first request. */
  ghost predicate JustifiedAt(r: Rules, log: Log, seeds: set<Request>, i: nat)
    requires i < |log|
  {
    log[i] in seeds || RuledAt(r, log, i)
  }

  /** Request `i` follows, by a documented rule, from an earlier request that was the first for its unit. */
  ghost predicate RuledAt(r: Rules, log: Log, i: nat)
    requires i < |log|
  {
    exists j :: 0 <= j < i && First(log, j) && Rule(r, log[j], log[i])
  }

  ghost predicate Justified(r: Rules, log: Log, seeds: set<Request>) {
    && (forall i :: 0 <= i < |log| ==> log[i].unit in r.m.loaded)
    && (forall i :: 0 <= i < |log| ==> JustifiedAt(r, log, seeds, i))
  }

  /** Every job of an expansion is reached from the root by a chain of documented rules. */
  lemma {:induction false} ExpansionIsJustified(r: Rules, root: Request)
    requires r.g.Valid() && root.unit in r.m.loaded
    ensures var log := Add(r, [], root).0;
      log != [] && log[0] == root && Justified(r, log, {root})
      && forall i :: 0 < i < |log| ==> RuledAt(r, log, i)
  {
    hide Pulls, Rule, GraphView.Valid, First, RuledAt;
    var log := Add(r, [], root).0;
    AddRecords(r, [], root);
    AddJustified(r, [], root);
    forall i | 0 < i < |log| ensures RuledAt(r, log, i) {
      assert PulledAfter(r, log, 0, i);
      PulledIsRuled(r, log, i);
    }
  }

  lemma PulledIsRuled(r: Rules, log: Log, i: nat)
    requires r.g.Valid() && i < |log| && PulledAfter(r, log, 0, i)
    ensures RuledAt(r, log, i)
  {
    hide Pulls, Rule, GraphView.Valid, First;
    var j :| 0 <= j < i && First(log, j) && Requested(Pulls(r, log[j]), log[i]);
    PullsAreRules(r, log[j], log[i]);
  }

  // ----- which kinds can occur -----

  /** The rules never leave a set of kinds closed under them. */
  lemma {:induction false} RequestKinds(r: Rules, log: Log, seeds: set<Request>, kinds: set<JobType>, i: nat)
    requires Justified(r, log, seeds) && i < |log|
    requires forall q :: q in seeds ==> q.kind in kinds
    requires forall from: Request, to: Request :: from in log && from.kind in kinds && Rule(r, from, to) ==>
      to.kind in kinds
    ensures log[i].kind in kinds
  {
    hide Rule, First;
    if log[i] !in seeds {
      assert JustifiedAt(r, log, seeds, i);
      var j :| 0 <= j < i && First(log, j) && Rule(r, log[j], log[i]);
      RequestKinds(r, log, seeds, kinds, j);
    }
  }

  lemma {:induction false} KindsForMeaning(m: ManagerView, log: Log, u: UnitName, k: JobType)
    ensures k in KindsFor(m, log, u) <==> exists q :: q in log && q.unit == u && Recorded(m, q) == k
  {
    if log != [] {
      var n := |log| - 1;
      assert log == log[..n] + [log[n]];
      KindsForMeaning(m, log[..n], u, k);
      assert forall q :: q in log <==> q in log[..n] || q == log[n];
    }
  }

  /** Without reload requests, a unit that was ever asked to start or restart ends up with one. */
  lemma ActivatedStays(m: ManagerView, log: Log, q: Request)
    requires q in log && q.kind in {Start, Restart}
    requires forall x :: x in log ==> !IsReload(x.kind)
    ensures q.unit in Units(log) && KindOf(m, log, q.unit) in {Start, Restart}
  {
    forall k ensures k in KindsFor(m, log, q.unit) <==>
      exists x :: x in log && x.unit == q.unit && Recorded(m, x) == k {
      KindsForMeaning(m, log, q.unit, k);
    }
    ActivationSurvives(KindsFor(m, log, q.unit));
  }

  /** A unit all of whose requests agree keeps that kind. */
  lemma UnanimousUnit(m: ManagerView, log: Log, u: UnitName, k: JobType)
    requires u in Units(log) && k != TryRestart
    requires forall q :: q in log && q.unit == u ==> q.kind == k
    ensures KindOf(m, log, u) == k
  {
    forall j | j in KindsFor(m, log, u) ensures j == k {
      KindsForMeaning(m, log, u, j);
    }
    Unanimous(KindsFor(m, log, u), k);
  }

  // ----- try-restarts -----

  /** The kinds asked of `u`, in request order; without the try-restarts, if `skip`. */
  function Asked(log: Log, u: UnitName, skip: bool): (ks: seq<JobType>) {
    if log == [] then [] else
      var q := log[|log| - 1];
      Asked(log[..|log| - 1], u, skip) + if q.unit == u && !(skip && q.kind == TryRestart) then [q.kind] else []
  }

  lemma {:induction false} AskedMeans(log: Log, u: UnitName, skip: bool, k: JobType)
    ensures k in Asked(log, u, skip) <==> Request(u, k) in log && !(skip && k == TryRestart)
  {
    if log != [] {
      var n := |log| - 1;
      AskedMeans(log[..n], u, skip, k);
      assert log == log[..n] + [log[n]];
      assert forall x :: x in log <==> x in log[..n] || x == log[n];
    }
  }

  /** A unit's job is the merge of what was asked of it, except that asking an inactive unit to
      try-restart changes nothing. */
  lemma {:induction false} TryRestartsOfInactiveVanish(m: ManagerView, log: Log, u: UnitName)
    ensures KindOf(m, log, u) == Fold(Asked(log, u, u !in m.active))
  {
    hide MergeKinds, Units;
    if log != [] {
      var n := |log| - 1;
      var kinds, asked := KindsFor(m, log[..n], u), Asked(log[..n], u, u !in m.active);
      TryRestartsOfInactiveVanish(m, log[..n], u);
      FoldSnoc(kinds, Recorded(m, log[n]));
      FoldSnoc(asked, log[n].kind);
      NopChangesNothing(Fold(kinds));
      assert kinds + [] == kinds && asked + [] == asked;
    }
  }

  lemma NopChangesNothing(k: JobType)
    ensures MergeKinds(k, Nop) == k && MergeKinds(Nop, k) == k
  {
  }

  /** So an inactive unit of which nothing but try-restarts is asked is left alone, and an active
      one is try-restarted. */
  lemma OnlyTryRestarted(m: ManagerView, log: Log, u: UnitName)
    requires u in Units(log) && forall q :: q in log && q.unit == u ==> q.kind == TryRestart
    ensures KindOf(m, log, u) == if u in m.active then TryRestart else Nop
  {
    hide KindOf;
    TryRestartsOfInactiveVanish(m, log, u);
    var ks := Asked(log, u, u !in m.active);
    forall k ensures k in ks <==> k == TryRestart && u in m.active {
      AskedMeans(log, u, u !in m.active, k);
    }
    if ks != [] {
      Unanimous(ks, TryRestart);
      assert ks[0] in ks;
    }
    assert u in m.active ==> TryRestart in ks;
  }

  /** A try-restart as the root: of an inactive unit it pulls in nothing and its job is to do nothing. */
  lemma TryRestartOfInactive(r: Rules, u: UnitName)
    requires u in r.m.loaded && u !in r.m.active
    ensures Add(r, [], Request(u, TryRestart)) == ([Request(u, TryRestart)], None)
    ensures KindOf(r.m, [Request(u, TryRestart)], u) == Nop
  {
    var q := Request(u, TryRestart);
    assert [] + [q] == [q] && Pulls(r, q) == [];
    assert q in [q];
    hide KindOf;
    OnlyTryRestarted(r.m, [q], u);
  }

  // ----- start -----

  lemma NoReloadRequested(r: Rules, log: Log, seeds: set<Request>)
    requires Justified(r, log, seeds)
    requires forall q :: q in seeds ==> !IsReload(q.kind)
    ensures forall q :: q in log ==> !IsReload(q.kind)
  {
    var kinds := set k: JobType | !IsReload(k);
    forall i | 0 <= i < |log| ensures log[i].kind in kinds {
      RequestKinds(r, log, seeds, kinds, i);
    }
  }

  /** Start expansion is closed, isolate stops included: when everything the root can reach is
      loaded and the root is not a reload, whatever a unit first visited as a start pulls up ends
      as a start or restart. */
  lemma StartTargetsActivated(r: Rules, mode: JobMode, root: Request, log: Log, j: nat, v: UnitName)
    requires r.g.Valid() && r.expands && NothingMissing(r, root) && !IsReload(root.kind)
    requires FinalLog(r, mode, root, log)
    requires First(log, j) && Starting(r, log[j]) && StartRule(r, log[j].unit, Request(v, Start))
    ensures v in Units(log) && KindOf(r.m, log, v) in {Start, Restart}
  {
    hide Pulls, GraphView.Valid, StartRule, NothingMissing, Answered, FinalLog;
    var log1 := Add(r, [], root).0;
    FinalLogPhases(r, mode, root, log);
    SafeCloses(r, [], root);
    assert j < |log1| && log1[j] == log[j] && First(log1, j);
    assert Answered(r, log1, j);
    StartIsAnswered(r, log1, j, v);
    assert Request(v, Start) in log;
    NoReloadsInFinalLog(r, mode, root, log);
    ActivatedStays(r.m, log, Request(v, Start));
  }

  lemma StartIsAnswered(r: Rules, log: Log, j: nat, v: UnitName)
    requires r.g.Valid() && r.expands && j < |log| && Answered(r, log, j)
    requires Starting(r, log[j]) && StartRule(r, log[j].unit, Request(v, Start))
    ensures Request(v, Start) in log
  {
    hide Pulls, GraphView.Valid, StartRule;
    PullsAreRules(r, log[j], Request(v, Start));
    var p :| p in Pulls(r, log[j]) && p.request == Request(v, Start);
    LaterTail(log, 0, j + 1, p.request);
    assert log[0..] == log;
  }

  lemma NoReloadsInFinalLog(r: Rules, mode: JobMode, root: Request, log: Log)
    requires r.g.Valid() && root.unit in r.m.loaded && !IsReload(root.kind) && FinalLog(r, mode, root, log)
    ensures forall q :: q in log ==> !IsReload(q.kind)
  {
    hide GraphView.Valid, FinalLog;
    FinalLogPhases(r, mode, root, log);
    ExpansionIsJustified(r, root);
    var log1 := Add(r, [], root).0;
    NoReloadRequested(r, log1, {root});
    forall i | 0 <= i < |log| ensures !IsReload(log[i].kind) {
      assert i < |log1| ==> log[i] == log1[i] && log1[i] in log1;
    }
  }

  /** The final kind of a unit under a start root, read off the set of its requests. */
  function StartStop(starts: bool, stops: bool): JobType {
    if starts && stops then Restart else if starts then Start else Stop
  }

  /** With a start root and no requisites among the requested units, the final kind does not
      depend on visiting order, whatever the mode: only starts give a start, only stops a stop,
      both a restart. */
  lemma FinalKindIgnoresOrder(r: Rules, mode: JobMode, root: Request, log: Log, u: UnitName)
    requires r.g.Valid() && root.unit in r.m.loaded && root.kind == Start && FinalLog(r, mode, root, log)
    requires forall a, b :: a in Units(log) ==> !r.g.HasEdge(a, Requisite, b)
    requires u in Units(log)
    ensures KindOf(r.m, log, u) == StartStop(Request(u, Start) in log, Request(u, Stop) in log)
  {
    hide Pulls, GraphView.Valid, FinalLog;
    FinalLogPhases(r, mode, root, log);
    ExpansionIsJustified(r, root);
    var log1 := Add(r, [], root).0;
    assert forall q :: q in log1 ==> q in log;
    forall i | 0 <= i < |log| ensures log[i].kind in {Start, Stop} {
      if i < |log1| {
        RequestKinds(r, log1, {root}, {Start, Stop}, i);
      }
    }
    StartStopFold(r.m, log, u);
  }

  lemma StartStopFold(m: ManagerView, log: Log, u: UnitName)
    requires u in Units(log) && forall q :: q in log ==> q.kind in {Start, Stop}
    ensures KindOf(m, log, u) == StartStop(Request(u, Start) in log, Request(u, Stop) in log)
  {
    var ks := KindsFor(m, log, u);
    forall k ensures k in ks <==> k in {Start, Stop} && Request(u, k) in log {
      KindsForMeaning(m, log, u, k);
      assert Request(u, k) in log ==> Recorded(m, Request(u, k)) == k || k == TryRestart;
    }
    assert ks[0] in ks;
    OrderInsensitiveSettles(ks);
  }

  // ----- stop and reload -----

  /** `s` is closed under a one-step rule of the graph. */
  ghost predicate StopClosed(r: Rules, s: set<UnitName>) {
    forall u, v :: u in s && StopRule(r, u, v) ==> v in s
  }

  ghost predicate ReloadClosed(r: Rules, s: set<UnitName>) {
    forall u, v :: u in s && ReloadRule(r, u, v) ==> v in s
  }

  /** Every requested unit has a first request. */
  lemma FirstOf(log: Log, u: UnitName) returns (j: nat)
    requires u in Units(log)
    ensures First(log, j) && log[j].unit == u
  {
    var q :| q in log && q.unit == u;
    var k :| 0 <= k < |log| && log[k] == q;
    j := 0;
    while log[j].unit != u
      decreases k - j
      invariant j <= k && forall i :: 0 <= i < j ==> log[i].unit != u
    {
      j := j + 1;
    }
  }

  lemma {:induction false} StopLeast(r: Rules, log: Log, seeds: set<Request>, t: set<UnitName>, i: nat)
    requires Justified(r, log, seeds) && i < |log|
    requires forall q :: q in seeds ==> q.kind == Stop && q.unit in t
    requires StopClosed(r, t)
    ensures log[i].kind == Stop && log[i].unit in t
  {
    hide StopRule, StartRule, ReloadRule, TryRestartRule, First;
    if log[i] !in seeds {
      assert JustifiedAt(r, log, seeds, i);
      var j :| 0 <= j < i && First(log, j) && Rule(r, log[j], log[i]);
      StopLeast(r, log, seeds, t, j);
    }
  }

  lemma SoftKindCloses(r: Rules, q: Request)
    requires r.g.Valid() && q.unit in r.m.loaded && q.kind in {Stop, Reload}
    ensures NothingMissing(r, q)
  {
    hide Safe, GraphView.Valid;
    SoftKindIsSafe(r, q.kind);
    var qs := iset x: Request | x.kind == q.kind && x.unit in r.m.loaded;
    assert q in qs && Safe(r, qs);
  }

  /** Stopping is exact on every graph: it never fails, every job is a stop, and the job set
      is the least set that holds the root and is closed under stop propagation. */
  lemma StopIsExact(r: Rules, root: Request)
    requires r.g.Valid() && r.expands && root.unit in r.m.loaded && root.kind == Stop
    ensures var (log, failed) := Add(r, [], root);
      && failed.None?
      && (forall u :: u in Units(log) ==> KindOf(r.m, log, u) == Stop)
      && root.unit in Units(log) && StopClosed(r, Units(log))
      && forall t :: root.unit in t && StopClosed(r, t) ==> Units(log) <= t
  {
    hide Pulls, GraphView.Valid, StopRule;
    var log := Add(r, [], root).0;
    ExpansionIsJustified(r, root);
    SoftKindCloses(r, root);
    SafeCloses(r, [], root);
    assert log[0] in log;
    forall t | root.unit in t && StopClosed(r, t) ensures Units(log) <= t {
      forall i | 0 <= i < |log| ensures log[i].unit in t {
        StopLeast(r, log, {root}, t, i);
      }
    }
    EverythingStops(r, log, root);
    forall u, v | u in Units(log) && StopRule(r, u, v) ensures v in Units(log) {
      var j := FirstOf(log, u);
      assert log[j] in log;
      assert Answered(r, log, j);
      assert Rule(r, log[j], Request(v, Stop));
      PullsAreRules(r, log[j], Request(v, Stop));
    }
    forall u | u in Units(log) ensures KindOf(r.m, log, u) == Stop {
      UnanimousUnit(r.m, log, u, Stop);
    }
  }

  lemma EverythingStops(r: Rules, log: Log, root: Request)
    requires Justified(r, log, {root}) && root.kind == Stop
    ensures forall q :: q in log ==> q.kind == Stop
  {
    hide StartRule, ReloadRule, TryRestartRule;
    forall i | 0 <= i < |log| ensures log[i].kind == Stop {
      RequestKinds(r, log, {root}, {Stop}, i);
    }
  }

  lemma {:induction false} ReloadLeast(r: Rules, log: Log, root: Request, t: set<UnitName>, i: nat)
    requires Justified(r, log, {root}) && i < |log|
    requires root.kind == Reload && root.unit in t && ReloadClosed(r, t)
    ensures log[i].kind == Reload && log[i].unit in t
  {
    hide StopRule, StartRule, ReloadRule, TryRestartRule, First;
    if log[i] != root {
      assert JustifiedAt(r, log, {root}, i);
      var j :| 0 <= j < i && First(log, j) && Rule(r, log[j], log[i]);
      ReloadLeast(r, log, root, t, j);
    }
  }

  lemma EverythingReloads(r: Rules, log: Log, root: Request)
    requires Justified(r, log, {root}) && root.kind == Reload
    ensures forall q :: q in log ==> q.kind == Reload
  {
    hide StartRule, StopRule, TryRestartRule;
    forall i | 0 <= i < |log| ensures log[i].kind == Reload {
      RequestKinds(r, log, {root}, {Reload}, i);
    }
  }

  /** Reloading is exact in the same sense, along `PropagatesReloadTo`. */
  lemma ReloadIsExact(r: Rules, root: Request)
    requires r.g.Valid() && r.expands && root.unit in r.m.loaded && root.kind == Reload
    ensures var (log, failed) := Add(r, [], root);
      && failed.None?
      && (forall u :: u in Units(log) ==> KindOf(r.m, log, u) == Reload)
      && root.unit in Units(log) && ReloadClosed(r, Units(log))
      && forall t :: root.unit in t && ReloadClosed(r, t) ==> Units(log) <= t
  {
    hide Pulls, GraphView.Valid, ReloadRule;
    var log := Add(r, [], root).0;
    ExpansionIsJustified(r, root);
    SoftKindCloses(r, root);
    SafeCloses(r, [], root);
    assert log[0] in log;
    forall t | root.unit in t && ReloadClosed(r, t) ensures Units(log) <= t {
      forall i | 0 <= i < |log| ensures log[i].unit in t {
        ReloadLeast(r, log, root, t, i);
      }
    }
    EverythingReloads(r, log, root);
    forall u, v | u in Units(log) && ReloadRule(r, u, v) ensures v in Units(log) {
      var j := FirstOf(log, u);
      assert log[j] in log;
      assert Answered(r, log, j);
      assert Rule(r, log[j], Request(v, Reload));
      PullsAreRules(r, log[j], Request(v, Reload));
    }
    forall u | u in Units(log) ensures KindOf(r.m, log, u) == Reload {
      UnanimousUnit(r.m, log, u, Reload);
    }
  }

  // ----- start, where nothing conflicts -----

  ghost predicate StartClosed(r: Rules, s: set<UnitName>) {
    forall u, v :: u in s && StartRule(r, u, Request(v, Start)) ==> v in s
  }

  /** The units of `s` are loaded, start only each other, and none of them declares a requisite, or
      a conflict with a loaded unit. */
  ghost predicate Undisputed(r: Rules, s: set<UnitName>) {
    && s <= r.m.loaded && StartClosed(r, s)
    && forall a, b :: a in s ==> !r.g.HasEdge(a, Requisite, b) && !(b in r.m.loaded && r.g.HasEdge(a, Conflicts, b))
  }

  lemma {:induction false} StartLeast(r: Rules, log: Log, root: Request, s: set<UnitName>, t: set<UnitName>, i: nat)
    requires Justified(r, log, {root}) && i < |log| && root.kind == Start
    requires root.unit in s && Undisputed(r, s) && root.unit in t && StartClosed(r, t)
    ensures log[i].kind == Start && log[i].unit in s && log[i].unit in t
  {
    hide StopRule, ReloadRule, TryRestartRule, First;
    if log[i] != root {
      assert JustifiedAt(r, log, {root}, i);
      var j :| 0 <= j < i && First(log, j) && Rule(r, log[j], log[i]);
      StartLeast(r, log, root, s, t, j);
      assert log[i] == Request(log[i].unit, Start);
    }
  }

  lemma UndisputedIsSafe(r: Rules, q: Request, s: set<UnitName>)
    requires r.g.Valid() && q.kind == Start && q.unit in s && Undisputed(r, s)
    ensures NothingMissing(r, q)
  {
    var qs := iset x: Request | x.kind == Start && x.unit in s;
    forall x, p | x in qs && p in Pulls(r, x) ensures p.request.unit in r.m.loaded && p.request in qs {
      assert Requested(Pulls(r, x), p.request);
      PullsAreRules(r, x, p.request);
      assert p.request == Request(p.request.unit, p.request.kind);
      hide Pulls, GraphView.Valid;
    }
    assert q in qs && Safe(r, qs);
  }

  /** Where nothing the root starts is missing, conflicts or demands a requisite, starting is
      exact: every job is a start, and the job set is the least set that holds the root and is
      closed under hard pulls and loaded soft pulls. What other units declare does not matter. */
  lemma StartIsExact(r: Rules, root: Request, s: set<UnitName>)
    requires r.g.Valid() && r.expands && root.kind == Start && root.unit in s && Undisputed(r, s)
    ensures var (log, failed) := Add(r, [], root);
      && failed.None?
      && (forall u :: u in Units(log) ==> KindOf(r.m, log, u) == Start)
      && root.unit in Units(log) && StartClosed(r, Units(log)) && Units(log) <= s
      && forall t :: root.unit in t && StartClosed(r, t) ==> Units(log) <= t
  {
    hide Pulls, GraphView.Valid, StartRule, NothingMissing, Answered;
    var log := Add(r, [], root).0;
    assert root.unit in r.m.loaded && StartClosed(r, s);
    ExpansionIsJustified(r, root);
    UndisputedIsSafe(r, root, s);
    SafeCloses(r, [], root);
    assert log[0] in log;
    forall i | 0 <= i < |log| ensures log[i].kind == Start && log[i].unit in s {
      StartLeast(r, log, root, s, s, i);
    }
    forall t | root.unit in t && StartClosed(r, t) ensures Units(log) <= t {
      forall i | 0 <= i < |log| ensures log[i].unit in t {
        StartLeast(r, log, root, s, t, i);
      }
    }
    forall u, v | u in Units(log) && StartRule(r, u, Request(v, Start)) ensures v in Units(log) {
      var j := FirstOf(log, u);
      assert Answered(r, log, j);
      StartIsAnswered(r, log, j, v);
    }
    forall u | u in Units(log) ensures KindOf(r.m, log, u) == Start {
      UnanimousUnit(r.m, log, u, Start);
    }
  }

  // ----- start, by final kind -----

  /** No requested unit asks `u` for anything but a start: no conflict, requisite, or stop. */
  ghost predicate OnlyStarted(r: Rules, log: Log, u: UnitName) {
    forall x, k :: x in log && Rule(r, x, Request(u, k)) ==> Starting(r, Request(u, k))
  }

  /** Closure by final kind: a unit requested by the expansion of the root, of which no
      requested unit asks anything but a start, was expanded as a start; so if everything
      reachable is loaded, all that it starts ends as a start or restart. */
  lemma FinalStartsAreClosed(r: Rules, mode: JobMode, root: Request, log: Log, u: UnitName)
    requires r.g.Valid() && r.expands && NothingMissing(r, root) && !IsReload(root.kind) && Starting(r, root)
    requires FinalLog(r, mode, root, log) && u in Units(Add(r, [], root).0) && OnlyStarted(r, log, u)
    ensures forall v :: StartRule(r, u, Request(v, Start)) ==>
      v in Units(log) && KindOf(r.m, log, v) in {Start, Restart}
  {
    hide Pulls, GraphView.Valid, StartRule, NothingMissing, FinalLog, Rule;
    var log1 := Add(r, [], root).0;
    FinalLogPhases(r, mode, root, log);
    ExpansionIsJustified(r, root);
    var j := FirstOf(log1, u);
    assert First(log, j) && log[j] == log1[j];
    assert Starting(r, log[j]) by {
      if log1[j] != root {
        assert JustifiedAt(r, log1, {root}, j);
        var i :| 0 <= i < j && First(log1, i) && Rule(r, log1[i], log1[j]);
        assert log1[i] == log[i] && log[i] in log && log1[j] == Request(u, log1[j].kind);
      }
    }
    forall v | StartRule(r, u, Request(v, Start)) ensures v in Units(log) && KindOf(r.m, log, v) in {Start, Restart} {
      StartTargetsActivated(r, mode, root, log, j, v);
    }
  }

  // ----- conditions on edges that keep stops away -----

  /** All that conflicts between loaded units can stop. */
  ghost predicate HoldsStops(r: Rules, stopped: set<UnitName>) {
    && StopClosed(r, stopped)
    && forall a, b :: a in r.m.loaded && b in r.m.loaded && r.g.HasEdge(a, Conflicts, b) ==> b in stopped
  }

  /** The units that isolating to `root` stops on their own account are among them. */
  ghost predicate HoldsTargets(r: Rules, root: UnitName, stopped: set<UnitName>) {
    forall closure, n :: IsDepClosure(r.g, root, closure) && IsolateTarget(r.g, r.m, closure, n) ==> n in stopped
  }

  predicate StartsOrStops(q: Request, stopped: set<UnitName>) {
    q.kind in {Start, VerifyActive} || (q.kind == Stop && q.unit in stopped)
  }

  lemma {:induction false} StopsAreHeld(r: Rules, log: Log, seeds: set<Request>, stopped: set<UnitName>, i: nat)
    requires Justified(r, log, seeds) && i < |log| && HoldsStops(r, stopped)
    requires forall q :: q in seeds ==> StartsOrStops(q, stopped)
    ensures StartsOrStops(log[i], stopped)
  {
    hide StopRule, ReloadRule, First;
    if log[i] !in seeds {
      assert JustifiedAt(r, log, seeds, i);
      var j :| 0 <= j < i && First(log, j) && Rule(r, log[j], log[i]);
      StopsAreHeld(r, log, seeds, stopped, j);
    }
  }

  lemma FinalStopsAreHeld(r: Rules, mode: JobMode, root: Request, log: Log, stopped: set<UnitName>)
    requires r.g.Valid() && root.unit in r.m.loaded && root.kind == Start && FinalLog(r, mode, root, log)
    requires HoldsStops(r, stopped) && (mode == Isolate ==> HoldsTargets(r, root.unit, stopped))
    ensures forall q :: q in log ==> q.unit in r.m.loaded && StartsOrStops(q, stopped)
  {
    hide Pulls, GraphView.Valid, IsDepClosure, IsolateTarget, JustifiedAt, HoldsStops, Add, AddAll;
    var seeds := {root};
    ExpansionIsJustified(r, root);
    if mode == Isolate {
      var closure :| IsDepClosure(r.g, root.unit, closure) && log == IsolateLog(r, root, closure);
      IsolateIsJustified(r, root, closure);
      seeds := {root} + set u | u in IsolateTargets(r.g, r.m, closure, r.g.nodes) :: Request(u, Stop);
    }
    forall i | 0 <= i < |log| ensures StartsOrStops(log[i], stopped) {
      StopsAreHeld(r, log, seeds, stopped, i);
    }
  }

  /** A start root asks a unit for nothing but a start if the unit is not among those, and no loaded
      unit demands it as a requisite. */
  lemma EdgesKeepStarts(r: Rules, mode: JobMode, root: Request, log: Log, u: UnitName, stopped: set<UnitName>)
    requires r.g.Valid() && root.unit in r.m.loaded && root.kind == Start && FinalLog(r, mode, root, log)
    requires HoldsStops(r, stopped) && (mode == Isolate ==> HoldsTargets(r, root.unit, stopped))
    requires u !in stopped && forall a :: a in r.m.loaded ==> !r.g.HasEdge(a, Requisite, u)
    ensures OnlyStarted(r, log, u)
  {
    hide GraphView.Valid, FinalLog, HoldsTargets, ReloadRule, TryRestartRule, GraphView.HasEdge;
    FinalStopsAreHeld(r, mode, root, log, stopped);
  }

  /** So with every hard target loaded, all that such a unit starts is activated. */
  lemma EdgesActivate(r: Rules, mode: JobMode, root: Request, log: Log, u: UnitName, stopped: set<UnitName>)
    requires r.g.Valid() && r.expands && root.unit in r.m.loaded && root.kind == Start && FinalLog(r, mode, root, log)
    requires HardTargetsLoaded(r) && HoldsStops(r, stopped) && (mode == Isolate ==> HoldsTargets(r, root.unit, stopped))
    requires u !in stopped && forall a :: a in r.m.loaded ==> !r.g.HasEdge(a, Requisite, u)
    requires u in Units(Add(r, [], root).0)
    ensures forall v :: StartRule(r, u, Request(v, Start)) ==>
      v in Units(log) && KindOf(r.m, log, v) in {Start, Restart}
  {
    hide GraphView.Valid, FinalLog, HoldsStops, HoldsTargets, NothingMissing, OnlyStarted, StartRule, HardTargetsLoaded,
      Add, KindOf;
    HardTargetsSuffice(r, root);
    EdgesKeepStarts(r, mode, root, log, u, stopped);
    FinalStartsAreClosed(r, mode, root, log, u);
  }

  // ----- isolate -----

  /** The edge kinds followed by the isolate closure: pulls, `PartOf` and ordering. */
  predicate ClosureEdge(k: DepEdge) {
    k in {Wants, Requires, BindsTo, Upholds, Requisite, PartOf, After, Before}
  }

  ghost predicate ClosedUnderDeps(g: GraphView, s: set<UnitName>) {
    forall u, k, v :: u in s && ClosureEdge(k) && g.HasEdge(u, k, v) ==> v in s
  }

  /** Reachability from the root along those edges, as the least closed set. */
  ghost predicate IsDepClosure(g: GraphView, root: UnitName, s: set<UnitName>) {
    && root in s && ClosedUnderDeps(g, s)
    && forall t: set<UnitName> :: root in t && ClosedUnderDeps(g, t) ==> s <= t
  }

  /** A unit that isolating stops on its own account. */
  predicate IsolateTarget(g: GraphView, m: ManagerView, closure: set<UnitName>, n: UnitName) {
    n in m.loaded && n !in closure && n !in g.ignoreOnIsolate && n in m.active
  }

  function IsolateTargets(g: GraphView, m: ManagerView, closure: set<UnitName>,
                          nodes: seq<UnitName>): (us: seq<UnitName>)
    ensures forall u :: u in us <==> u in nodes && IsolateTarget(g, m, closure, u)
  {
    if nodes == [] then [] else
      var n := |nodes| - 1;
      assert nodes == nodes[..n] + [nodes[n]];
      IsolateTargets(g, m, closure, nodes[..n]) + if IsolateTarget(g, m, closure, nodes[n]) then [nodes[n]] else []
  }

  function StopEach(us: seq<UnitName>): (ps: seq<Pull>)
    ensures |ps| == |us| && forall i :: 0 <= i < |us| ==> ps[i] == Pull(Request(us[i], Stop), false)
  {
    seq(|us|, i requires 0 <= i < |us| => Pull(Request(us[i], Stop), false))
  }

  /** The log of a whole isolate request: the root's expansion, then the stops. */
  function IsolateLog(r: Rules, root: Request, closure: set<UnitName>): Log {
    AddAll(r, Add(r, [], root).0, StopEach(IsolateTargets(r.g, r.m, closure, r.g.nodes))).0
  }

  /** The complete request log of a build whose expansion succeeded. */
  ghost predicate FinalLog(r: Rules, mode: JobMode, root: Request, log: Log) {
    if mode == Isolate then exists closure ::
      IsDepClosure(r.g, root.unit, closure) && log == IsolateLog(r, root, closure)
    else log == Add(r, [], root).0
  }

  /** It is the expansion of the root, followed by stops. */
  lemma FinalLogPhases(r: Rules, mode: JobMode, root: Request, log: Log)
    requires r.g.Valid() && FinalLog(r, mode, root, log)
    ensures Add(r, [], root).0 <= log
    ensures forall i :: |Add(r, [], root).0| <= i < |log| ==> log[i].kind == Stop && log[i].unit in r.m.loaded
  {
    hide Pulls, IsDepClosure, GraphView.Valid;
    if mode == Isolate {
      var closure :| IsDepClosure(r.g, root.unit, closure) && log == IsolateLog(r, root, closure);
      var log1 := Add(r, [], root).0;
      var ps := StopEach(IsolateTargets(r.g, r.m, closure, r.g.nodes));
      AddAllJustified(r, log1, ps);
      forall i | |log1| <= i < |log| ensures log[i].kind == Stop {
        GrownStops(r, log, |log1|, ps, i);
      }
    }
  }

  lemma {:induction false} GrownStops(r: Rules, log: Log, lo: nat, ps: seq<Pull>, i: nat)
    requires r.g.Valid() && GrownFromAny(r, log, lo, ps) && lo <= i < |log|
    requires forall p :: p in ps ==> p.request.kind == Stop
    ensures log[i].kind == Stop
  {
    hide Pulls, GraphView.Valid, First;
    if !Requested(ps, log[i]) {
      assert PulledAfter(r, log, lo, i);
      var j :| lo <= j < i && First(log, j) && Requested(Pulls(r, log[j]), log[i]);
      GrownStops(r, log, lo, ps, j);
      PullsAreRules(r, log[j], log[i]);
    }
  }

  lemma IsolateIsJustified(r: Rules, root: Request, closure: set<UnitName>)
    requires r.g.Valid() && root.unit in r.m.loaded
    ensures Justified(r, IsolateLog(r, root, closure),
      {root} + set u | u in IsolateTargets(r.g, r.m, closure, r.g.nodes) :: Request(u, Stop))
  {
    hide Pulls, Rule, GraphView.Valid, First;
    var log0 := Add(r, [], root).0;
    var us := IsolateTargets(r.g, r.m, closure, r.g.nodes);
    var ps := StopEach(us);
    var log := IsolateLog(r, root, closure);
    var seeds := {root} + set u | u in us :: Request(u, Stop);
    ExpansionIsJustified(r, root);
    AddAllJustified(r, log0, ps);
    forall i | 0 <= i < |log| ensures log[i].unit in r.m.loaded && JustifiedAt(r, log, seeds, i) {
      if i < |log0| {
        assert log[i] == log0[i] && JustifiedAt(r, log0, {root}, i);
        JustifiedExtends(r, log0, log, {root}, seeds, i);
      } else if Requested(ps, log[i]) {
        var p :| p in ps && p.request == log[i];
        assert p.request.unit in us;
      } else {
        PulledAfterExtends(r, log, log, |log0|, 0, i);
        PulledIsRuled(r, log, i);
      }
    }
  }

  lemma JustifiedExtends(r: Rules, log: Log, log': Log, seeds: set<Request>, seeds': set<Request>, i: nat)
    requires log <= log' && seeds <= seeds' && i < |log| && JustifiedAt(r, log, seeds, i)
    ensures JustifiedAt(r, log', seeds', i)
  {
    hide Rule;
    assert log'[i] == log[i];
    if log[i] !in seeds {
      var j :| 0 <= j < i && First(log, j) && Rule(r, log[j], log[i]);
      assert First(log', j);
    }
  }

  /** Under isolate, everything but a stop stays inside the closure. */
  lemma {:induction false} OutsideOnlyStops(r: Rules, log: Log, root: Request, seeds: set<Request>,
                                            closure: set<UnitName>, i: nat)
    requires Justified(r, log, seeds) && i < |log|
    requires root.kind == Start && ClosedUnderDeps(r.g, closure) && root.unit in closure
    requires forall q :: q in seeds ==> q == root || q.kind == Stop
    ensures log[i].kind == Stop || (log[i].kind in {Start, VerifyActive} && log[i].unit in closure)
  {
    hide StopRule, ReloadRule, TryRestartRule, First;
    if log[i] !in seeds {
      assert JustifiedAt(r, log, seeds, i);
      var j :| 0 <= j < i && First(log, j) && Rule(r, log[j], log[i]);
      OutsideOnlyStops(r, log, root, seeds, closure, j);
    }
  }

  /** Isolating to a start root: every loaded, active node outside the closure that does not
      opt out is stopped, every job outside the closure is a stop, and the root is started. */
  lemma IsolateStopsTheRest(r: Rules, root: Request, closure: set<UnitName>)
    requires r.g.Valid() && root.unit in r.m.loaded && root.kind == Start
    requires IsDepClosure(r.g, root.unit, closure)
    ensures var log := IsolateLog(r, root, closure);
      && (forall u :: u in r.g.nodes && IsolateTarget(r.g, r.m, closure, u) ==>
           u in Units(log) && KindOf(r.m, log, u) == Stop)
      && (forall u :: u in Units(log) && u !in closure ==> KindOf(r.m, log, u) == Stop)
      && root.unit in Units(log) && KindOf(r.m, log, root.unit) in {Start, Restart}
  {
    hide Pulls, GraphView.Valid, Rule, IsolateTarget;
    var log := IsolateLog(r, root, closure);
    var us := IsolateTargets(r.g, r.m, closure, r.g.nodes);
    var seeds := {root} + set u | u in us :: Request(u, Stop);
    IsolateIsJustified(r, root, closure);
    forall i | 0 <= i < |log|
      ensures log[i].kind == Stop || (log[i].kind in {Start, VerifyActive} && log[i].unit in closure)
    {
      OutsideOnlyStops(r, log, root, seeds, closure, i);
    }
    forall u | u in Units(log) && u !in closure ensures KindOf(r.m, log, u) == Stop {
      UnanimousUnit(r.m, log, u, Stop);
    }
    IsolateStopsRequested(r, root, closure);
    AddRecords(r, [], root);
    assert root in log;
    ActivatedStays(r.m, log, root);
  }

  lemma IsolateStopsRequested(r: Rules, root: Request, closure: set<UnitName>)
    ensures forall u :: u in r.g.nodes && IsolateTarget(r.g, r.m, closure, u) ==>
      u !in closure && u in Units(IsolateLog(r, root, closure))
  {
    var us := IsolateTargets(r.g, r.m, closure, r.g.nodes);
    var ps := StopEach(us);
    SoftNeverFails(r, Add(r, [], root).0, ps);
    forall u | u in us ensures Request(u, Stop) in IsolateLog(r, root, closure) {
      var i :| 0 <= i < |us| && us[i] == u;
      assert ps[i] in ps;
    }
  }

  // ----- failure -----

  /** A start fails only on a broken chain of hard dependencies from the root, and names the
      missing unit at its end; stops and reloads cannot fail. */
  lemma FailureIsHard(r: Rules, root: Request)
    ensures var failed := Add(r, [], root).1;
      failed.Some? ==> exists w :: BrokenHardChain(r, w) && w[0] == root.unit && w[|w| - 1] == failed.value
  {
    if Add(r, [], root).1.Some? {
      var w := AddFailure(r, [], root);
    }
  }
}
