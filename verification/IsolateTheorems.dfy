/** When the stops of an isolate request stay outside the closure of its root. */
module IsolateTheorems {
  import opened Wrappers
  import opened UnitNames
  import opened DepGraphs
  import opened Jobs
  import opened Merging
  import opened Expansion
  import opened ExpansionTheorems
  import opened RunTheorems

  /** From position `lo` on, some unit of the closure is asked to stop. */
  ghost predicate StopsInside(log: Log, lo: nat, closure: set<UnitName>) {
    exists i :: lo <= i < |log| && log[i].unit in closure
  }

  /** The unit propagates its stop into the closure. */
  ghost predicate LeaksInto(r: Rules, u: UnitName, closure: set<UnitName>) {
    exists v :: r.g.HasEdge(u, PropagatesStopTo, v) && v in closure && v in r.m.loaded
  }

  /** From position `lo` on, a unit outside the closure that is requested for the first time
      propagates its stop into it. */
  ghost predicate Leaks(r: Rules, log: Log, lo: nat, closure: set<UnitName>) {
    exists j :: lo <= j < |log| && First(log, j) && log[j].unit !in closure && LeaksInto(r, log[j].unit, closure)
  }

  /** Binding and part-of edges lead back into the closure, so a stop enters it only along
      `PropagatesStopTo`. */
  lemma {:induction false} StopEntersByLeak(r: Rules, log: Log, lo: nat, ps: seq<Pull>, closure: set<UnitName>, i: nat)
    requires r.g.Valid() && ClosedUnderDeps(r.g, closure) && GrownFromAny(r, log, lo, ps) && lo <= i < |log|
    requires forall p :: p in ps ==> p.request.kind == Stop && p.request.unit !in closure
    requires log[i].unit in closure
    ensures Leaks(r, log, lo, closure)
  {
    hide Pulls, GraphView.Valid, First, LeaksInto;
    if !Requested(ps, log[i]) {
      assert PulledAfter(r, log, lo, i);
      var j :| lo <= j < i && First(log, j) && Requested(Pulls(r, log[j]), log[i]);
      GrownStops(r, log, lo, ps, j);
      if log[j].unit in closure {
        StopEntersByLeak(r, log, lo, ps, closure, j);
      } else {
        PullsAreRules(r, log[j], log[i]);
        OnlyLeak(r, log[j].unit, log[i].unit, closure);
      }
    }
  }

  lemma OnlyLeak(r: Rules, u: UnitName, v: UnitName, closure: set<UnitName>)
    requires ClosedUnderDeps(r.g, closure) && StopRule(r, u, v) && v in closure && u !in closure
    ensures LeaksInto(r, u, closure)
  {
  }

  /** The stops of an isolate request reach into the closure exactly when a unit outside it that is
      first requested by them propagates its stop to a loaded unit of the closure. */
  lemma StopsEnterByLeaks(r: Rules, root: Request, closure: set<UnitName>)
    requires r.g.Valid() && r.expands && IsDepClosure(r.g, root.unit, closure)
    ensures var lo, log := |Add(r, [], root).0|, IsolateLog(r, root, closure);
      StopsInside(log, lo, closure) <==> Leaks(r, log, lo, closure)
  {
    hide Pulls, GraphView.Valid, Safe, LeaksInto, First, GrownFromAny, Closed;
    var log1, log := Add(r, [], root).0, IsolateLog(r, root, closure);
    var ps := StopEach(IsolateTargets(r.g, r.m, closure, r.g.nodes));
    AddAllJustified(r, log1, ps);
    TargetsOutside(r, closure, ps);
    if i :| |log1| <= i < |log| && log[i].unit in closure {
      StopEntersByLeak(r, log, |log1|, ps, closure, i);
    }
    if Leaks(r, log, |log1|, closure) {
      var j :| |log1| <= j < |log| && First(log, j) && log[j].unit !in closure && LeaksInto(r, log[j].unit, closure);
      GrownStops(r, log, |log1|, ps, j);
      SoftKindIsSafe(r, Stop);
      SafeAllCloses(r, (iset q: Request | q.kind == Stop && q.unit in r.m.loaded), log1, ps);
      LeakIsFollowed(r, log, |log1|, j, closure);
    }
  }

  lemma TargetsOutside(r: Rules, closure: set<UnitName>, ps: seq<Pull>)
    requires ps == StopEach(IsolateTargets(r.g, r.m, closure, r.g.nodes))
    ensures forall p :: p in ps ==> p.request.kind == Stop && p.request.unit !in closure && p.request.unit in r.m.loaded
  {
    var us := IsolateTargets(r.g, r.m, closure, r.g.nodes);
    forall p | p in ps ensures p.request.kind == Stop && p.request.unit !in closure && p.request.unit in r.m.loaded {
      var i :| 0 <= i < |ps| && ps[i] == p;
      assert us[i] in us;
    }
  }

  lemma LeakIsFollowed(r: Rules, log: Log, lo: nat, j: nat, closure: set<UnitName>)
    requires r.g.Valid() && r.expands && Closed(r, log, lo) && lo <= j < |log| && First(log, j)
    requires log[j].kind == Stop && LeaksInto(r, log[j].unit, closure)
    ensures StopsInside(log, lo, closure)
  {
    hide Pulls, GraphView.Valid, First;
    var v :| r.g.HasEdge(log[j].unit, PropagatesStopTo, v) && v in closure && v in r.m.loaded;
    assert Answered(r, log, j);
    PullsAreRules(r, log[j], Request(v, Stop));
    var p :| p in Pulls(r, log[j]) && p.request == Request(v, Stop);
    var i :| 0 <= i < |log[j + 1..]| && log[j + 1..][i] == p.request;
    assert log[j + 1 + i].unit in closure;
  }

  // ----- the closure, edge by edge -----

  /** Each unit has an edge to the next of one of the kinds that keep the next from being stopped. */
  ghost predicate KeptWalk(g: GraphView, w: seq<UnitName>) {
    forall i :: 0 < i < |w| ==> KeepsRunning(g, w[i - 1], w[i])
  }

  ghost predicate KeepsRunning(g: GraphView, u: UnitName, v: UnitName) {
    || g.HasEdge(u, Wants, v) || g.HasEdge(u, Requires, v) || g.HasEdge(u, BindsTo, v) || g.HasEdge(u, Upholds, v)
    || g.HasEdge(u, Requisite, v) || g.HasEdge(u, PartOf, v) || g.HasEdge(u, After, v) || g.HasEdge(u, Before, v)
  }

  ghost predicate Reaches(g: GraphView, root: UnitName, v: UnitName) {
    exists w :: w != [] && KeptWalk(g, w) && w[0] == root && w[|w| - 1] == v
  }

  /** The closure follows pulls, `PartOf` and, in both directions, ordering. */
  lemma ClosureFollows(g: GraphView, root: UnitName, s: set<UnitName>, u: UnitName, k: DepEdge, v: UnitName)
    requires IsDepClosure(g, root, s) && u in s && g.HasEdge(u, k, v)
    requires k in {Wants, Requires, BindsTo, Upholds, Requisite, PartOf, After, Before}
    ensures v in s
  {
  }

  lemma {:induction false} WalkStays(g: GraphView, root: UnitName, s: set<UnitName>, w: seq<UnitName>, i: nat)
    requires IsDepClosure(g, root, s) && KeptWalk(g, w) && i < |w| && w[0] == root
    ensures w[i] in s
  {
    hide IsDepClosure;
    if i > 0 {
      WalkStays(g, root, s, w, i - 1);
      assert KeepsRunning(g, w[i - 1], w[i]);
      var k :| g.HasEdge(w[i - 1], k, w[i])
        && k in {Wants, Requires, BindsTo, Upholds, Requisite, PartOf, After, Before};
      ClosureFollows(g, root, s, w[i - 1], k, w[i]);
    } else {
      RootInClosure(g, root, s);
    }
  }

  lemma RootInClosure(g: GraphView, root: UnitName, s: set<UnitName>)
    requires IsDepClosure(g, root, s)
    ensures root in s
  {
  }

  /** And nothing else: its members are exactly the units some such walk reaches from the root. */
  lemma ClosureExactly(g: GraphView, root: UnitName, s: set<UnitName>, v: UnitName)
    requires IsDepClosure(g, root, s)
    ensures v in s <==> Reaches(g, root, v)
  {
    if Reaches(g, root, v) {
      var w :| w != [] && KeptWalk(g, w) && w[0] == root && w[|w| - 1] == v;
      WalkStays(g, root, s, w, |w| - 1);
    }
    hide KeptWalk;
    var t := set x | x in s && Reaches(g, root, x);
    ReachesRoot(g, root);
    forall u, k, x | u in t && ClosureEdge(k) && g.HasEdge(u, k, x) ensures x in t {
      ReachesNext(g, root, u, x);
    }
    assert s <= t;
  }

  lemma ReachesRoot(g: GraphView, root: UnitName)
    ensures Reaches(g, root, root)
  {
    assert KeptWalk(g, [root]) && [root][|[root]| - 1] == root;
  }

  lemma ReachesNext(g: GraphView, root: UnitName, u: UnitName, v: UnitName)
    requires Reaches(g, root, u) && KeepsRunning(g, u, v)
    ensures Reaches(g, root, v)
  {
    hide KeepsRunning;
    var w :| w != [] && KeptWalk(g, w) && w[0] == root && w[|w| - 1] == u;
    assert KeptWalk(g, w + [v]) && (w + [v])[|w + [v]| - 1] == v;
  }

  /** What isolating stops on its own account, and not because another stop propagates: a loaded,
      active node that does not opt out and that no such walk from the root reaches. */
  ghost predicate StoppedOutright(r: Rules, root: UnitName, v: UnitName) {
    && v in r.g.nodes && v in r.m.loaded && v in r.m.active && v !in r.g.ignoreOnIsolate
    && !Reaches(r.g, root, v)
  }

  lemma TargetsExactly(r: Rules, root: UnitName, closure: set<UnitName>, v: UnitName)
    requires IsDepClosure(r.g, root, closure)
    ensures v in IsolateTargets(r.g, r.m, closure, r.g.nodes) <==> StoppedOutright(r, root, v)
  {
    hide IsDepClosure, Reaches;
    ClosureExactly(r.g, root, closure, v);
  }

  // ----- the units that isolate stops reach -----

  /** `t` holds the targets, and with a unit all that stops with it, leaving out what is in `kept`. */
  ghost predicate CascadeClosed(r: Rules, kept: set<UnitName>, targets: seq<UnitName>, t: set<UnitName>) {
    && (forall u :: u in targets && u !in kept ==> u in t)
    && (forall u, v :: u in t && StopRule(r, u, v) && v !in kept ==> v in t)
  }

  /** `t` is the least such set. A unit in `kept` was requested before, so a stop of it is merged
      into its job and not expanded. */
  ghost predicate IsCascade(r: Rules, kept: set<UnitName>, targets: seq<UnitName>, t: set<UnitName>) {
    CascadeClosed(r, kept, targets, t) && forall s :: CascadeClosed(r, kept, targets, s) ==> t <= s
  }

  /** Some unit of the cascade outside the closure propagates its stop to a loaded unit inside. */
  ghost predicate CascadeLeaks(r: Rules, t: set<UnitName>, closure: set<UnitName>) {
    exists u :: u in t && u !in closure && LeaksInto(r, u, closure)
  }

  lemma PrefixUnits(log: Log, log1: Log)
    requires log1 <= log
    ensures forall u :: u in Units(log1) <==> exists i :: 0 <= i < |log1| && log[i].unit == u
  {
    forall u ensures u in Units(log1) <==> exists i :: 0 <= i < |log1| && log[i].unit == u {
      if q :| q in log1 && q.unit == u {
        var i :| 0 <= i < |log1| && log1[i] == q;
        assert log[i] == log1[i];
      }
      if i :| 0 <= i < |log1| && log[i].unit == u {
        assert log1[i] == log[i] && log1[i] in log1;
      }
    }
  }

  /** A unit is new to the phase that starts at `lo` exactly when its first request lies there. */
  lemma NewIsFirst(log: Log, log1: Log, u: UnitName) returns (j: nat)
    requires log1 <= log && u in Units(log) && u !in Units(log1)
    ensures |log1| <= j < |log| && First(log, j) && log[j].unit == u
  {
    PrefixUnits(log, log1);
    j := FirstOf(log, u);
  }

  lemma FirstIsNew(log: Log, log1: Log, j: nat)
    requires log1 <= log && |log1| <= j < |log| && First(log, j)
    ensures log[j].unit in Units(log) && log[j].unit !in Units(log1)
  {
    assert log[j] in log;
    PrefixUnits(log, log1);
  }

  lemma {:induction false} CascadeLeast(r: Rules, log: Log, log1: Log, us: seq<UnitName>, s: set<UnitName>, i: nat)
    requires r.g.Valid() && log1 <= log && GrownFromAny(r, log, |log1|, StopEach(us)) && |log1| <= i < |log|
    requires CascadeClosed(r, Units(log1), us, s)
    ensures log[i].unit in Units(log1) || log[i].unit in s
  {
    hide Pulls, GraphView.Valid, First, Units, StopRule, StartRule, ReloadRule, TryRestartRule;
    var ps := StopEach(us);
    if Requested(ps, log[i]) {
      var p :| p in ps && p.request == log[i];
      assert log[i].unit in us;
    } else {
      assert PulledAfter(r, log, |log1|, i);
      var j :| |log1| <= j < i && First(log, j) && Requested(Pulls(r, log[j]), log[i]);
      GrownStops(r, log, |log1|, ps, j);
      CascadeLeast(r, log, log1, us, s, j);
      FirstIsNew(log, log1, j);
      PullsAreRules(r, log[j], log[i]);
    }
  }

  lemma CascadeIsFollowed(r: Rules, log: Log, log1: Log, j: nat, v: UnitName)
    requires r.g.Valid() && r.expands && log1 <= log && Closed(r, log, |log1|) && |log1| <= j < |log| && First(log, j)
    requires log[j].kind == Stop && StopRule(r, log[j].unit, v)
    ensures v in Units(log)
  {
    hide Pulls, GraphView.Valid, First, StopRule;
    assert Answered(r, log, j);
    PullsAreRules(r, log[j], Request(v, Stop));
    var p :| p in Pulls(r, log[j]) && p.request == Request(v, Stop);
    LaterTail(log, 0, j + 1, p.request);
    assert log[0..] == log;
  }

  /** The units an isolate request adds to those of the root's expansion are exactly the cascade of
      its targets: they all stop, and nothing else is added. */
  lemma IsolateStopsExactly(r: Rules, root: Request, closure: set<UnitName>)
    requires r.g.Valid() && r.expands
    ensures var log1, log := Add(r, [], root).0, IsolateLog(r, root, closure);
      IsCascade(r, Units(log1), IsolateTargets(r.g, r.m, closure, r.g.nodes), Units(log) - Units(log1))
      && forall u :: u in Units(log) - Units(log1) ==> KindOf(r.m, log, u) == Stop
  {
    hide Pulls, GraphView.Valid, Safe, First, GrownFromAny, Closed, StopRule, Units, KindOf;
    var log1, log := Add(r, [], root).0, IsolateLog(r, root, closure);
    var us := IsolateTargets(r.g, r.m, closure, r.g.nodes);
    var ps := StopEach(us);
    AddAllJustified(r, log1, ps);
    TargetsOutside(r, closure, ps);
    SoftKindIsSafe(r, Stop);
    SafeAllCloses(r, (iset q: Request | q.kind == Stop && q.unit in r.m.loaded), log1, ps);
    TargetsRequested(r, log, log1, us);
    forall u, v | u in Units(log) - Units(log1) && StopRule(r, u, v) ensures v in Units(log) {
      var j := NewIsFirst(log, log1, u);
      GrownStops(r, log, |log1|, ps, j);
      CascadeIsFollowed(r, log, log1, j, v);
    }
    forall s | CascadeClosed(r, Units(log1), us, s) ensures Units(log) - Units(log1) <= s {
      forall u | u in Units(log) - Units(log1) ensures u in s {
        var j := NewIsFirst(log, log1, u);
        CascadeLeast(r, log, log1, us, s, j);
      }
    }
    forall u | u in Units(log) - Units(log1) ensures KindOf(r.m, log, u) == Stop {
      NewlyStopped(r, log, log1, ps, u);
    }
  }

  lemma TargetsRequested(r: Rules, log: Log, log1: Log, us: seq<UnitName>)
    requires log1 <= log && forall p :: p in StopEach(us) ==> p.request in log[|log1|..]
    ensures forall u :: u in us ==> u in Units(log)
  {
    forall u | u in us ensures u in Units(log) {
      var i :| 0 <= i < |us| && us[i] == u;
      assert StopEach(us)[i] in StopEach(us);
      LaterTail(log, 0, |log1|, Request(u, Stop));
      assert Request(u, Stop) in log;
    }
  }

  lemma NewlyStopped(r: Rules, log: Log, log1: Log, ps: seq<Pull>, u: UnitName)
    requires r.g.Valid() && log1 <= log && GrownFromAny(r, log, |log1|, ps) && u in Units(log) && u !in Units(log1)
    requires forall p :: p in ps ==> p.request.kind == Stop
    ensures KindOf(r.m, log, u) == Stop
  {
    hide Pulls, GraphView.Valid, GrownFromAny;
    PrefixUnits(log, log1);
    forall q | q in log && q.unit == u ensures q.kind == Stop {
      var i :| 0 <= i < |log| && log[i] == q;
      GrownStops(r, log, |log1|, ps, i);
    }
    hide KindOf;
    UnanimousUnit(r.m, log, u, Stop);
  }

  /** Stops propagate along `w`, past no unit in `kept`. */
  ghost predicate StopChain(r: Rules, kept: set<UnitName>, w: seq<UnitName>) {
    && (forall i :: 0 <= i < |w| ==> w[i] !in kept)
    && (forall i :: 0 < i < |w| ==> StopRule(r, w[i - 1], w[i]))
  }

  /** Such a chain leads from a unit stopped outright to `v`. */
  ghost predicate Cascades(r: Rules, root: UnitName, kept: set<UnitName>, v: UnitName) {
    exists w :: w != [] && StoppedOutright(r, root, w[0]) && StopChain(r, kept, w) && w[|w| - 1] == v
  }

  lemma {:induction false} ChainStays(r: Rules, kept: set<UnitName>, us: seq<UnitName>, t: set<UnitName>,
                                      w: seq<UnitName>, i: nat)
    requires CascadeClosed(r, kept, us, t) && StopChain(r, kept, w) && i < |w| && w[0] in us
    ensures w[i] in t
  {
    hide StopRule;
    if i > 0 {
      ChainStays(r, kept, us, t, w, i - 1);
    }
  }

  /** The cascade, unit by unit: it is what stops chains reach from the units stopped outright. */
  lemma CascadeExactly(r: Rules, root: UnitName, closure: set<UnitName>, kept: set<UnitName>, t: set<UnitName>,
                       v: UnitName)
    requires IsDepClosure(r.g, root, closure) && IsCascade(r, kept, IsolateTargets(r.g, r.m, closure, r.g.nodes), t)
    ensures v in t <==> Cascades(r, root, kept, v)
  {
    hide IsDepClosure, StoppedOutright, StopRule;
    var us := IsolateTargets(r.g, r.m, closure, r.g.nodes);
    forall u ensures u in us <==> StoppedOutright(r, root, u) {
      TargetsExactly(r, root, closure, u);
    }
    hide IsolateTargets;
    if Cascades(r, root, kept, v) {
      var w :| w != [] && StoppedOutright(r, root, w[0]) && StopChain(r, kept, w) && w[|w| - 1] == v;
      ChainStays(r, kept, us, t, w, |w| - 1);
    }
    var s := set x | x in t && Cascades(r, root, kept, x);
    CascadesClosed(r, root, kept, us, t, s);
  }

  lemma CascadesClosed(r: Rules, root: UnitName, kept: set<UnitName>, us: seq<UnitName>, t: set<UnitName>,
                       s: set<UnitName>)
    requires CascadeClosed(r, kept, us, t) && s == set x | x in t && Cascades(r, root, kept, x)
    requires forall u :: u in us ==> StoppedOutright(r, root, u)
    ensures CascadeClosed(r, kept, us, s)
  {
    hide StoppedOutright, StopRule;
    forall u | u in us && u !in kept ensures u in s {
      assert StopChain(r, kept, [u]) && [u][|[u]| - 1] == u;
    }
    hide Cascades;
    forall u, x | u in s && StopRule(r, u, x) && x !in kept ensures x in s {
      CascadesOn(r, root, kept, u, x);
    }
  }

  lemma CascadesOn(r: Rules, root: UnitName, kept: set<UnitName>, u: UnitName, v: UnitName)
    requires Cascades(r, root, kept, u) && StopRule(r, u, v) && v !in kept
    ensures Cascades(r, root, kept, v)
  {
    hide StopRule, StoppedOutright;
    var w :| w != [] && StoppedOutright(r, root, w[0]) && StopChain(r, kept, w) && w[|w| - 1] == u;
    assert StopChain(r, kept, w + [v]) && (w + [v])[|w + [v]| - 1] == v;
  }

  /** The stops of an isolate request reach into the closure exactly when a unit of the cascade outside
      it propagates its stop to a loaded unit inside: the cascade is a least fixed point over the
      graph, the targets and the units of the root's expansion, known before anything is stopped. */
  lemma IsolateCascadesExactly(r: Rules, root: Request, closure: set<UnitName>, t: set<UnitName>)
    requires r.g.Valid() && r.expands && IsDepClosure(r.g, root.unit, closure)
    requires IsCascade(r, Units(Add(r, [], root).0), IsolateTargets(r.g, r.m, closure, r.g.nodes), t)
    ensures StopsInside(IsolateLog(r, root, closure), |Add(r, [], root).0|, closure) <==> CascadeLeaks(r, t, closure)
  {
    hide Add, AddAll, GraphView.Valid, LeaksInto, First, CascadeClosed, Units, IsDepClosure, KindOf;
    var log1, log := Add(r, [], root).0, IsolateLog(r, root, closure);
    IsolateStopsExactly(r, root, closure);
    assert t == Units(log) - Units(log1);
    StopsEnterByLeaks(r, root, closure);
    if Leaks(r, log, |log1|, closure) {
      var j :| |log1| <= j < |log| && First(log, j) && log[j].unit !in closure && LeaksInto(r, log[j].unit, closure);
      FirstIsNew(log, log1, j);
    }
    if CascadeLeaks(r, t, closure) {
      var u :| u in t && u !in closure && LeaksInto(r, u, closure);
      var j := NewIsFirst(log, log1, u);
    }
  }

  /** So where no loaded unit outside the closure propagates its stop into it, the stops leave every
      unit of the closure as the expansion of the root left it. */
  lemma IsolateKeepsTheClosure(r: Rules, root: Request, closure: set<UnitName>, u: UnitName)
    requires r.g.Valid() && r.expands && IsDepClosure(r.g, root.unit, closure) && u in closure
    requires forall x :: x in r.m.loaded && x !in closure ==> !LeaksInto(r, x, closure)
    ensures var log1, log := Add(r, [], root).0, IsolateLog(r, root, closure);
      (u in Units(log) <==> u in Units(log1)) && KindOf(r.m, log, u) == KindOf(r.m, log1, u)
  {
    hide GraphView.Valid, LeaksInto, IsDepClosure;
    var log1, log := Add(r, [], root).0, IsolateLog(r, root, closure);
    var ps := StopEach(IsolateTargets(r.g, r.m, closure, r.g.nodes));
    StopsEnterByLeaks(r, root, closure);
    AddAllJustified(r, log1, ps);
    assert forall i :: |log1| <= i < |log| ==> log[i].unit in r.m.loaded;
    assert !Leaks(r, log, |log1|, closure);
    assert forall i :: |log1| <= i < |log| ==> log[i].unit != u;
    OthersChangeNothing(r.m, log, |log1|, u);
    assert log[..|log1|] == log1;
  }

  lemma {:induction false} OthersChangeNothing(m: ManagerView, log: Log, lo: nat, u: UnitName)
    requires lo <= |log| && forall i :: lo <= i < |log| ==> log[i].unit != u
    ensures (u in Units(log) <==> u in Units(log[..lo])) && KindsFor(m, log, u) == KindsFor(m, log[..lo], u)
    decreases |log| - lo
  {
    if lo == |log| {
      assert log[..lo] == log;
    } else {
      var n := |log| - 1;
      assert log == log[..n] + [log[n]] && log[..n][..lo] == log[..lo];
      OthersChangeNothing(m, log[..n], lo, u);
      LastOther(log, u);
    }
  }

  lemma LastOther(log: Log, u: UnitName)
    requires log != [] && log[|log| - 1].unit != u
    ensures u in Units(log) <==> u in Units(log[..|log| - 1])
  {
    var n := |log| - 1;
    assert log == log[..n] + [log[n]];
    assert forall q :: q in log <==> q in log[..n] || q == log[n];
  }
}
