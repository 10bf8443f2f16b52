/** What a built transaction guarantees to the manager that runs it. */
module TransactionTheorems {
  import opened Wrappers
  import opened UnitNames
  import opened DepGraphs
  import opened TopoSort
  import opened Jobs
  import opened Expansion
  import opened ExpansionTheorems
  import opened RunTheorems
  import opened IsolateTheorems
  import opened Transactions

  /** Outside `IgnoreRequirements`, no job comes before one it must follow. */
  lemma TransactionIsOrdered(r: Rules, mode: JobMode, log: Log, first: JobId, next: JobId, t: Transaction)
    requires Delivers(r, mode, log, first, next, Ok(t)) && mode != IgnoreRequirements
    ensures forall i, j :: 0 <= i < |t.jobs| && 0 <= j <= i ==>
      !r.g.HasEdge(t.jobs[i].unit, Before, t.jobs[j].unit) && !r.g.HasEdge(t.jobs[j].unit, After, t.jobs[i].unit)
  {
    hide KindOf, ModeOutcome, HasCycle, IsStartOrder, GraphView.HasEdge, NoDuplicates;
    StartOrderMeans(r.g, FirstUnits(log), UnitsOf(t.jobs));
  }

  /** Every transaction has exactly one job per requested unit, of the merged kind. */
  lemma OneJobPerUnit(r: Rules, mode: JobMode, log: Log, first: JobId, next: JobId, t: Transaction)
    requires Delivers(r, mode, log, first, next, Ok(t))
    ensures forall i, j :: 0 <= i < j < |t.jobs| ==> t.jobs[i].unit != t.jobs[j].unit
    ensures forall u :: u in Units(log) <==> exists i :: 0 <= i < |t.jobs| && t.jobs[i].unit == u
    ensures forall i :: 0 <= i < |t.jobs| ==> t.jobs[i].kind == KindOf(r.m, log, t.jobs[i].unit)
  {
    hide KindOf, ModeOutcome, HasCycle, Precedes;
    var order := UnitsOf(t.jobs);
    if mode != IgnoreRequirements {
      StartOrderMembers(r.g, FirstUnits(log), order);
    }
    assert forall i :: 0 <= i < |order| ==> order[i] == t.jobs[i].unit;
    forall u ensures u in Units(log) <==> exists i :: 0 <= i < |t.jobs| && t.jobs[i].unit == u {
      assert u in order <==> exists i :: 0 <= i < |order| && order[i] == u;
    }
  }

  /** Ids increase strictly through a transaction exactly when the counter does not wrap. */
  lemma IdsIncreaseExactly(r: Rules, mode: JobMode, log: Log, first: JobId, next: JobId, t: Transaction)
    requires Delivers(r, mode, log, first, next, Ok(t))
    ensures (forall i, j :: 0 <= i < j < |t.jobs| ==> t.jobs[i].id < t.jobs[j].id) <==> first + |t.jobs| <= U32_LIMIT
    ensures first > PLACEHOLDER && first + |t.jobs| <= U32_LIMIT ==> forall i :: 0 <= i < |t.jobs| ==>
      t.jobs[i].id != PLACEHOLDER
  {
    hide KindOf, ModeOutcome, HasCycle, IsStartOrder, UnitsOf, FirstUnits;
    assert forall i :: 0 <= i < |t.jobs| ==> t.jobs[i].id == (first + i) % U32_LIMIT;
    if first + |t.jobs| > U32_LIMIT {
      var k := U32_LIMIT - first;
      assert t.jobs[k - 1].id == U32_LIMIT - 1 && t.jobs[k].id == 0;
    }
  }

  /** Whatever existing job is left standing agrees with the new job for its unit, and only
      jobs that disagree are cancelled; `Fail` succeeds only when all agree; `Flush` cancels all. */
  lemma SurvivorsAgree(r: Rules, mode: JobMode, log: Log, first: JobId, next: JobId, t: Transaction)
    requires Delivers(r, mode, log, first, next, Ok(t))
    ensures mode !in {Flush, Fail} ==> forall id :: id in t.cancel <==>
      exists ej :: ej in r.m.existing && ej.id == id && ej.unit in Units(log) && KindOf(r.m, log, ej.unit) != ej.kind
    ensures mode != Flush ==> forall ej :: ej in r.m.existing && ej.id !in t.cancel && ej.unit in Units(log) ==>
      ej.kind == KindOf(r.m, log, ej.unit)
    ensures mode == Fail ==> t.cancel == []
    ensures mode == Flush ==> forall ej :: ej in r.m.existing ==> ej.id in t.cancel
  {
    hide KindOf, HasCycle, IsStartOrder, IsSchedule;
    var jobs :| JobsOf(r.m, log, jobs) && DeliversJobs(r, mode, log, jobs, first, next, Ok(t));
    var existing := r.m.existing;
    DisagreeingMeans(jobs, existing);
    assert forall ej :: Disagrees(jobs, ej) <==> ej.unit in Units(log) && KindOf(r.m, log, ej.unit) != ej.kind;
    if mode == Flush {
      forall ej | ej in existing ensures ej.id in t.cancel {
        var i :| 0 <= i < |existing| && existing[i] == ej;
        assert t.cancel[i] == ej.id;
      }
    }
  }

  /** Jobs are cancelled in the order in which they are queued. */
  lemma CancelsInOrder(r: Rules, mode: JobMode, log: Log, first: JobId, next: JobId, t: Transaction)
    requires Delivers(r, mode, log, first, next, Ok(t))
    requires forall i, j :: 0 <= i < j < |r.m.existing| ==> r.m.existing[i].id < r.m.existing[j].id
    ensures forall i, j :: 0 <= i < j < |t.cancel| ==> t.cancel[i] < t.cancel[j]
  {
    hide KindOf, HasCycle, IsStartOrder, IsSchedule, Disagreeing;
    var jobs :| JobsOf(r.m, log, jobs) && DeliversJobs(r, mode, log, jobs, first, next, Ok(t));
    DisagreeingInOrder(jobs, r.m.existing);
    assert ModeOutcome(mode, r.m.existing, jobs) == Ok(t.cancel);
    assert mode == Flush ==> |t.cancel| == |r.m.existing|;
  }

  /** Under `IgnoreRequirements` ordering edges do not count: cycles are no error, and the jobs stand in
      the order of first request. */
  lemma RequirementsIgnored(r: Rules, log: Log, first: JobId, next: JobId, res: Result<Transaction, TransactionError>,
                            i: nat, j: nat) returns (a: nat, b: nat)
    requires Delivers(r, IgnoreRequirements, log, first, next, res) && First(log, i) && First(log, j) && i < j
    ensures res.Ok? && a < b < |res.value.jobs|
    ensures res.value.jobs[a].unit == log[i].unit && res.value.jobs[b].unit == log[j].unit
  {
    hide KindOf, HasCycle, First, Disagreeing, FirstUnits;
    a, b := FirstUnitsInOrder(log, i, j);
    var jobs := res.value.jobs;
    assert UnitsOf(jobs) == FirstUnits(log);
  }

  /** Under `IgnoreDependencies` the root's job stands alone. */
  lemma DependenciesIgnored(r: Rules, root: Request, log: Log, first: JobId, next: JobId, t: Transaction)
    requires !r.expands && root.unit in r.m.loaded && FinalLog(r, IgnoreDependencies, root, log)
    requires Delivers(r, IgnoreDependencies, log, first, next, Ok(t))
    ensures |t.jobs| == 1 && t.jobs[0].unit == root.unit && t.jobs[0].kind == KindOf(r.m, [root], root.unit)
  {
    hide KindOf, Delivers;
    assert [] + [root] == [root] && Pulls(r, root) == [];
    NoUnits();
    AddNew(r, [], root, [root]);
    NoPulls(r, [root]);
    hide Add, AddAll;
    assert log == [root];
    OneJobPerUnit(r, IgnoreDependencies, log, first, next, t);
    assert |t.jobs| > 1 ==> t.jobs[0].unit != t.jobs[1].unit;
    assert root in [root] && forall q :: q in [root] ==> q == root;
    assert Units(log) == {root.unit};
    hide Units;
    assert root.unit in Units(log);
    forall i | 0 <= i < |t.jobs| ensures t.jobs[i].unit == root.unit {
      assert t.jobs[i].unit in Units(log);
    }
  }

  /** `Fail` is refused exactly when some existing job disagrees with the new one. */
  lemma FailRefusesExactly(r: Rules, log: Log, first: JobId, next: JobId, res: Result<Transaction, TransactionError>)
    requires Delivers(r, Fail, log, first, next, res)
    ensures res == Err(WouldReplaceFail) <==>
      exists ej :: ej in r.m.existing && ej.unit in Units(log) && KindOf(r.m, log, ej.unit) != ej.kind
  {
    hide KindOf, HasCycle, IsStartOrder, IsSchedule;
    var jobs :| JobsOf(r.m, log, jobs) && DeliversJobs(r, Fail, log, jobs, first, next, res);
    assert forall ej :: Disagrees(jobs, ej) <==> ej.unit in Units(log) && KindOf(r.m, log, ej.unit) != ej.kind;
  }

  /** The transaction that isolates to a start root stops every job outside the closure, stops
      every loaded active node there that does not opt out, and starts the root. */
  lemma IsolateTransaction(r: Rules, root: Request, closure: set<UnitName>, log: Log, first: JobId, next: JobId,
                           t: Transaction)
    requires r.g.Valid() && root.unit in r.m.loaded && root.kind == Start
    requires IsDepClosure(r.g, root.unit, closure) && FinalLog(r, Isolate, root, log)
    requires Delivers(r, Isolate, log, first, next, Ok(t))
    ensures forall i :: 0 <= i < |t.jobs| && t.jobs[i].unit !in closure ==> t.jobs[i].kind == Stop
    ensures forall u :: u in r.g.nodes && IsolateTarget(r.g, r.m, closure, u) ==>
      exists i :: 0 <= i < |t.jobs| && t.jobs[i].unit == u && t.jobs[i].kind == Stop
    ensures exists i :: 0 <= i < |t.jobs| && t.jobs[i].unit == root.unit && t.jobs[i].kind in {Start, Restart}
  {
    hide KindOf, Delivers, GraphView.Valid, IsolateTarget, ClosedUnderDeps;
    var c :| IsDepClosure(r.g, root.unit, c) && log == IsolateLog(r, root, c);
    assert c == closure by {
      assert c <= closure && closure <= c;
    }
    IsolateStopsTheRest(r, root, closure);
    OneJobPerUnit(r, Isolate, log, first, next, t);
  }

  /** Beyond the units the root's expansion requests, the transaction has a job for exactly the units
      reached by stops from a unit stopped outright, and it is a stop. */
  lemma IsolateTransactionExactly(r: Rules, root: Request, log: Log, first: JobId, next: JobId, t: Transaction,
                                  u: UnitName)
    requires r.g.Valid() && r.expands && FinalLog(r, Isolate, root, log) && u !in Units(Add(r, [], root).0)
    requires Delivers(r, Isolate, log, first, next, Ok(t))
    ensures (exists i :: 0 <= i < |t.jobs| && t.jobs[i].unit == u)
      <==> Cascades(r, root.unit, Units(Add(r, [], root).0), u)
    ensures forall i :: 0 <= i < |t.jobs| && t.jobs[i].unit == u ==> t.jobs[i].kind == Stop
  {
    hide KindOf, Delivers, GraphView.Valid, IsDepClosure, Add, AddAll, IsCascade, IsolateTargets, Cascades, Units;
    var c :| IsDepClosure(r.g, root.unit, c) && log == IsolateLog(r, root, c);
    var kept := Units(Add(r, [], root).0);
    OneJobPerUnit(r, Isolate, log, first, next, t);
    IsolateStopsExactly(r, root, c);
    CascadeExactly(r, root.unit, c, kept, Units(log) - kept, u);
  }

  /** So a unit that the root, or anything kept for it, pulls in or orders itself before or after is
      not stopped, unless a stop of another unit propagates to it. */
  lemma IsolateSparesNeighbours(r: Rules, root: Request, log: Log, first: JobId, next: JobId, t: Transaction,
                                u: UnitName, v: UnitName)
    requires r.g.Valid() && r.expands && FinalLog(r, Isolate, root, log) && v !in Units(Add(r, [], root).0)
    requires Delivers(r, Isolate, log, first, next, Ok(t))
    requires Reaches(r.g, root.unit, u) && KeepsRunning(r.g, u, v) && forall x :: !StopRule(r, x, v)
    ensures forall i :: 0 <= i < |t.jobs| ==> t.jobs[i].unit != v
  {
    hide Delivers, GraphView.Valid, Add, AddAll, FinalLog, StopRule, KeepsRunning, KeptWalk, Units;
    var kept := Units(Add(r, [], root).0);
    IsolateTransactionExactly(r, root, log, first, next, t, v);
    ReachesNext(r.g, root.unit, u, v);
    if Cascades(r, root.unit, kept, v) {
      var w :| w != [] && StoppedOutright(r, root.unit, w[0]) && StopChain(r, kept, w) && w[|w| - 1] == v;
      var x := ChainEndsInStop(r, kept, w);
    }
  }

  lemma ChainEndsInStop(r: Rules, kept: set<UnitName>, w: seq<UnitName>) returns (x: UnitName)
    requires w != [] && StopChain(r, kept, w)
    ensures |w| > 1 ==> StopRule(r, x, w[|w| - 1])
  {
    hide StopRule;
    x := if |w| > 1 then w[|w| - 2] else w[0];
  }

  // ----- where the code is weaker than its documentation -----

  lemma {:induction false} HardLinkPulls(m: ManagerView, links: seq<Link>, l: Link) returns (p: Pull)
    requires l in links && l.edge in {Requires, BindsTo, Requisite}
    ensures p in StartPulls(m, links) && p.hard && p.request.unit == l.unit
  {
    if links[0] == l {
      p := StartPull(m, l)[0];
    } else {
      p := HardLinkPulls(m, links[1..], l);
    }
  }

  lemma {:induction false} UnloadedHardPullFails(r: Rules, log: Log, ps: seq<Pull>, p: Pull)
    requires p in ps && p.hard && p.request.unit !in r.m.loaded
    ensures AddAll(r, log, ps).1.Some?
    decreases |ps|
  {
    hide Pulls;
    if ps[0] != p {
      UnloadedHardPullFails(r, Add(r, log, ps[0].request).0, ps[1..], p);
    }
  }

  /** Every loaded unit can be started exactly when no loaded unit has a hard dependency on
      one that is not loaded: the first request for a unit follows all its hard pulls. */
  lemma StartableExactly(r: Rules)
    requires r.g.Valid() && r.expands
    ensures (forall u :: u in r.m.loaded ==> Add(r, [], Request(u, Start)).1.None?) <==> HardTargetsLoaded(r)
  {
    hide Add, AddAll;
    if HardTargetsLoaded(r) {
      forall u | u in r.m.loaded ensures Add(r, [], Request(u, Start)).1.None? {
        HardTargetsSuffice(r, Request(u, Start));
        NothingMissingNeverFails(r, Request(u, Start));
      }
    } else {
      var u, k, v :| u in r.m.loaded && k in {Requires, BindsTo, Requisite} && r.g.HasEdge(u, k, v) && v !in r.m.loaded;
      BrokenUnitFails(r, u, k, v);
    }
  }

  lemma BrokenUnitFails(r: Rules, u: UnitName, k: DepEdge, v: UnitName)
    requires r.expands && u in r.m.loaded && k in {Requires, BindsTo, Requisite} && r.g.HasEdge(u, k, v)
      && v !in r.m.loaded
    ensures Add(r, [], Request(u, Start)).1.Some?
  {
    var q := Request(u, Start);
    var p := HardLinkPulls(r.m, r.g.Outgoing(u), Link(k, v));
    UnloadedHardPullFails(r, [q], Pulls(r, q), p);
    assert [] + [q] == [q];
    hide StartPulls, AddAll;
  }

  /** The graph in which `a` has two edges to `b`, and `b` requires `c`. */
  function Triangle(a: UnitName, k: DepEdge, k': DepEdge, b: UnitName, c: UnitName): GraphView {
    GraphView(map[], map[], [], {}).WithEdge(a, k, b).WithEdge(a, k', b).WithEdge(b, Requires, c)
  }

  lemma TriangleIsValid(a: UnitName, k: DepEdge, k': DepEdge, b: UnitName, c: UnitName)
    ensures Triangle(a, k, k', b, c).Valid()
  {
    var g0 := GraphView(map[], map[], [], {});
    assert g0.Valid();
    hide GraphView.Valid, GraphView.WithEdge;
    g0.WithEdgeValid(a, k, b);
    g0.WithEdge(a, k, b).WithEdgeValid(a, k', b);
    g0.WithEdge(a, k, b).WithEdge(a, k', b).WithEdgeValid(b, Requires, c);
  }

  lemma TriangleLinks(a: UnitName, k: DepEdge, k': DepEdge, b: UnitName, c: UnitName, u: UnitName)
    requires a != b && b != c && a != c && k != k'
    ensures Triangle(a, k, k', b, c).Outgoing(u) ==
      if u == a then [Link(k, b), Link(k', b)] else if u == b then [Link(Requires, c)] else []
    ensures u == b ==> Triangle(a, k, k', b, c).Incoming(u) == [Link(k, a), Link(k', a)]
  {
    hide GraphView.WithEdge, GraphView.Outgoing, GraphView.Incoming, Insert;
    var g0 := GraphView(map[], map[], [], {});
    var g1 := g0.WithEdge(a, k, b);
    var g2 := g1.WithEdge(a, k', b);
    NoLinks(u);
    LinksAfter(g0, a, k, b, u);
    LinksAfter(g1, a, k', b, u);
    LinksAfter(g2, b, Requires, c, u);
    InsertFirst(Link(k, b));
    InsertFirst(Link(k, a));
    InsertFirst(Link(Requires, c));
    InsertSecond(Link(k, b), Link(k', b));
    InsertSecond(Link(k, a), Link(k', a));
  }

  lemma NoLinks(u: UnitName)
    ensures var g := GraphView(map[], map[], [], {}); g.Outgoing(u) == [] && g.Incoming(u) == []
  {
  }

  lemma InsertFirst<T(!new)>(l: T)
    ensures Insert([], l) == [l]
  {
  }

  lemma InsertSecond<T(!new)>(l: T, l': T)
    requires l != l'
    ensures Insert([l], l') == [l, l']
  {
    assert [l] + [l'] == [l, l'];
  }

  lemma LinksAfter(g: GraphView, from: UnitName, k: DepEdge, to: UnitName, u: UnitName)
    ensures g.WithEdge(from, k, to).Outgoing(u) == if u == from then Insert(g.Outgoing(u), Link(k, to))
      else g.Outgoing(u)
    ensures g.WithEdge(from, k, to).Incoming(u) == if u == to then Insert(g.Incoming(u), Link(k, from))
      else g.Incoming(u)
  {
  }

  lemma StartPullsOne(m: ManagerView, l: Link)
    ensures StartPulls(m, [l]) == StartPull(m, l)
  {
  }

  lemma StartPullsTwo(m: ManagerView, l: Link, l': Link)
    ensures StartPulls(m, [l, l']) == StartPull(m, l) + StartPull(m, l')
  {
    assert [l, l'][1..] == [l'];
    StartPullsOne(m, l');
  }

  lemma {:induction false} NoLinkPulls(m: ManagerView, links: seq<Link>, edges: set<DepEdge>, kind: JobType)
    requires forall l :: l in links ==> l.edge !in edges
    ensures LinkPulls(m, links, edges, kind) == []
  {
    if links != [] {
      assert links[0] in links;
      NoLinkPulls(m, links[1..], edges, kind);
    }
  }

  /** A request for a new unit, as the run of its pulls. */
  lemma AddNew(r: Rules, log: Log, q: Request, log1: Log)
    requires q.unit in r.m.loaded && q.unit !in Units(log) && log1 == log + [q]
    ensures Add(r, log, q) == AddAll(r, log1, Pulls(r, q))
  {
    hide AddAll, Pulls;
    assert q in log1;
  }

  lemma AddAgain(r: Rules, log: Log, q: Request)
    requires q.unit in r.m.loaded && q.unit in Units(log)
    ensures Add(r, log, q) == (log + [q], None)
  {
  }

  lemma AddAllOne(r: Rules, log: Log, p: Pull)
    ensures AddAll(r, log, [p]) == var (log', failed) := Add(r, log, p.request); (log', if p.hard then failed else None)
  {
    AddAllCons(r, log, p, []);
    assert [p] + [] == [p];
    hide Add;
  }

  lemma AddAllTwo(r: Rules, log: Log, p: Pull, p': Pull)
    ensures AddAll(r, log, [p, p']) ==
      var (log', failed) := Add(r, log, p.request);
      if failed.Some? && p.hard then (log', failed) else AddAll(r, log', [p'])
  {
    AddAllCons(r, log, p, [p']);
    assert [p] + [p'] == [p, p'];
    hide Add, AddAll;
  }

  lemma SwallowingRun(r: Rules, A: Request, B: Request, C: Request)
    requires A.unit in r.m.loaded && B.unit in r.m.loaded && C.unit !in r.m.loaded && A.unit != B.unit
    requires Pulls(r, A) == [Pull(B, false), Pull(B, true)] && Pulls(r, B) == [Pull(C, true)]
    ensures Add(r, [], A) == ([A, B, B], None)
  {
    hide Add, AddAll, Pulls;
    assert Units([]) == {} && Units([A]) == {A.unit} && B.unit in Units([A, B]) by {
      assert B in [A, B];
    }
    assert [] + [A] == [A] && [A] + [B] == [A, B] && [A, B] + [B] == [A, B, B];
    AddNew(r, [], A, [A]);
    AddAllTwo(r, [A], Pull(B, false), Pull(B, true));
    AddNew(r, [A], B, [A, B]);
    AddAllOne(r, [A, B], Pull(C, true));
    AddUnloaded(r, [A, B], C);
    AddAllOne(r, [A, B], Pull(B, true));
    AddAgain(r, [A, B], B);
  }

  lemma RevisitingRun(r: Rules, A: Request, S: Request, B: Request)
    requires A.unit in r.m.loaded && B.unit in r.m.loaded && S.unit == B.unit && A.unit != B.unit
    requires Pulls(r, A) == [Pull(S, true), Pull(B, true)] && Pulls(r, S) == []
    ensures Add(r, [], A) == ([A, S, B], None)
  {
    hide Add, AddAll, Pulls;
    assert Units([]) == {} && Units([A]) == {A.unit} && B.unit in Units([A, S]) by {
      assert S in [A, S];
    }
    assert [] + [A] == [A] && [A] + [S] == [A, S] && [A, S] + [B] == [A, S, B];
    AddNew(r, [], A, [A]);
    AddAllTwo(r, [A], Pull(S, true), Pull(B, true));
    AddNew(r, [A], S, [A, S]);
    NoPulls(r, [A, S]);
    AddAllOne(r, [A, S], Pull(B, true));
    AddAgain(r, [A, S], B);
  }

  /** Pulls follow the links of the unit in order; a stop goes to the incoming links before the outgoing
      ones, a restart starts along the outgoing ones before it restarts along the incoming. */
  lemma PullOrder(r: Rules, u: UnitName, a: UnitName, b: UnitName, c: UnitName)
    requires r.expands && a in r.m.loaded && b in r.m.loaded && c in r.m.loaded && r.g.Incoming(u) == [Link(PartOf, a)]
    ensures r.g.Outgoing(u) == [Link(PropagatesStopTo, c)] ==>
      Pulls(r, Request(u, Stop)) == [Pull(Request(a, Stop), false), Pull(Request(c, Stop), false)]
    ensures r.g.Outgoing(u) == [Link(Requires, b), Link(Conflicts, c)] ==>
      Pulls(r, Request(u, Restart)) ==
        [Pull(Request(b, Start), true), Pull(Request(c, Stop), true), Pull(Request(a, TryRestart), false)]
  {
    hide StartPulls, LinkPulls;
    LinkPullsOne(r.m, Link(PartOf, a), {BindsTo, PartOf}, Stop);
    LinkPullsOne(r.m, Link(PropagatesStopTo, c), {PropagatesStopTo}, Stop);
    StartPullsTwo(r.m, Link(Requires, b), Link(Conflicts, c));
    LinkPullsOne(r.m, Link(PartOf, a), {PartOf}, TryRestart);
  }

  /** What starting a unit asks of the target of an edge that is not a hard start. */
  function AskedAlong(k: DepEdge): JobType {
    if k == Requisite then VerifyActive else if k == Conflicts then Stop else Start
  }

  /** Propagation of hard failures can be lost: `a` requires `b`, but first wants, upholds,
      verifies or conflicts with it; `b` requires the missing `c`. The first request leaves `b`
      behind, failed or not expanded, so the hard pull finds it requested already and succeeds. */
  lemma SwallowedFailure(a: UnitName, k: DepEdge, b: UnitName, c: UnitName)
    requires a != b && b != c && a != c && k in {Wants, Upholds, Requisite, Conflicts}
    ensures var r := Rules(Triangle(a, k, Requires, b, c), ManagerView({a, b}, {}, {}, []), true);
      r.g.Valid() && BrokenHardChain(r, [a, b, c]) &&
      Add(r, [], Request(a, Start)) == ([Request(a, Start), Request(b, AskedAlong(k)), Request(b, Start)], None)
  {
    var r := Rules(Triangle(a, k, Requires, b, c), ManagerView({a, b}, {}, {}, []), true);
    hide GraphView.Valid, Triangle, Add, AddAll, StartPulls, LinkPulls;
    TriangleIsValid(a, k, Requires, b, c);
    TriangleLinks(a, k, Requires, b, c, a);
    TriangleLinks(a, k, Requires, b, c, b);
    StartPullsTwo(r.m, Link(k, b), Link(Requires, b));
    StartPullsOne(r.m, Link(Requires, c));
    if k == Wants || k == Upholds {
      SwallowingRun(r, Request(a, Start), Request(b, Start), Request(c, Start));
    } else {
      NoLinkPulls(r.m, r.g.Incoming(b), {BindsTo, PartOf}, Stop);
      NoLinkPulls(r.m, r.g.Outgoing(b), {PropagatesStopTo}, Stop);
      RevisitingRun(r, Request(a, Start), Request(b, AskedAlong(k)), Request(b, Start));
    }
  }

  lemma NoUnits()
    ensures Units([]) == {}
  {
  }

  lemma StopThenStart(m: ManagerView, A: Request, S: Request, B: Request)
    requires S.unit == B.unit && A.unit != B.unit && S.kind == Stop && B.kind == Start
    ensures Units([A, S, B]) == {A.unit, B.unit} && KindOf(m, [A, S, B], B.unit) == Restart
  {
    hide KindOf, Units, FirstUnits;
    LogSnoc(m, [], A);
    LogSnoc(m, [A], S);
    LogSnoc(m, [A, S], B);
    NoUnits();
    assert [] + [A] == [A] && [A] + [S] == [A, S] && [A, S] + [B] == [A, S, B];
  }

  /** A merged revisit is not expanded: `a` conflicts with `b` and requires it, `b` requires
      `c`. `b` ends as a restart, but nobody starts `c`. */
  lemma RevisitIsNotExpanded(a: UnitName, b: UnitName, c: UnitName)
    requires a != b && b != c && a != c
    ensures var r := Rules(Triangle(a, Conflicts, Requires, b, c), ManagerView({a, b, c}, {}, {}, []), true);
      var (log, failed) := Add(r, [], Request(a, Start));
      r.g.Valid() && failed.None? && KindOf(r.m, log, b) == Restart && c !in Units(log)
  {
    var r := Rules(Triangle(a, Conflicts, Requires, b, c), ManagerView({a, b, c}, {}, {}, []), true);
    hide GraphView.Valid, Triangle, Add, AddAll, StartPulls, LinkPulls, KindOf;
    TriangleIsValid(a, Conflicts, Requires, b, c);
    TriangleLinks(a, Conflicts, Requires, b, c, a);
    TriangleLinks(a, Conflicts, Requires, b, c, b);
    StartPullsTwo(r.m, Link(Conflicts, b), Link(Requires, b));
    NoLinkPulls(r.m, r.g.Incoming(b), {BindsTo, PartOf}, Stop);
    NoLinkPulls(r.m, r.g.Outgoing(b), {PropagatesStopTo}, Stop);
    RevisitingRun(r, Request(a, Start), Request(b, Stop), Request(b, Start));
    StopThenStart(r.m, Request(a, Start), Request(b, Stop), Request(b, Start));
  }

  /** The stops of an isolate request cascade: `a` wants `b`, so `b` is in the closure of `a`;
      `x` is outside, active, and propagates stops to `b`. Isolating to `a` turns the start of
      `b` into a restart. */
  lemma IsolateStopsCascade(a: UnitName, b: UnitName, x: UnitName)
    requires a != b && b != x && a != x
    ensures var g := GraphView(map[], map[], [], {}).WithEdge(a, Wants, b).WithEdge(x, PropagatesStopTo, b);
      var r := Rules(g, ManagerView({a, b, x}, {x}, {a}, []), true);
      g.Valid() && IsDepClosure(g, a, {a, b})
      && IsolateLog(r, Request(a, Start), {a, b}) ==
         [Request(a, Start), Request(b, Start), Request(x, Stop), Request(b, Stop)]
      && KindOf(r.m, IsolateLog(r, Request(a, Start), {a, b}), b) == Restart
  {
    hide GraphView.Valid, GraphView.WithEdge, Pulls, Add, AddAll, KindOf, IsDepClosure;
    var g := GraphView(map[], map[], [], {}).WithEdge(a, Wants, b).WithEdge(x, PropagatesStopTo, b);
    CascadeIsValid(a, b, x);
    CascadeGraph(a, b, x, g);
    CascadeClosure(a, b, x, g);
    var r := Rules(g, ManagerView({a, b, x}, {x}, {a}, []), true);
    CascadePulls(a, b, x, r);
    CascadeRun(r, Request(a, Start), Request(b, Start), Request(x, Stop), Request(b, Stop));
    CascadeTargets(a, b, x, r);
    CascadeKind(r.m, Request(a, Start), Request(b, Start), Request(x, Stop), Request(b, Stop));
  }

  lemma CascadeIsValid(a: UnitName, b: UnitName, x: UnitName)
    ensures GraphView(map[], map[], [], {}).WithEdge(a, Wants, b).WithEdge(x, PropagatesStopTo, b).Valid()
  {
    var g0 := GraphView(map[], map[], [], {});
    assert g0.Valid();
    hide GraphView.Valid, GraphView.WithEdge;
    g0.WithEdgeValid(a, Wants, b);
    g0.WithEdge(a, Wants, b).WithEdgeValid(x, PropagatesStopTo, b);
  }

  lemma CascadeTargets(a: UnitName, b: UnitName, x: UnitName, r: Rules)
    requires a != b && b != x && a != x
    requires r.g.nodes == [a, b, x] && r.g.ignoreOnIsolate == {} && r.m == ManagerView({a, b, x}, {x}, {a}, [])
    ensures StopEach(IsolateTargets(r.g, r.m, {a, b}, r.g.nodes)) == [Pull(Request(x, Stop), false)]
  {
    assert [a, b, x][..2] == [a, b] && [a, b][..1] == [a] && [a][..0] == [];
    assert IsolateTargets(r.g, r.m, {a, b}, [a]) == [];
    assert IsolateTargets(r.g, r.m, {a, b}, [a, b]) == [];
    assert IsolateTargets(r.g, r.m, {a, b}, [a, b, x]) == [x];
  }

  lemma CascadeNodes(a: UnitName, b: UnitName, x: UnitName)
    requires a != b && b != x && a != x
    ensures var g := GraphView(map[], map[], [], {}).WithEdge(a, Wants, b).WithEdge(x, PropagatesStopTo, b);
      g.nodes == [a, b, x] && g.ignoreOnIsolate == {}
  {
    InsertFirst(a);
    InsertSecond(a, b);
    assert Insert([a, b], x) == [a, b, x] by {
      assert [a, b] + [x] == [a, b, x];
    }
    assert Insert([a, b, x], b) == [a, b, x];
    hide GraphView.Outgoing, GraphView.Incoming, Insert;
  }

  lemma CascadeGraph(a: UnitName, b: UnitName, x: UnitName, g: GraphView)
    requires a != b && b != x && a != x
    requires g == GraphView(map[], map[], [], {}).WithEdge(a, Wants, b).WithEdge(x, PropagatesStopTo, b)
    ensures g.nodes == [a, b, x] && g.ignoreOnIsolate == {}
    ensures g.Outgoing(a) == [Link(Wants, b)] && g.Outgoing(b) == [] && g.Outgoing(x) == [Link(PropagatesStopTo, b)]
    ensures g.Incoming(b) == [Link(Wants, a), Link(PropagatesStopTo, x)] && g.Incoming(x) == []
  {
    hide GraphView.WithEdge, GraphView.Outgoing, GraphView.Incoming, Insert;
    var g0 := GraphView(map[], map[], [], {});
    var g1 := g0.WithEdge(a, Wants, b);
    CascadeNodes(a, b, x);
    forall u
      ensures g.Outgoing(u) == if u == a then [Link(Wants, b)] else if u == x then [Link(PropagatesStopTo, b)] else []
      ensures g.Incoming(u) == if u == b then [Link(Wants, a), Link(PropagatesStopTo, x)] else []
    {
      NoLinks(u);
      LinksAfter(g0, a, Wants, b, u);
      LinksAfter(g1, x, PropagatesStopTo, b, u);
      InsertFirst(Link(Wants, b));
      InsertFirst(Link(Wants, a));
      InsertFirst(Link(PropagatesStopTo, b));
      InsertSecond(Link(Wants, a), Link(PropagatesStopTo, x));
    }
  }

  lemma CascadeClosure(a: UnitName, b: UnitName, x: UnitName, g: GraphView)
    requires g.Outgoing(a) == [Link(Wants, b)] && g.Outgoing(b) == []
    ensures IsDepClosure(g, a, {a, b})
  {
    hide GraphView.Outgoing;
    forall u, k, v | u in {a, b} && ClosureEdge(k) && g.HasEdge(u, k, v) ensures v in {a, b} {
      assert u == a;
    }
    forall t: set<UnitName> | a in t && ClosedUnderDeps(g, t) ensures {a, b} <= t {
      assert g.HasEdge(a, Wants, b);
    }
  }

  lemma CascadePulls(a: UnitName, b: UnitName, x: UnitName, r: Rules)
    requires a != b && b != x && a != x && r.expands && {a, b, x} <= r.m.loaded
    requires r.g.Outgoing(a) == [Link(Wants, b)] && r.g.Outgoing(b) == []
      && r.g.Outgoing(x) == [Link(PropagatesStopTo, b)]
    requires r.g.Incoming(b) == [Link(Wants, a), Link(PropagatesStopTo, x)] && r.g.Incoming(x) == []
    ensures Pulls(r, Request(a, Start)) == [Pull(Request(b, Start), false)]
    ensures Pulls(r, Request(b, Start)) == [] && Pulls(r, Request(x, Stop)) == [Pull(Request(b, Stop), false)]
  {
    StartPullsOne(r.m, Link(Wants, b));
    LinkPullsOne(r.m, Link(PropagatesStopTo, b), {PropagatesStopTo}, Stop);
    NoLinkPulls(r.m, [], {BindsTo, PartOf}, Stop);
  }

  lemma LinkPullsOne(m: ManagerView, l: Link, edges: set<DepEdge>, kind: JobType)
    ensures LinkPulls(m, [l], edges, kind) == LinkPull(m, l, edges, kind)
  {
    assert [l][1..] == [];
    assert LinkPulls(m, [], edges, kind) == [];
  }

  lemma CascadeRun(r: Rules, A: Request, B: Request, X: Request, S: Request)
    requires A.unit in r.m.loaded && B.unit in r.m.loaded && X.unit in r.m.loaded && S.unit == B.unit
    requires A.unit != B.unit && B.unit != X.unit && A.unit != X.unit
    requires Pulls(r, A) == [Pull(B, false)] && Pulls(r, B) == [] && Pulls(r, X) == [Pull(S, false)]
    ensures Add(r, [], A) == ([A, B], None)
    ensures AddAll(r, [A, B], [Pull(X, false)]) == ([A, B, X, S], None)
  {
    hide Add, AddAll, Pulls;
    assert Units([]) == {} && Units([A]) == {A.unit} && Units([A, B]) == {A.unit, B.unit};
    assert B.unit in Units([A, B, X]) by {
      assert B in [A, B, X];
    }
    assert [] + [A] == [A] && [A] + [B] == [A, B] && [A, B] + [X] == [A, B, X] && [A, B, X] + [S] == [A, B, X, S];
    AddNew(r, [], A, [A]);
    AddAllOne(r, [A], Pull(B, false));
    AddNew(r, [A], B, [A, B]);
    NoPulls(r, [A, B]);
    AddAllOne(r, [A, B], Pull(X, false));
    AddNew(r, [A, B], X, [A, B, X]);
    AddAllOne(r, [A, B, X], Pull(S, false));
    AddAgain(r, [A, B, X], S);
  }

  lemma CascadeKind(m: ManagerView, A: Request, B: Request, X: Request, S: Request)
    requires S.unit == B.unit && A.unit != B.unit && X.unit != B.unit && B.kind == Start && S.kind == Stop
    ensures KindOf(m, [A, B, X, S], B.unit) == Restart
  {
    hide KindOf, FirstUnits, Units;
    LogSnoc(m, [], A);
    LogSnoc(m, [A], B);
    LogSnoc(m, [A, B], X);
    LogSnoc(m, [A, B, X], S);
    EmptyKind(m, B.unit);
    assert [] + [A] == [A] && [A] + [B] == [A, B] && [A, B] + [X] == [A, B, X] && [A, B, X] + [S] == [A, B, X, S];
  }

  lemma EmptyKind(m: ManagerView, u: UnitName)
    ensures KindOf(m, [], u) == Nop
  {
  }
}
