/** The transaction builder: expands a root request over the graph and orders the jobs. */
module Transactions {
  import opened Wrappers
  import opened UnitNames
  import opened DepGraphs
  import opened TopoSort
  import opened Jobs
  import opened Merging
  import opened Expansion
  import opened RunTheorems

  datatype Transaction = Transaction(jobs: seq<Job>, cancel: seq<JobId>)

  datatype TransactionError =
    | Cycle(unit: UnitName)
    | NotLoaded(unit: UnitName)
    | WouldReplaceFail
    | IsolateNotAllowed(unit: UnitName)

  /** The builder's result for an expansion that failed on the named unit, if any. */
  function Outcome(failed: Option<UnitName>): Result<(), TransactionError> {
    match failed
    case None => Ok(())
    case Some(u) => Err(NotLoaded(u))
  }

  /** The jobs a log determines, before ids are given out. */
  ghost predicate JobsOf(m: ManagerView, log: Log, jobs: map<UnitName, Job>) {
    && (forall u :: u in jobs <==> u in Units(log))
    && (forall u :: u in jobs ==> jobs[u].unit == u && jobs[u].kind == KindOf(m, log, u))
  }

  class TxBuilder {
    const graph: DepGraph
    const manager: ManagerView
    var mode: JobMode
    /** The job map in insertion order: its keys, and the job of each. */
    var keys: seq<UnitName>
    var jobs: map<UnitName, Job>
    /** Every request made so far. */
    ghost var log: Log

    ghost function TheRules(): Rules
      reads this, graph
    {
      Rules(graph.View(), manager, mode != IgnoreDependencies)
    }

    /** The job map is what the log determines. */
    ghost predicate Valid()
      reads `keys, `jobs, `log
    {
      && keys == FirstUnits(log)
      && JobsOf(manager, log, jobs)
    }

    constructor (graph: DepGraph, manager: ManagerView, mode: JobMode)
      ensures Valid() && log == []
      ensures this.graph == graph && this.manager == manager && this.mode == mode
    {
      this.graph, this.manager, this.mode := graph, manager, mode;
      keys, jobs, log := [], map[], [];
    }

    /** Inserts or merges a job; returns whether it is new. */
    method InsertJob(unit: UnitName, kind0: JobType) returns (isNew: bool)
      requires Valid()
      modifies this
      ensures Valid() && mode == old(mode)
      ensures log == old(log) + [Request(unit, kind0)]
      ensures isNew <==> unit !in Units(old(log))
    {
      var kind := if kind0 == TryRestart && unit !in manager.active then Nop else kind0;
      hide KindOf, FirstUnits, Units;
      ghost var was, q := log, Request(unit, kind0);
      log := log + [q];
      LogSnoc(manager, was, q);
      if unit in jobs {
        jobs := jobs[unit := jobs[unit].(kind := MergeKinds(jobs[unit].kind, kind))];
        return false;
      }
      keys := keys + [unit];
      jobs := jobs[unit := Job(PLACEHOLDER, unit, kind, mode)];
      return true;
    }

    /** Requests a job and, if the unit is new, everything that request pulls. */
    method AddJobAndDeps(unit: UnitName, kind: JobType) returns (r: Result<(), TransactionError>)
      requires Valid()
      modifies this
      ensures Valid() && mode == old(mode)
      ensures var (after, failed) := Add(TheRules(), old(log), Request(unit, kind));
        log == after && r == Outcome(failed)
      decreases Remaining(TheRules(), log), 0
    {
      if unit !in manager.loaded {
        return Err(NotLoaded(unit));
      }
      var isNew := InsertJob(unit, kind);
      if !isNew {
        return Ok(());
      }
      if mode == IgnoreDependencies {
        return Ok(());
      }
      assert Request(unit, kind) in log;
      RemainingShrinks(TheRules(), old(log), log);
      r := Ok(());
      match kind {
        case Start => r := ExpandStart(unit);
        case ReloadOrStart => r := ExpandStart(unit);
        case Restart => r := ExpandRestart(unit);
        case Stop => ExpandStop(unit);
        case TryRestart =>
          if unit in manager.active {
            r := ExpandRestart(unit);
          }
        case Reload => ExpandReload(unit);
        case VerifyActive =>
        case Nop =>
      }
    }

    /** The shared body of the restart and active try-restart cases. */
    method ExpandRestart(unit: UnitName) returns (r: Result<(), TransactionError>)
      requires Valid() && mode != IgnoreDependencies
      modifies this
      ensures Valid() && mode == old(mode)
      ensures var (after, failed) := AddAll(TheRules(), old(log), RestartPulls(TheRules(), unit));
        log == after && r == Outcome(failed)
      decreases Remaining(TheRules(), log), 3
    {
      hide Add, AddAll, StartPulls, LinkPulls, TxBuilder.Valid;
      ghost var rules := TheRules();
      AddAllAppend(rules, log, StartPulls(manager, rules.g.Outgoing(unit)),
        LinkPulls(manager, rules.g.Incoming(unit), {PartOf}, TryRestart));
      r := ExpandStart(unit);
      if r.Err? {
        return;
      }
      RemainingShrinks(rules, old(log), log);
      ExpandStopPropagation(unit);
    }

    /** Pull-in expansion: hard pulls propagate failure, soft ones swallow it. */
    method ExpandStart(unit: UnitName) returns (r: Result<(), TransactionError>)
      requires Valid() && mode != IgnoreDependencies
      modifies this
      ensures Valid() && mode == old(mode)
      ensures var (after, failed) := AddAll(TheRules(), old(log), StartPulls(manager, graph.View().Outgoing(unit)));
        log == after && r == Outcome(failed)
      decreases Remaining(TheRules(), log), 2
    {
      hide Add, AddAll, StartPulls, TxBuilder.Valid;
      ghost var rules := TheRules();
      var edges := LinksOf(graph.forward, unit);
      assert edges[0..] == edges;
      NoPulls(rules, log);
      for i := 0 to |edges|
        invariant Valid() && mode == old(mode) && old(log) <= log
        invariant AddAll(rules, old(log), StartPulls(manager, edges)) ==
          AddAll(rules, log, StartPulls(manager, edges[i..]))
      {
        RemainingShrinks(rules, old(log), log);
        StartStep(rules, log, edges, i);
        var t := FollowStartLink(edges[i]);
        if t.Err? {
          return t;
        }
      }
      NoPulls(rules, log);
      assert edges[|edges|..] == [];
      return Ok(());
    }

    /** The body of the `ExpandStart` loop: follows one outgoing link of a starting unit. */
    method FollowStartLink(link: Link) returns (r: Result<(), TransactionError>)
      requires Valid() && mode != IgnoreDependencies
      modifies this
      ensures Valid() && mode == old(mode)
      ensures var ps := StartPull(manager, link);
        if ps == [] then log == old(log) && r == Ok(())
        else var (after, failed) := Add(TheRules(), old(log), ps[0].request);
          log == after && r == Outcome(if ps[0].hard then failed else None)
      decreases Remaining(TheRules(), log), 1
    {
      hide Add, TxBuilder.Valid;
      var Link(edge, target) := link;
      AddUnloaded(TheRules(), log, Request(target, Start));
      r := Ok(());
      match edge {
        case Requires =>
          if target in manager.loaded {
            r := AddJobAndDeps(target, Start);
          } else {
            r := Err(NotLoaded(target));
          }
        case BindsTo =>
          if target in manager.loaded {
            r := AddJobAndDeps(target, Start);
          } else {
            r := Err(NotLoaded(target));
          }
        case Wants =>
          if target in manager.loaded {
            var _ := AddJobAndDeps(target, Start);
          }
        case Upholds =>
          if target in manager.loaded {
            var _ := AddJobAndDeps(target, Start);
          }
        case Requisite =>
          r := AddJobAndDeps(target, VerifyActive);
        case Conflicts =>
          if target in manager.loaded {
            r := AddJobAndDeps(target, Stop);
          }
        case _ =>
      }
    }

    /** Stops what is bound to or part of the unit, then what it propagates stops to. */
    method ExpandStop(unit: UnitName)
      requires Valid() && mode != IgnoreDependencies
      modifies this
      ensures Valid() && mode == old(mode)
      ensures AddAll(TheRules(), old(log), StopPulls(TheRules(), unit)) == (log, None)
      decreases Remaining(TheRules(), log), 2
    {
      ghost var rules := TheRules();
      AddAllAppend(rules, log, LinkPulls(manager, rules.g.Incoming(unit), {BindsTo, PartOf}, Stop),
                   LinkPulls(manager, rules.g.Outgoing(unit), {PropagatesStopTo}, Stop));
      PullAlong(LinksOf(graph.reverse, unit), {BindsTo, PartOf}, Stop);
      RemainingShrinks(rules, old(log), log);
      PullAlong(LinksOf(graph.forward, unit), {PropagatesStopTo}, Stop);
    }

    /** Try-restarts what is part of the unit. */
    method ExpandStopPropagation(unit: UnitName)
      requires Valid() && mode != IgnoreDependencies
      modifies this
      ensures Valid() && mode == old(mode)
      ensures AddAll(TheRules(), old(log), LinkPulls(manager, graph.View().Incoming(unit), {PartOf}, TryRestart)) ==
        (log, None)
      decreases Remaining(TheRules(), log), 2
    {
      PullAlong(LinksOf(graph.reverse, unit), {PartOf}, TryRestart);
    }

    /** Reloads what the unit propagates reloads to. */
    method ExpandReload(unit: UnitName)
      requires Valid() && mode != IgnoreDependencies
      modifies this
      ensures Valid() && mode == old(mode)
      ensures AddAll(TheRules(), old(log),
        LinkPulls(manager, graph.View().Outgoing(unit), {PropagatesReloadTo}, Reload)) == (log, None)
      decreases Remaining(TheRules(), log), 2
    {
      PullAlong(LinksOf(graph.forward, unit), {PropagatesReloadTo}, Reload);
    }

    /** The loop the three propagation methods share: a soft pull along every matching link. */
    method PullAlong(links: seq<Link>, edges: set<DepEdge>, kind: JobType)
      requires Valid() && mode != IgnoreDependencies
      modifies this
      ensures Valid() && mode == old(mode) && old(log) <= log
      ensures AddAll(TheRules(), old(log), LinkPulls(manager, links, edges, kind)) == (log, None)
      decreases Remaining(TheRules(), log), 1
    {
      hide Add, AddAll, LinkPulls, TxBuilder.Valid;
      ghost var rules := TheRules();
      assert links[0..] == links;
      for i := 0 to |links|
        invariant Valid() && mode == old(mode) && old(log) <= log
        invariant AddAll(rules, old(log), LinkPulls(manager, links, edges, kind)) ==
          AddAll(rules, log, LinkPulls(manager, links[i..], edges, kind))
      {
        RemainingShrinks(rules, old(log), log);
        LinkStep(rules, log, links, edges, kind, i);
        var Link(edge, other) := links[i];
        if edge in edges && other in manager.loaded {
          var _ := AddJobAndDeps(other, kind);
        }
      }
      NoPulls(rules, log);
      assert links[|links|..] == [];
    }

    /** The inner loop of the closure: pushes what the links lead to. */
    static method PushTargets(below: seq<UnitName>, links: seq<Link>) returns (stack: seq<UnitName>)
      ensures stack == below + ClosureTargets(links)
    {
      stack := below;
      for i := 0 to |links|
        invariant stack == below + ClosureTargets(links[..i])
      {
        assert links[..i + 1][..i] == links[..i];
        if ClosureEdge(links[i].edge) {
          stack := stack + [links[i].unit];
        }
      }
      assert links[..|links|] == links;
    }

    /** The set of nodes reachable from `root` over pull, part-of and ordering edges. */
    method DepClosure(root: UnitName) returns (seen: set<UnitName>)
      requires graph.View().Valid()
      ensures IsDepClosure(graph.View(), root, seen)
    {
      ghost var g := graph.View();
      hide Worklist, GraphView.Valid, ClosureEdge, ClosedUnderDeps, IsDepClosure;
      ghost var universe := {root} + set n | n in g.nodes;
      seen := {};
      var stack := [root];
      WorklistStart(g, root, universe);
      while stack != []
        invariant seen <= universe && Worklist(g, root, universe, seen, stack)
        decreases |universe - seen|, |stack|
      {
        var u := stack[|stack| - 1];
        ghost var was := stack;
        stack := stack[..|stack| - 1];
        if u in seen {
          WorklistSkip(g, root, universe, seen, was);
          continue;
        }
        WorklistVisit(g, root, universe, seen, was);
        FewerUnseen(universe, seen, u);
        seen := seen + {u};
        stack := PushTargets(stack, LinksOf(graph.forward, u));
      }
      WorklistDone(g, root, universe, seen);
    }

    /** The log is `before` followed by the stops that isolating to `closure` asks for. */
    ghost predicate IsolatedFrom(before: Log, closure: set<UnitName>)
      reads this, graph
    {
      log == AddAll(TheRules(), before, StopEach(IsolateTargets(graph.View(), manager, closure, graph.nodes))).0
    }

    /** The nodes to stop: loaded, outside the closure, not opted out, and active. */
    method CollectTargets(closure: set<UnitName>) returns (toStop: seq<UnitName>)
      ensures toStop == IsolateTargets(graph.View(), manager, closure, graph.nodes)
    {
      toStop := [];
      for i := 0 to |graph.nodes|
        invariant toStop == IsolateTargets(graph.View(), manager, closure, graph.nodes[..i])
      {
        var n := graph.nodes[i];
        assert graph.nodes[..i + 1][..i] == graph.nodes[..i];
        if n in manager.loaded && n !in closure && n !in graph.ignoreOnIsolate && n in manager.active {
          toStop := toStop + [n];
        }
      }
      assert graph.nodes[..|graph.nodes|] == graph.nodes;
    }

    /** Queues a stop for every isolate target; these stops cascade like any other. */
    method AddIsolateStops(root: UnitName)
      requires Valid() && graph.View().Valid() && mode == Isolate
      modifies this
      ensures Valid() && mode == old(mode)
      ensures exists closure :: IsDepClosure(graph.View(), root, closure) && IsolatedFrom(old(log), closure)
    {
      hide Add, AddAll, IsDepClosure, GraphView.Valid, TxBuilder.Valid;
      var closure := DepClosure(root);
      ghost var rules := TheRules();
      var toStop := CollectTargets(closure);
      ghost var ps := StopEach(toStop);
      assert ps[0..] == ps;
      for i := 0 to |toStop|
        invariant Valid() && mode == old(mode)
        invariant AddAll(rules, old(log), ps) == AddAll(rules, log, ps[i..])
      {
        assert ps[i..] == [ps[i]] + ps[i + 1..];
        AddAllCons(rules, log, ps[i], ps[i + 1..]);
        var prior := mode;
        mode := Replace;
        var _ := AddJobAndDeps(toStop[i], Stop);
        mode := prior;
      }
      NoPulls(rules, log);
      assert ps[|toStop|..] == [];
      assert IsDepClosure(graph.View(), root, closure) && IsolatedFrom(old(log), closure);
    }

    /** Resolves the new jobs against the existing ones: the ids to cancel first. */
    method ApplyMode(mode: JobMode) returns (r: Result<seq<JobId>, TransactionError>)
      ensures r == ModeOutcome(mode, manager.existing, jobs)
    {
      var existing := manager.existing;
      var cancel: seq<JobId> := [];
      match mode {
        case Flush =>
          cancel := seq(|existing|, i requires 0 <= i < |existing| => existing[i].id);
        case Fail =>
          for i := 0 to |existing|
            invariant forall j :: 0 <= j < i ==> !Disagrees(jobs, existing[j])
          {
            if Disagrees(jobs, existing[i]) {
              return Err(WouldReplaceFail);
            }
          }
        case _ =>
          cancel := CancelDisagreeing();
      }
      return Ok(cancel);
    }

    /** The loop the replacing modes share. */
    method CancelDisagreeing() returns (cancel: seq<JobId>)
      ensures cancel == Disagreeing(jobs, manager.existing)
    {
      var existing := manager.existing;
      cancel := [];
      for i := 0 to |existing|
        invariant cancel == Disagreeing(jobs, existing[..i])
      {
        assert existing[..i + 1][..i] == existing[..i];
        if Disagrees(jobs, existing[i]) {
          cancel := cancel + [existing[i].id];
        }
      }
      assert existing[..|existing|] == existing;
    }
  }

  /** The transaction has a job of another kind for the unit of an existing job. */
  predicate Disagrees(jobs: map<UnitName, Job>, ej: Job) {
    ej.unit in jobs && jobs[ej.unit].kind != ej.kind
  }

  function Disagreeing(jobs: map<UnitName, Job>, existing: seq<Job>): seq<JobId> {
    if existing == [] then [] else
      var n := |existing| - 1;
      Disagreeing(jobs, existing[..n]) + if Disagrees(jobs, existing[n]) then [existing[n].id] else []
  }

  lemma {:induction false} DisagreeingMeans(jobs: map<UnitName, Job>, existing: seq<Job>)
    ensures forall id :: id in Disagreeing(jobs, existing) <==>
      exists ej :: ej in existing && Disagrees(jobs, ej) && ej.id == id
  {
    hide Disagrees;
    if existing != [] {
      var n := |existing| - 1;
      assert existing == existing[..n] + [existing[n]];
      DisagreeingMeans(jobs, existing[..n]);
    }
  }

  /** They are listed in the order of the existing jobs. */
  lemma {:induction false} DisagreeingInOrder(jobs: map<UnitName, Job>, existing: seq<Job>)
    requires forall i, j :: 0 <= i < j < |existing| ==> existing[i].id < existing[j].id
    ensures var ids := Disagreeing(jobs, existing);
      && (forall i, j :: 0 <= i < j < |ids| ==> ids[i] < ids[j])
      && (ids != [] ==> existing != [] && ids[|ids| - 1] <= existing[|existing| - 1].id)
  {
    hide Disagrees;
    if existing != [] {
      var n := |existing| - 1;
      var before, ids := Disagreeing(jobs, existing[..n]), Disagreeing(jobs, existing);
      DisagreeingInOrder(jobs, existing[..n]);
      assert n > 0 ==> existing[..n][n - 1] == existing[n - 1] && existing[n - 1].id < existing[n].id;
      assert before != [] ==> before[|before| - 1] < existing[n].id;
      assert ids == before || ids == before + [existing[n].id];
    }
  }

  /** How each mode treats the existing jobs. */
  ghost function ModeOutcome(mode: JobMode, existing: seq<Job>, jobs: map<UnitName, Job>)
      : Result<seq<JobId>, TransactionError> {
    match mode
    case Flush => Ok(seq(|existing|, i requires 0 <= i < |existing| => existing[i].id))
    case Fail => if exists ej :: ej in existing && Disagrees(jobs, ej) then Err(WouldReplaceFail) else Ok([])
    case _ => Ok(Disagreeing(jobs, existing))
  }

  // ----- whole transactions -----

  function UnitsOf(jobs: seq<Job>): (us: seq<UnitName>)
    ensures |us| == |jobs| && forall i :: 0 <= i < |jobs| ==> us[i] == jobs[i].unit
  {
    seq(|jobs|, i requires 0 <= i < |jobs| => jobs[i].unit)
  }

  /** `t` runs the jobs of `log` in an admissible order, under consecutive ids from `first`. */
  ghost predicate IsSchedule(r: Rules, mode: JobMode, log: Log, first: JobId, jobs: seq<Job>) {
    var order := UnitsOf(jobs);
    && (if mode == IgnoreRequirements then order == FirstUnits(log) else IsStartOrder(r.g, FirstUnits(log), order))
    && forall i :: 0 <= i < |jobs| ==>
         jobs[i] == Job((first + i) % U32_LIMIT, order[i], KindOf(r.m, log, order[i]), mode)
  }

  /** What a build delivers once its expansion succeeded with `log`. */
  ghost predicate Delivers(r: Rules, mode: JobMode, log: Log, first: JobId, next: JobId,
                           res: Result<Transaction, TransactionError>) {
    exists jobs :: JobsOf(r.m, log, jobs) && DeliversJobs(r, mode, log, jobs, first, next, res)
  }

  ghost predicate DeliversJobs(r: Rules, mode: JobMode, log: Log, jobs: map<UnitName, Job>, first: JobId, next: JobId,
                               res: Result<Transaction, TransactionError>) {
    match ModeOutcome(mode, r.m.existing, jobs)
    case Err(e) => res == Err(e) && next == first
    case Ok(cancel) =>
      if mode != IgnoreRequirements && HasCycle(r.g, FirstUnits(log)) then
        next == first && res.Err? && res.error.Cycle? && FirstStuck(r.g, FirstUnits(log), res.error.unit)
      else
        res.Ok? && res.value.cancel == cancel && IsSchedule(r, mode, log, first, res.value.jobs)
        && next == (first + |res.value.jobs|) % U32_LIMIT
  }

  /** Builds the transaction of a root request. */
  method Build(graph: DepGraph, manager: ManagerView, alloc: JobIdAlloc, rootUnit: UnitName, rootKind: JobType,
               mode: JobMode)
      returns (res: Result<Transaction, TransactionError>)
    requires graph.View().Valid()
    modifies alloc
    ensures var rules, root := Rules(graph.View(), manager, mode != IgnoreDependencies), Request(rootUnit, rootKind);
      if rootKind == VerifyActive && rootUnit in manager.active then
        res == Ok(Transaction([], [])) && alloc.next == old(alloc.next)
      else if rootUnit !in manager.loaded then res == Err(NotLoaded(rootUnit)) && alloc.next == old(alloc.next)
      else if mode == Isolate && rootUnit !in manager.allowIsolate then
        res == Err(IsolateNotAllowed(rootUnit)) && alloc.next == old(alloc.next)
      else if Add(rules, [], root).1.Some? then
        res == Err(NotLoaded(Add(rules, [], root).1.value)) && alloc.next == old(alloc.next)
      else exists log ::
        FinalLog(rules, mode, root, log) && Delivers(rules, mode, log, old(alloc.next), alloc.next, res)
  {
    hide Add, AddAll, GraphView.Valid, Delivers, JobsOf, HasCycle, FirstStuck, IsStartOrder, IsDepClosure;
    if rootKind == VerifyActive && rootUnit in manager.active {
      return Ok(Transaction([], []));
    }
    if rootUnit !in manager.loaded {
      return Err(NotLoaded(rootUnit));
    }
    if mode == Isolate && rootUnit !in manager.allowIsolate {
      return Err(IsolateNotAllowed(rootUnit));
    }
    ghost var rules := Rules(graph.View(), manager, mode != IgnoreDependencies);
    var builder := new TxBuilder(graph, manager, mode);
    var expanded := builder.AddJobAndDeps(rootUnit, rootKind);
    if expanded.Err? {
      return Err(expanded.error);
    }
    if mode == Isolate {
      builder.AddIsolateStops(rootUnit);
    }
    assert FinalLog(rules, mode, Request(rootUnit, rootKind), builder.log);
    var cancel := builder.ApplyMode(mode);
    res := Finish(graph, manager, alloc, mode, builder.keys, builder.jobs, cancel, builder.log);
  }

  /** Orders the jobs and gives out ids. */
  method Finish(graph: DepGraph, ghost manager: ManagerView, alloc: JobIdAlloc, mode: JobMode, names: seq<UnitName>,
                jobs: map<UnitName, Job>, cancel: Result<seq<JobId>, TransactionError>, ghost log: Log)
      returns (res: Result<Transaction, TransactionError>)
    requires names == FirstUnits(log) && JobsOf(manager, log, jobs)
    requires cancel == ModeOutcome(mode, manager.existing, jobs)
    modifies alloc
    ensures Delivers(Rules(graph.View(), manager, mode != IgnoreDependencies), mode, log, old(alloc.next), alloc.next,
      res)
  {
    hide HasCycle, FirstStuck, IsStartOrder, ModeOutcome, KindOf, IsSchedule, Disagreeing, NoDuplicates, Units,
      FirstUnits;
    ghost var rules := Rules(graph.View(), manager, mode != IgnoreDependencies);
    if cancel.Err? {
      res := Err(cancel.error);
      assert DeliversJobs(rules, mode, log, jobs, old(alloc.next), alloc.next, res);
      return;
    }
    var order := names;
    if mode != IgnoreRequirements {
      var sorted := TopoOrder(graph, names);
      if sorted.Err? {
        res := Err(Cycle(sorted.error));
        assert DeliversJobs(rules, mode, log, jobs, old(alloc.next), alloc.next, res);
        return;
      }
      order := sorted.value;
      StartOrderMembers(graph.View(), names, order);
    }
    StartOrderDistinct(graph.View(), names, order);
    var finished := AssignIds(alloc, mode, order, jobs);
    ScheduledInOrder(rules, mode, log, old(alloc.next), order, jobs, finished);
    res := Ok(Transaction(finished, cancel.value));
    assert DeliversJobs(rules, mode, log, jobs, old(alloc.next), alloc.next, res);
  }

  lemma ScheduledInOrder(r: Rules, mode: JobMode, log: Log, first: JobId, order: seq<UnitName>,
                         jobs: map<UnitName, Job>, finished: seq<Job>)
    requires |finished| == |order| && forall u :: u in order ==> u in jobs
    requires JobsOf(r.m, log, jobs)
    requires if mode == IgnoreRequirements then order == FirstUnits(log) else IsStartOrder(r.g, FirstUnits(log), order)
    requires forall i :: 0 <= i < |order| ==>
      finished[i] == Job((first + i) % U32_LIMIT, order[i], jobs[order[i]].kind, mode)
    ensures IsSchedule(r, mode, log, first, finished)
  {
    hide IsStartOrder, KindOf;
    assert order == UnitsOf(finished);
  }

  lemma StartOrderDistinct(g: GraphView, names: seq<UnitName>, order: seq<UnitName>)
    ensures NoDuplicates(names) && (order == names || IsStartOrder(g, names, order)) ==> NoDuplicates(order)
  {
  }

  lemma WrapStep(n: nat)
    ensures (n % U32_LIMIT + 1) % U32_LIMIT == (n + 1) % U32_LIMIT
  {
  }

  /** The final loop of `Build`: takes each job out of the map in order and gives it an id. */
  method AssignIds(alloc: JobIdAlloc, mode: JobMode, order: seq<UnitName>, jobs: map<UnitName, Job>)
      returns (finished: seq<Job>)
    requires NoDuplicates(order) && forall u :: u in order ==> u in jobs && jobs[u].unit == u
    modifies alloc
    ensures |finished| == |order|
    ensures forall i :: 0 <= i < |order| ==>
      finished[i] == Job((old(alloc.next) + i) % U32_LIMIT, order[i], jobs[order[i]].kind, mode)
    ensures alloc.next == (old(alloc.next) + |order|) % U32_LIMIT
  {
    finished := [];
    var pending := jobs;
    for i := 0 to |order|
      invariant |finished| == i
      invariant forall j :: 0 <= j < i ==>
        finished[j] == Job((old(alloc.next) + j) % U32_LIMIT, order[j], jobs[order[j]].kind, mode)
      invariant forall j :: i <= j < |order| ==> order[j] in pending && pending[order[j]] == jobs[order[j]]
      invariant alloc.next == (old(alloc.next) + i) % U32_LIMIT
    {
      if order[i] in pending {
        var j := pending[order[i]];
        pending := pending - {order[i]};
        var id := alloc.Alloc();
        finished := finished + [j.(id := id, mode := mode)];
        WrapStep(old(alloc.next) + i);
      }
    }
  }

  /** The far ends of the links the closure follows, in order. */
  function ClosureTargets(links: seq<Link>): seq<UnitName> {
    if links == [] then [] else
      var n := |links| - 1;
      ClosureTargets(links[..n]) + if ClosureEdge(links[n].edge) then [links[n].unit] else []
  }

  lemma {:induction false} ClosureTargetsMean(links: seq<Link>, v: UnitName)
    ensures v in ClosureTargets(links) <==> exists k :: ClosureEdge(k) && Link(k, v) in links
  {
    if links != [] {
      var n := |links| - 1;
      ClosureTargetsMean(links[..n], v);
      assert links == links[..n] + [links[n]];
      assert links[n] == Link(links[n].edge, links[n].unit);
    }
  }

  /** The closure loop: everything seen or stacked is reachable, and what is seen leads only
      to units that are seen or stacked. */
  ghost predicate Worklist(g: GraphView, root: UnitName, universe: set<UnitName>, seen: set<UnitName>,
                           stack: seq<UnitName>) {
    && (forall u :: u in stack ==> u in universe)
    && (root in seen || root in stack)
    && (forall u, k, v :: u in seen && ClosureEdge(k) && g.HasEdge(u, k, v) ==> v in seen || v in stack)
    && (forall t: set<UnitName> :: root in t && ClosedUnderDeps(g, t) ==>
          seen <= t && forall u :: u in stack ==> u in t)
  }

  lemma WorklistStart(g: GraphView, root: UnitName, universe: set<UnitName>)
    requires root in universe
    ensures Worklist(g, root, universe, {}, [root])
  {
  }

  lemma WorklistDone(g: GraphView, root: UnitName, universe: set<UnitName>, seen: set<UnitName>)
    requires Worklist(g, root, universe, seen, [])
    ensures IsDepClosure(g, root, seen)
  {
  }

  lemma FewerUnseen(universe: set<UnitName>, seen: set<UnitName>, u: UnitName)
    requires u in universe && u !in seen
    ensures |universe - (seen + {u})| < |universe - seen|
  {
    assert universe - (seen + {u}) == universe - seen - {u};
  }

  lemma WorklistSkip(g: GraphView, root: UnitName, universe: set<UnitName>, seen: set<UnitName>, stack: seq<UnitName>)
    requires stack != [] && stack[|stack| - 1] in seen && Worklist(g, root, universe, seen, stack)
    ensures Worklist(g, root, universe, seen, stack[..|stack| - 1])
  {
    var n := |stack| - 1;
    assert stack == stack[..n] + [stack[n]];
    hide ClosedUnderDeps;
  }

  lemma WorklistVisit(g: GraphView, root: UnitName, universe: set<UnitName>, seen: set<UnitName>, stack: seq<UnitName>)
    requires g.Valid() && universe == {root} + set n | n in g.nodes
    requires stack != [] && Worklist(g, root, universe, seen, stack)
    ensures var u := stack[|stack| - 1];
      u in universe && Worklist(g, root, universe, seen + {u}, stack[..|stack| - 1] + ClosureTargets(g.Outgoing(u)))
  {
    var n := |stack| - 1;
    var u := stack[n];
    assert stack == stack[..n] + [u];
    assert u in stack;
    var pushed := ClosureTargets(g.Outgoing(u));
    forall v ensures v in pushed <==> exists k :: ClosureEdge(k) && g.HasEdge(u, k, v) {
      ClosureTargetsMean(g.Outgoing(u), v);
    }
    forall v | v in pushed ensures v in universe {
      var k :| ClosureEdge(k) && g.HasEdge(u, k, v);
    }
    forall t: set<UnitName> | root in t && ClosedUnderDeps(g, t)
      ensures seen + {u} <= t && forall v :: v in stack[..n] + pushed ==> v in t
    {
      forall v | v in pushed ensures v in t {
        var k :| ClosureEdge(k) && g.HasEdge(u, k, v);
      }
    }
  }

  lemma LogSnoc(m: ManagerView, log: Log, q: Request)
    ensures FirstUnits(log + [q]) == Insert(FirstUnits(log), q.unit)
    ensures Units(log + [q]) == Units(log) + {q.unit}
    ensures forall u :: KindOf(m, log + [q], u) == if u == q.unit then MergeKinds(KindOf(m, log, u), Recorded(m, q))
      else KindOf(m, log, u)
    ensures q.unit !in Units(log) ==> KindOf(m, log, q.unit) == Nop
  {
    var log' := log + [q];
    assert log'[..|log|] == log;
    forall u ensures KindOf(m, log', u) == if u == q.unit then MergeKinds(KindOf(m, log, u), Recorded(m, q))
      else KindOf(m, log, u) {
      FoldSnoc(KindsFor(m, log, u), Recorded(m, q));
      assert KindsFor(m, log, u) + [] == KindsFor(m, log, u);
    }
  }

  lemma NoPulls(r: Rules, log: Log)
    ensures StartPulls(r.m, []) == []
    ensures forall edges, kind :: LinkPulls(r.m, [], edges, kind) == []
    ensures AddAll(r, log, []) == (log, None)
  {
  }

  lemma AddUnloaded(r: Rules, log: Log, q: Request)
    ensures q.unit !in r.m.loaded ==> Add(r, log, q) == (log, Some(q.unit))
  {
  }

  lemma AddAllCons(r: Rules, log: Log, p: Pull, rest: seq<Pull>)
    ensures AddAll(r, log, [p] + rest) ==
      var (log', failed) := Add(r, log, p.request);
      if failed.Some? && p.hard then (log', failed) else AddAll(r, log', rest)
  {
    assert ([p] + rest)[1..] == rest;
  }

  /** Following at most one pull, then the rest. */
  ghost function FollowThen(r: Rules, log: Log, ps: seq<Pull>, rest: seq<Pull>): (Log, Option<UnitName>)
    requires |ps| <= 1
  {
    if ps == [] then AddAll(r, log, rest) else
      var (log', failed) := Add(r, log, ps[0].request);
      if failed.Some? && ps[0].hard then (log', failed) else AddAll(r, log', rest)
  }

  lemma StartStep(r: Rules, log: Log, links: seq<Link>, i: nat)
    requires i < |links|
    ensures AddAll(r, log, StartPulls(r.m, links[i..])) ==
      FollowThen(r, log, StartPull(r.m, links[i]), StartPulls(r.m, links[i + 1..]))
  {
    hide Add;
    assert links[i..][0] == links[i] && links[i..][1..] == links[i + 1..];
    var ps, rest := StartPull(r.m, links[i]), StartPulls(r.m, links[i + 1..]);
    if ps == [] {
      assert ps + rest == rest;
    } else {
      assert ps == [ps[0]];
      AddAllCons(r, log, ps[0], rest);
    }
  }

  lemma LinkStep(r: Rules, log: Log, links: seq<Link>, edges: set<DepEdge>, kind: JobType, i: nat)
    requires i < |links|
    ensures AddAll(r, log, LinkPulls(r.m, links[i..], edges, kind)) ==
      FollowThen(r, log, LinkPull(r.m, links[i], edges, kind), LinkPulls(r.m, links[i + 1..], edges, kind))
  {
    hide Add;
    assert links[i..][0] == links[i] && links[i..][1..] == links[i + 1..];
    var ps, rest := LinkPull(r.m, links[i], edges, kind), LinkPulls(r.m, links[i + 1..], edges, kind);
    if ps == [] {
      assert ps + rest == rest;
    } else {
      assert ps == [ps[0]];
      AddAllCons(r, log, ps[0], rest);
    }
  }

  lemma {:induction false} AddAllAppend(r: Rules, log: Log, a: seq<Pull>, b: seq<Pull>)
    ensures AddAll(r, log, a + b) == var (log', failed) := AddAll(r, log, a);
      if failed.Some? then (log', failed) else AddAll(r, log', b)
    decreases |a|
  {
    hide Pulls;
    if a == [] {
      assert a + b == b;
    } else {
      assert (a + b)[0] == a[0] && (a + b)[1..] == a[1..] + b;
      AddAllAppend(r, Add(r, log, a[0].request).0, a[1..], b);
    }
  }
}
