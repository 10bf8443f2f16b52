/** What expanding a job request means, independently of the builder that does it.

    The state of an expansion is the log of every request made so far, in order. The job a
    unit ends with is a function of the log, and so is everything the builder decides. */
module Expansion {
  import opened Wrappers
  import opened UnitNames
  import opened DepGraphs
  import opened Jobs
  import opened Merging

  /** The read-only view of the manager that a transaction is built against. */
  datatype ManagerView = ManagerView(loaded: set<UnitName>, active: set<UnitName>, allowIsolate: set<UnitName>,
                                     existing: seq<Job>)

  datatype Request = Request(unit: UnitName, kind: JobType)

  /** A request one unit makes of another; a hard one propagates its failure. */
  datatype Pull = Pull(request: Request, hard: bool)

  /** The fixed inputs of an expansion. `expands` is false under `IgnoreDependencies`. */
  datatype Rules = Rules(g: GraphView, m: ManagerView, expands: bool)

  type Log = seq<Request>

  // ----- the pulls of a request, in the order they are followed -----

  /** The pull, if any, that starting a unit makes along one of its outgoing links. */
  function StartPull(m: ManagerView, link: Link): seq<Pull> {
    match link.edge
    case Requires => [Pull(Request(link.unit, Start), true)]
    case BindsTo => [Pull(Request(link.unit, Start), true)]
    case Wants => if link.unit in m.loaded then [Pull(Request(link.unit, Start), false)] else []
    case Upholds => if link.unit in m.loaded then [Pull(Request(link.unit, Start), false)] else []
    case Requisite => [Pull(Request(link.unit, VerifyActive), true)]
    case Conflicts => if link.unit in m.loaded then [Pull(Request(link.unit, Stop), true)] else []
    case _ => []
  }

  function StartPulls(m: ManagerView, links: seq<Link>): seq<Pull> {
    if links == [] then [] else StartPull(m, links[0]) + StartPulls(m, links[1..])
  }

  /** The soft pull of one kind along a link of one of the given edge kinds. */
  function LinkPull(m: ManagerView, link: Link, edges: set<DepEdge>, kind: JobType): seq<Pull> {
    if link.edge in edges && link.unit in m.loaded then [Pull(Request(link.unit, kind), false)] else []
  }

  function LinkPulls(m: ManagerView, links: seq<Link>, edges: set<DepEdge>, kind: JobType): seq<Pull> {
    if links == [] then [] else LinkPull(m, links[0], edges, kind) + LinkPulls(m, links[1..], edges, kind)
  }

  function StopPulls(r: Rules, u: UnitName): seq<Pull> {
    LinkPulls(r.m, r.g.Incoming(u), {BindsTo, PartOf}, Stop) + LinkPulls(r.m, r.g.Outgoing(u), {PropagatesStopTo}, Stop)
  }

  function RestartPulls(r: Rules, u: UnitName): seq<Pull> {
    StartPulls(r.m, r.g.Outgoing(u)) + LinkPulls(r.m, r.g.Incoming(u), {PartOf}, TryRestart)
  }

  /** What the first request for a unit goes on to request. */
  function Pulls(r: Rules, q: Request): seq<Pull> {
    if !r.expands then [] else
    match q.kind
    case Start => StartPulls(r.m, r.g.Outgoing(q.unit))
    case ReloadOrStart => StartPulls(r.m, r.g.Outgoing(q.unit))
    case Restart => RestartPulls(r, q.unit)
    case TryRestart => if q.unit in r.m.active then RestartPulls(r, q.unit) else []
    case Stop => StopPulls(r, q.unit)
    case Reload => LinkPulls(r.m, r.g.Outgoing(q.unit), {PropagatesReloadTo}, Reload)
    case VerifyActive => []
    case Nop => []
  }

  // ----- the log and what it determines -----

  function Units(log: Log): set<UnitName> { set q | q in log :: q.unit }

  /** The units of a log in order of first request. */
  function FirstUnits(log: Log): (us: seq<UnitName>)
    ensures NoDuplicates(us)
    ensures forall u :: u in us <==> u in Units(log)
  {
    if log == [] then [] else
      var n := |log| - 1;
      assert log == log[..n] + [log[n]];
      Insert(FirstUnits(log[..n]), log[n].unit)
  }

  /** The kind a request is recorded with. */
  function Recorded(m: ManagerView, q: Request): JobType {
    if q.unit in m.active then q.kind else q.kind.CollapseForInactive()
  }

  /** The kinds recorded for one unit, in request order. */
  function KindsFor(m: ManagerView, log: Log, u: UnitName): (ks: seq<JobType>)
    ensures ks != [] <==> u in Units(log)
  {
    if log == [] then [] else
      var n := |log| - 1;
      assert log == log[..n] + [log[n]];
      KindsFor(m, log[..n], u) + if log[n].unit == u then [Recorded(m, log[n])] else []
  }

  /** The kind of the job a unit has after the log. */
  function KindOf(m: ManagerView, log: Log, u: UnitName): JobType {
    Fold(KindsFor(m, log, u))
  }

  /** The loaded units not requested yet: the measure that makes expansion terminate. */
  ghost function Remaining(r: Rules, log: Log): nat { |r.m.loaded - Units(log)| }

  lemma RemainingShrinks(r: Rules, log: Log, log': Log)
    requires log <= log'
    ensures Units(log) <= Units(log')
    ensures Remaining(r, log') <= Remaining(r, log)
    ensures (exists u :: u in r.m.loaded && u !in Units(log) && u in Units(log')) ==>
      Remaining(r, log') < Remaining(r, log)
  {
    assert forall q :: q in log ==> q in log';
    var before, after := r.m.loaded - Units(log), r.m.loaded - Units(log');
    assert after <= before;
    SubsetCardinality(after, before);
    if u :| u in r.m.loaded && u !in Units(log) && u in Units(log') {
      SubsetCardinality(after, before - {u});
    }
  }

  lemma {:induction false} SubsetCardinality<T>(a: set<T>, b: set<T>)
    requires a <= b
    ensures |a| <= |b|
  {
    if a != {} {
      var x :| x in a;
      SubsetCardinality(a - {x}, b - {x});
    }
  }

  // ----- expansion -----

  /** Requests `q`: it fails on a unit that is not loaded, is merely recorded if the unit was
      requested before, and otherwise is recorded and expanded. The second component names
      the unit whose absence made it fail, if it failed. */
  function Add(r: Rules, log: Log, q: Request): (res: (Log, Option<UnitName>))
    ensures log <= res.0
    decreases Remaining(r, log), 0
  {
    if q.unit !in r.m.loaded then (log, Some(q.unit))
    else if q.unit in Units(log) then (log + [q], None)
    else
      assert q in log + [q];
      RemainingShrinks(r, log, log + [q]);
      AddAll(r, log + [q], Pulls(r, q))
  }

  /** Follows pulls in order; a failed soft pull is swallowed, a failed hard pull ends it. */
  function AddAll(r: Rules, log: Log, ps: seq<Pull>): (res: (Log, Option<UnitName>))
    ensures log <= res.0
    decreases Remaining(r, log), 1 + |ps|
  {
    if ps == [] then (log, None) else
      var (log', failed) := Add(r, log, ps[0].request);
      RemainingShrinks(r, log, log');
      if failed.Some? && ps[0].hard then (log', failed) else AddAll(r, log', ps[1..])
  }
}
