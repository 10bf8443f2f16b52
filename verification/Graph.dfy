/** The dependency graph: a typed multigraph stored as mirrored forward and
    reverse adjacency lists. */
module DepGraphs {
  import opened Wrappers
  import opened UnitNames

  datatype DepEdge =
    | Wants | Requires | Requisite | BindsTo | PartOf | Upholds
    | After | Before | Conflicts | OnFailure | OnSuccess
    | PropagatesReloadTo | PropagatesStopTo

  /** One adjacency entry: the edge kind as declared and the unit at the far end. */
  datatype Link = Link(edge: DepEdge, unit: UnitName)

  type Adjacency = map<UnitName, seq<Link>>

  function LinksOf(a: Adjacency, u: UnitName): seq<Link> {
    if u in a then a[u] else []
  }

  /** An immutable reading of a graph; everything proved about graphs is stated on it. */
  datatype GraphView = GraphView(forward: Adjacency, reverse: Adjacency, nodes: seq<UnitName>,
                                 ignoreOnIsolate: set<UnitName>)
  {
    function Outgoing(u: UnitName): seq<Link> { LinksOf(forward, u) }

    function Incoming(u: UnitName): seq<Link> { LinksOf(reverse, u) }

    /** `a` declares an edge of kind `k` towards `b`. */
    predicate HasEdge(a: UnitName, k: DepEdge, b: UnitName) { Link(k, b) in Outgoing(a) }

    /** The same edge as seen from `b`. */
    predicate HasMirror(a: UnitName, k: DepEdge, b: UnitName) { Link(k, a) in Incoming(b) }

    ghost function Edges(): iset<Edge> { iset e: Edge | HasEdge(e.0, e.1, e.2) }

    /** The representation invariant: the reverse lists are the exact mirror of the
        forward lists, no list repeats an entry, and every endpoint is a node. */
    ghost predicate Valid() {
      && (forall a, k, b :: HasEdge(a, k, b) <==> HasMirror(a, k, b))
      && (forall u :: NoDuplicates(Outgoing(u)))
      && (forall u :: NoDuplicates(Incoming(u)))
      && NoDuplicates(nodes)
      && (forall a, k, b :: HasEdge(a, k, b) ==> a in nodes && b in nodes)
    }

    /** The view after one more edge: each side appends its entry unless it has it. */
    function WithEdge(from: UnitName, kind: DepEdge, to: UnitName): GraphView {
      GraphView(forward[from := Insert(Outgoing(from), Link(kind, to))],
                reverse[to := Insert(Incoming(to), Link(kind, from))],
                Insert(Insert(nodes, from), to), ignoreOnIsolate)
    }

    lemma WithEdgeValid(from: UnitName, kind: DepEdge, to: UnitName)
      requires Valid()
      ensures WithEdge(from, kind, to).Valid()
      ensures WithEdge(from, kind, to).Edges() == Edges() + iset{(from, kind, to)}
    {
      hide WithEdge, HasEdge, HasMirror, Outgoing, Incoming, NoDuplicates;
      var v := WithEdge(from, kind, to);
      forall a, k, b
        ensures v.HasEdge(a, k, b) <==> HasEdge(a, k, b) || (a == from && k == kind && b == to)
        ensures v.HasMirror(a, k, b) <==> HasMirror(a, k, b) || (a == from && k == kind && b == to)
      {
        WithEdgeHas(from, kind, to, a, k, b);
      }
      forall u
        ensures NoDuplicates(v.Outgoing(u)) && NoDuplicates(v.Incoming(u))
      {
        WithEdgeLinks(from, kind, to, u);
      }
      WithEdgeNodes(from, kind, to);
    }

    lemma WithEdgeHas(from: UnitName, kind: DepEdge, to: UnitName, a: UnitName, k: DepEdge, b: UnitName)
      ensures WithEdge(from, kind, to).HasEdge(a, k, b) <==> HasEdge(a, k, b) || (a == from && k == kind && b == to)
      ensures WithEdge(from, kind, to).HasMirror(a, k, b) <==> HasMirror(a, k, b) || (a == from && k == kind && b == to)
    {
      hide Insert;
    }

    lemma WithEdgeLinks(from: UnitName, kind: DepEdge, to: UnitName, u: UnitName)
      requires NoDuplicates(Outgoing(u)) && NoDuplicates(Incoming(u))
      ensures NoDuplicates(WithEdge(from, kind, to).Outgoing(u)) && NoDuplicates(WithEdge(from, kind, to).Incoming(u))
    {
      hide Insert, NoDuplicates;
    }

    lemma WithEdgeNodes(from: UnitName, kind: DepEdge, to: UnitName)
      requires NoDuplicates(nodes)
      ensures NoDuplicates(WithEdge(from, kind, to).nodes)
      ensures forall u :: u in WithEdge(from, kind, to).nodes <==> u in nodes || u == from || u == to
    {
      hide NoDuplicates, Insert;
    }

    lemma MarkedIsValid(v: GraphView)
      requires Valid() && v == this.(ignoreOnIsolate := v.ignoreOnIsolate)
      ensures v.Valid() && v.Edges() == Edges()
    {
      assert forall u :: v.Outgoing(u) == Outgoing(u) && v.Incoming(u) == Incoming(u);
      assert forall a, k, b :: v.HasEdge(a, k, b) == HasEdge(a, k, b) && v.HasMirror(a, k, b) == HasMirror(a, k, b);
    }
  }

  type Edge = (UnitName, DepEdge, UnitName)

  /** The graph with more edges, inserted in order. */
  function WithAll(g: GraphView, edges: seq<Edge>): GraphView {
    if edges == [] then g else
      var n := |edges| - 1;
      WithAll(g, edges[..n]).WithEdge(edges[n].0, edges[n].1, edges[n].2)
  }

  lemma NothingAdded(g: GraphView)
    ensures WithAll(g, []) == g
  {
  }

  lemma WithAllSnoc(g: GraphView, a: seq<Edge>, e: Edge)
    ensures WithAll(g, a).WithEdge(e.0, e.1, e.2) == WithAll(g, a + [e])
  {
    hide GraphView.WithEdge;
    assert (a + [e])[..|a|] == a;
  }

  lemma {:induction false} WithAllAppend(g: GraphView, a: seq<Edge>, b: seq<Edge>)
    ensures WithAll(WithAll(g, a), b) == WithAll(g, a + b)
  {
    hide GraphView.WithEdge;
    if b == [] {
      assert a + b == a;
    } else {
      assert (a + b)[..|a + b| - 1] == a + b[..|b| - 1];
      WithAllAppend(g, a, b[..|b| - 1]);
    }
  }

  /** Adding edges keeps a graph well-formed, and adds exactly those edges and their ends. */
  lemma {:induction false} WithAllGrows(g: GraphView, edges: seq<Edge>)
    requires g.Valid()
    ensures var v := WithAll(g, edges);
      && v.Valid() && v.ignoreOnIsolate == g.ignoreOnIsolate
      && (forall a, k, b :: v.HasEdge(a, k, b) <==> g.HasEdge(a, k, b) || (a, k, b) in edges)
      && (forall n :: n in v.nodes <==> n in g.nodes || EndOf(edges, n))
  {
    hide WithAll, GraphView.Valid, GraphView.WithEdge, GraphView.HasEdge, EndOf;
    if edges == [] {
      NothingAdded(g);
      NoEnds(edges);
    } else {
      var n := |edges| - 1;
      var e := edges[n];
      assert edges == edges[..n] + [e];
      WithAllGrows(g, edges[..n]);
      WithAllSnoc(g, edges[..n], e);
      OneMoreEdge(WithAll(g, edges[..n]), e);
      EndOfSnoc(edges[..n], e);
    }
  }

  lemma OneMoreEdge(g: GraphView, e: Edge)
    requires g.Valid()
    ensures var v := g.WithEdge(e.0, e.1, e.2);
      && v.Valid() && v.ignoreOnIsolate == g.ignoreOnIsolate
      && (forall a, k, b :: v.HasEdge(a, k, b) <==> g.HasEdge(a, k, b) || (a, k, b) == e)
      && (forall n :: n in v.nodes <==> n in g.nodes || n == e.0 || n == e.2)
  {
    hide GraphView.Valid, GraphView.HasEdge;
    g.WithEdgeValid(e.0, e.1, e.2);
    var v := g.WithEdge(e.0, e.1, e.2);
    hide GraphView.WithEdge;
    forall a, k, b ensures v.HasEdge(a, k, b) <==> g.HasEdge(a, k, b) || (a, k, b) == e {
      assert (a, k, b) in v.Edges() <==> (a, k, b) in g.Edges() || (a, k, b) == e;
    }
  }

  /** The unit is at one end of some of the edges. */
  ghost predicate EndOf(edges: seq<Edge>, n: UnitName) {
    exists e :: e in edges && (e.0 == n || e.2 == n)
  }

  lemma NoEnds(edges: seq<Edge>)
    requires edges == []
    ensures forall n :: !EndOf(edges, n)
  {
  }

  lemma EndOfSnoc(edges: seq<Edge>, e: Edge)
    ensures forall n :: EndOf(edges + [e], n) <==> EndOf(edges, n) || n == e.0 || n == e.2
  {
    var all := edges + [e];
    assert all[|edges|] == e && e in all && forall x :: x in edges ==> x in all;
    assert forall x :: x in all ==> x in edges || x == e;
  }

  /** The links that a list of edges adds to those `u` has, in order of first mention. */
  function LinksFrom(links: seq<Link>, edges: seq<Edge>, u: UnitName): seq<Link> {
    if edges == [] then links else
      var n := |edges| - 1;
      var before := LinksFrom(links, edges[..n], u);
      if edges[n].0 == u then Insert(before, Link(edges[n].1, edges[n].2)) else before
  }

  /** The same on the receiving side. */
  function LinksTo(links: seq<Link>, edges: seq<Edge>, u: UnitName): seq<Link> {
    if edges == [] then links else
      var n := |edges| - 1;
      var before := LinksTo(links, edges[..n], u);
      if edges[n].2 == u then Insert(before, Link(edges[n].1, edges[n].0)) else before
  }

  lemma {:induction false} WithAllLinks(g: GraphView, edges: seq<Edge>, u: UnitName)
    ensures WithAll(g, edges).Outgoing(u) == LinksFrom(g.Outgoing(u), edges, u)
    ensures WithAll(g, edges).Incoming(u) == LinksTo(g.Incoming(u), edges, u)
  {
    hide Insert;
    if edges != [] {
      WithAllLinks(g, edges[..|edges| - 1], u);
    }
  }

  /** Marking a unit and adding edges do not interfere. */
  lemma {:induction false} WithAllMarked(g: GraphView, edges: seq<Edge>, marks: set<UnitName>)
    ensures WithAll(g.(ignoreOnIsolate := marks), edges) == WithAll(g, edges).(ignoreOnIsolate := marks)
  {
    hide Insert;
    if edges != [] {
      WithAllMarked(g, edges[..|edges| - 1], marks);
    }
  }

  /** The graph built from a list of edges. */
  function GraphOf(edges: seq<Edge>): GraphView { WithAll(GraphView(map[], map[], [], {}), edges) }

  lemma GraphOfHas(edges: seq<Edge>)
    ensures GraphOf(edges).Valid() && forall a, k, b :: GraphOf(edges).HasEdge(a, k, b) <==> (a, k, b) in edges
  {
    var g := GraphView(map[], map[], [], {});
    EmptyIsValid(g);
    hide GraphView.Valid, GraphView.HasEdge, WithAll;
    WithAllGrows(g, edges);
  }

  lemma EmptyIsValid(g: GraphView)
    requires g.forward == map[] && g.reverse == map[] && NoDuplicates(g.nodes)
    ensures g.Valid() && forall a, k, b :: !g.HasEdge(a, k, b)
  {
    assert forall u :: g.Outgoing(u) == [] && g.Incoming(u) == [];
  }

  /** What the graph reads of a unit's `[Unit]` and `[Install]` sections. */
  datatype UnitDeps = UnitDeps(wants: seq<UnitName>, required: seq<UnitName>, requisite: seq<UnitName>,
                               bindsTo: seq<UnitName>, partOf: seq<UnitName>, upholds: seq<UnitName>,
                               conflicts: seq<UnitName>, onFailure: seq<UnitName>, onSuccess: seq<UnitName>,
                               propagatesReloadTo: seq<UnitName>, propagatesStopTo: seq<UnitName>,
                               after: seq<UnitName>, before: seq<UnitName>)

  datatype Install = Install(wantedBy: seq<UnitName>, requiredBy: seq<UnitName>, upheldBy: seq<UnitName>)

  /** The type-specific data: a timer, path or socket may name the unit it activates. */
  datatype UnitTypeData =
    | TimerData(unit: Option<UnitName>)
    | PathData(unit: Option<UnitName>)
    | SocketData(service: Option<UnitName>)
    | OtherData

  datatype Unit = Unit(deps: UnitDeps, install: Install, defaultDependencies: bool,
                       ignoreOnIsolate: bool, kind: UnitTypeData)

  /** The unit a timer, path or socket activates, if it names one. */
  function ActivationTarget(unit: Unit): Option<UnitName> {
    match unit.kind
    case TimerData(t) => t
    case PathData(t) => t
    case SocketData(t) => t
    case OtherData => None
  }

  /** The targets a unit lists under the directive that declares edge kind `k`. */
  function Listed(d: UnitDeps, k: DepEdge): seq<UnitName> {
    match k
    case Wants => d.wants
    case Requires => d.required
    case Requisite => d.requisite
    case BindsTo => d.bindsTo
    case PartOf => d.partOf
    case Upholds => d.upholds
    case After => d.after
    case Before => d.before
    case Conflicts => d.conflicts
    case OnFailure => d.onFailure
    case OnSuccess => d.onSuccess
    case PropagatesReloadTo => d.propagatesReloadTo
    case PropagatesStopTo => d.propagatesStopTo
  }

  /** The units whose `[Install]` reverse directive for edge kind `k` names someone. */
  function ListedInstall(i: Install, k: DepEdge): seq<UnitName> {
    match k
    case Wants => i.wantedBy
    case Requires => i.requiredBy
    case Upholds => i.upheldBy
    case _ => []
  }

  /** Edge `a -k-> b` follows from the declarations of the unit `src` alone. */
  predicate DeclaredBy(src: UnitName, unit: Unit, a: UnitName, k: DepEdge, b: UnitName) {
    || (a == src && b in Listed(unit.deps, k))
    || (b == src && unit.defaultDependencies && a in ListedInstall(unit.install, k))
    || (a == src && (k == Wants || k == Before) && ActivationTarget(unit) == Some(b))
  }

  ghost predicate DeclaredBySome(units: seq<(UnitName, Unit)>, e: Edge) {
    exists i :: 0 <= i < |units| && DeclaredBy(units[i].0, units[i].1, e.0, e.1, e.2)
  }

  /** The edges some unit of the snapshot declares. */
  ghost function AllDeclared(units: seq<(UnitName, Unit)>): iset<Edge> {
    iset e: Edge | DeclaredBySome(units, e)
  }

  /** The snapshot has a unit of that name. */
  ghost predicate Named(units: seq<(UnitName, Unit)>, n: UnitName) {
    exists i :: 0 <= i < |units| && units[i].0 == n
  }

  /** The unit is at one end of an edge that the snapshot declares. */
  ghost predicate Linked(units: seq<(UnitName, Unit)>, n: UnitName) {
    exists e :: DeclaredBySome(units, e) && (e.0 == n || e.2 == n)
  }

  // ----- the same edges as lists, in the order the graph inserts them -----

  function To(src: UnitName, kind: DepEdge, targets: seq<UnitName>): (es: seq<Edge>)
    ensures |es| == |targets| && forall i :: 0 <= i < |targets| ==> es[i] == (src, kind, targets[i])
  {
    seq(|targets|, i requires 0 <= i < |targets| => (src, kind, targets[i]))
  }

  function From(sources: seq<UnitName>, kind: DepEdge, src: UnitName): (es: seq<Edge>)
    ensures |es| == |sources| && forall i :: 0 <= i < |sources| ==> es[i] == (sources[i], kind, src)
  {
    seq(|sources|, i requires 0 <= i < |sources| => (sources[i], kind, src))
  }

  lemma InTo(src: UnitName, kind: DepEdge, targets: seq<UnitName>, e: Edge)
    ensures e in To(src, kind, targets) <==> e.0 == src && e.1 == kind && e.2 in targets
  {
    if e.0 == src && e.1 == kind && e.2 in targets {
      var i :| 0 <= i < |targets| && targets[i] == e.2;
      assert To(src, kind, targets)[i] == e;
    }
  }

  lemma InFrom(sources: seq<UnitName>, kind: DepEdge, src: UnitName, e: Edge)
    ensures e in From(sources, kind, src) <==> e.0 in sources && e.1 == kind && e.2 == src
  {
    if e.0 in sources && e.1 == kind && e.2 == src {
      var i :| 0 <= i < |sources| && sources[i] == e.0;
      assert From(sources, kind, src)[i] == e;
    }
  }

  /** The `[Unit]` directives, ordering last. */
  function DirectiveList(src: UnitName, d: UnitDeps): seq<Edge> {
    PullList(src, d)
    + To(src, Conflicts, d.conflicts) + To(src, OnFailure, d.onFailure) + To(src, OnSuccess, d.onSuccess)
    + To(src, PropagatesReloadTo, d.propagatesReloadTo) + To(src, PropagatesStopTo, d.propagatesStopTo)
    + To(src, After, d.after) + To(src, Before, d.before)
  }

  function PullList(src: UnitName, d: UnitDeps): seq<Edge> {
    To(src, Wants, d.wants) + To(src, Requires, d.required) + To(src, Requisite, d.requisite)
    + To(src, BindsTo, d.bindsTo) + To(src, PartOf, d.partOf) + To(src, Upholds, d.upholds)
  }

  /** The `[Install]` directives, if default dependencies are on. */
  function InstallList(src: UnitName, unit: Unit): seq<Edge> {
    if !unit.defaultDependencies then [] else
      From(unit.install.wantedBy, Wants, src) + From(unit.install.requiredBy, Requires, src)
      + From(unit.install.upheldBy, Upholds, src)
  }

  /** What the unit's type implies. */
  function ImplicitList(src: UnitName, unit: Unit): seq<Edge> {
    match ActivationTarget(unit)
    case None => []
    case Some(t) => [(src, Wants, t), (src, Before, t)]
  }

  function UnitList(src: UnitName, unit: Unit): seq<Edge> {
    DirectiveList(src, unit.deps) + InstallList(src, unit) + ImplicitList(src, unit)
  }

  /** Unit after unit, in the order of the snapshot. */
  function SnapshotList(units: seq<(UnitName, Unit)>): seq<Edge> {
    if units == [] then [] else
      var n := |units| - 1;
      SnapshotList(units[..n]) + UnitList(units[n].0, units[n].1)
  }

  /** The units themselves are nodes before any edge is inserted. */
  function Seeds(units: seq<(UnitName, Unit)>): seq<UnitName> {
    if units == [] then [] else
      var n := |units| - 1;
      Insert(Seeds(units[..n]), units[n].0)
  }

  lemma InDirectiveList(src: UnitName, d: UnitDeps, e: Edge)
    ensures e in DirectiveList(src, d) <==> e.0 == src && e.2 in Listed(d, e.1)
  {
    hide To;
    InTo(src, Wants, d.wants, e);
    InTo(src, Requires, d.required, e);
    InTo(src, Requisite, d.requisite, e);
    InTo(src, BindsTo, d.bindsTo, e);
    InTo(src, PartOf, d.partOf, e);
    InTo(src, Upholds, d.upholds, e);
    InTo(src, Conflicts, d.conflicts, e);
    InTo(src, OnFailure, d.onFailure, e);
    InTo(src, OnSuccess, d.onSuccess, e);
    InTo(src, PropagatesReloadTo, d.propagatesReloadTo, e);
    InTo(src, PropagatesStopTo, d.propagatesStopTo, e);
    InTo(src, After, d.after, e);
    InTo(src, Before, d.before, e);
  }

  lemma InUnitList(src: UnitName, unit: Unit, e: Edge)
    ensures e in UnitList(src, unit) <==> DeclaredBy(src, unit, e.0, e.1, e.2)
  {
    hide To, From, DirectiveList, Listed;
    InDirectiveList(src, unit.deps, e);
    InFrom(unit.install.wantedBy, Wants, src, e);
    InFrom(unit.install.requiredBy, Requires, src, e);
    InFrom(unit.install.upheldBy, Upholds, src, e);
  }

  lemma {:induction false} InSnapshotList(units: seq<(UnitName, Unit)>, e: Edge)
    ensures e in SnapshotList(units) <==> DeclaredBySome(units, e)
  {
    hide UnitList, DeclaredBy;
    if units != [] {
      var n := |units| - 1;
      assert units[..n] + [units[n]] == units;
      InSnapshotList(units[..n], e);
      InUnitList(units[n].0, units[n].1, e);
      assert forall i :: 0 <= i < n ==> units[..n][i] == units[i];
    }
  }

  lemma {:induction false} SeedsAreNamed(units: seq<(UnitName, Unit)>)
    ensures NoDuplicates(Seeds(units)) && forall n :: n in Seeds(units) <==> Named(units, n)
  {
    if units != [] {
      var n := |units| - 1;
      assert units[..n] + [units[n]] == units;
      SeedsAreNamed(units[..n]);
      assert forall i :: 0 <= i < n ==> units[..n][i] == units[i];
    }
  }

  /** The directives in the order the graph walks them. */
  const DIRECTIVE_ORDER: seq<DepEdge> :=
    [Wants, Requires, Requisite, BindsTo, PartOf, Upholds, Conflicts, OnFailure, OnSuccess,
     PropagatesReloadTo, PropagatesStopTo, After, Before]

  function DirectivesUpTo(src: UnitName, d: UnitDeps, n: nat): seq<Edge>
    requires n <= |DIRECTIVE_ORDER|
  {
    if n == 0 then [] else
      DirectivesUpTo(src, d, n - 1) + To(src, DIRECTIVE_ORDER[n - 1], Listed(d, DIRECTIVE_ORDER[n - 1]))
  }

  lemma DirectivesInOrder(src: UnitName, d: UnitDeps)
    ensures DirectivesUpTo(src, d, |DIRECTIVE_ORDER|) == DirectiveList(src, d)
  {
    hide To, DirectivesUpTo, PullList;
    PullsInOrder(src, d);
    NextDirective(src, d, 7, Conflicts);
    NextDirective(src, d, 8, OnFailure);
    NextDirective(src, d, 9, OnSuccess);
    NextDirective(src, d, 10, PropagatesReloadTo);
    NextDirective(src, d, 11, PropagatesStopTo);
    NextDirective(src, d, 12, After);
    NextDirective(src, d, 13, Before);
  }

  lemma PullsInOrder(src: UnitName, d: UnitDeps)
    ensures DirectivesUpTo(src, d, 6) == PullList(src, d)
  {
    hide To, DirectivesUpTo;
    NoDirectives(src, d);
    NextDirective(src, d, 1, Wants);
    NextDirective(src, d, 2, Requires);
    NextDirective(src, d, 3, Requisite);
    NextDirective(src, d, 4, BindsTo);
    NextDirective(src, d, 5, PartOf);
    NextDirective(src, d, 6, Upholds);
    assert [] + To(src, Wants, d.wants) == To(src, Wants, d.wants);
  }

  lemma NoDirectives(src: UnitName, d: UnitDeps)
    ensures DirectivesUpTo(src, d, 0) == []
  {
  }

  lemma NextDirective(src: UnitName, d: UnitDeps, n: nat, k: DepEdge)
    requires 1 <= n <= |DIRECTIVE_ORDER| && DIRECTIVE_ORDER[n - 1] == k
    ensures DirectivesUpTo(src, d, n) == DirectivesUpTo(src, d, n - 1) + To(src, k, Listed(d, k))
  {
  }

  class DepGraph {
    var forward: Adjacency
    var reverse: Adjacency
    var nodes: seq<UnitName>
    var ignoreOnIsolate: set<UnitName>

    ghost function View(): GraphView
      reads this
    {
      GraphView(forward, reverse, nodes, ignoreOnIsolate)
    }

    /** An empty graph. */
    constructor ()
      ensures View() == GraphView(map[], map[], [], {})
      ensures View().Valid()
    {
      forward, reverse, nodes, ignoreOnIsolate := map[], map[], [], {};
    }

    /** Adds one directed edge, dropping duplicates on each side separately. */
    method AddEdge(from: UnitName, kind: DepEdge, to: UnitName)
      modifies this
      ensures View() == old(View()).WithEdge(from, kind, to)
    {
      nodes := Insert(nodes, from);
      nodes := Insert(nodes, to);
      var f := LinksOf(forward, from);
      if Link(kind, to) !in f {
        f := f + [Link(kind, to)];
      }
      forward := forward[from := f];
      var r := LinksOf(reverse, to);
      if Link(kind, from) !in r {
        r := r + [Link(kind, from)];
      }
      reverse := reverse[to := r];
    }

    /** One `for t in targets` block: an edge of the given kind from `src` to each target. */
    method AddEdges(src: UnitName, kind: DepEdge, targets: seq<UnitName>)
      modifies this
      ensures View() == WithAll(old(View()), To(src, kind, targets))
    {
      hide GraphView.WithEdge;
      for i := 0 to |targets|
        invariant View() == WithAll(old(View()), To(src, kind, targets[..i]))
      {
        AddEdge(src, kind, targets[i]);
        WithAllSnoc(old(View()), To(src, kind, targets[..i]), (src, kind, targets[i]));
        assert To(src, kind, targets[..i + 1]) == To(src, kind, targets[..i]) + [(src, kind, targets[i])];
      }
      assert targets[..|targets|] == targets;
    }

    /** The same for a reverse directive: an edge from each listed unit to `src`. */
    method AddReverseEdges(src: UnitName, kind: DepEdge, sources: seq<UnitName>)
      modifies this
      ensures View() == WithAll(old(View()), From(sources, kind, src))
    {
      hide GraphView.WithEdge;
      for i := 0 to |sources|
        invariant View() == WithAll(old(View()), From(sources[..i], kind, src))
      {
        AddEdge(sources[i], kind, src);
        WithAllSnoc(old(View()), From(sources[..i], kind, src), (sources[i], kind, src));
        assert From(sources[..i + 1], kind, src) == From(sources[..i], kind, src) + [(sources[i], kind, src)];
      }
      assert sources[..|sources|] == sources;
    }

    /** Every `[Unit]` directive becomes forward edges, ordering ones included as declared. */
    method AddUnitEdges(src: UnitName, unit: Unit)
      modifies this
      ensures View() == WithAll(old(View()), DirectiveList(src, unit.deps))
    {
      hide WithAll, To, Listed;
      NothingAdded(View());
      for i := 0 to |DIRECTIVE_ORDER|
        invariant View() == WithAll(old(View()), DirectivesUpTo(src, unit.deps, i))
      {
        var targets := Listed(unit.deps, DIRECTIVE_ORDER[i]);
        AddEdges(src, DIRECTIVE_ORDER[i], targets);
        WithAllAppend(old(View()), DirectivesUpTo(src, unit.deps, i), To(src, DIRECTIVE_ORDER[i], targets));
      }
      DirectivesInOrder(src, unit.deps);
    }

    /** `WantedBy=foo` on `bar` becomes `foo Wants bar`, if default dependencies are on. */
    method AddInstallReverseEdges(src: UnitName, unit: Unit)
      modifies this
      ensures View() == WithAll(old(View()), InstallList(src, unit))
    {
      hide WithAll, From;
      NothingAdded(View());
      if !unit.defaultDependencies {
        return;
      }
      var i := unit.install;
      WithAllAppend(View(), From(i.wantedBy, Wants, src), From(i.requiredBy, Requires, src));
      WithAllAppend(View(), From(i.wantedBy, Wants, src) + From(i.requiredBy, Requires, src),
        From(i.upheldBy, Upholds, src));
      AddReverseEdges(src, Wants, unit.install.wantedBy);
      AddReverseEdges(src, Requires, unit.install.requiredBy);
      AddReverseEdges(src, Upholds, unit.install.upheldBy);
    }

    /** A timer, path or socket wants and precedes the unit it activates. */
    method AddImplicitEdges(src: UnitName, unit: Unit)
      modifies this
      ensures View() == WithAll(old(View()), ImplicitList(src, unit))
    {
      hide WithAll, GraphView.WithEdge;
      NothingAdded(View());
      var target := ActivationTarget(unit);
      if target.Some? {
        WithAllSnoc(View(), [], (src, Wants, target.value));
        WithAllSnoc(View(), [(src, Wants, target.value)], (src, Before, target.value));
        assert [] + [(src, Wants, target.value)] == [(src, Wants, target.value)];
        assert [(src, Wants, target.value)] + [(src, Before, target.value)] == ImplicitList(src, unit);
      }
      match unit.kind {
        case TimerData(Some(target)) =>
          AddEdge(src, Wants, target);
          AddEdge(src, Before, target);
        case PathData(Some(target)) =>
          AddEdge(src, Wants, target);
          AddEdge(src, Before, target);
        case SocketData(Some(target)) =>
          AddEdge(src, Wants, target);
          AddEdge(src, Before, target);
        case _ =>
      }
    }

    /** The body of the per-unit loop of `Build`. */
    method AddUnit(name: UnitName, unit: Unit)
      modifies this
      ensures ignoreOnIsolate == old(ignoreOnIsolate) + if unit.ignoreOnIsolate then {name} else {}
      ensures View() == WithAll(old(View()).(ignoreOnIsolate := ignoreOnIsolate), UnitList(name, unit))
    {
      hide WithAll, DirectiveList, InstallList, ImplicitList;
      ghost var marked := View().(ignoreOnIsolate := ignoreOnIsolate + if unit.ignoreOnIsolate then {name} else {});
      if unit.ignoreOnIsolate {
        ignoreOnIsolate := ignoreOnIsolate + {name};
      }
      assert View() == marked by {
        assert marked.ignoreOnIsolate == ignoreOnIsolate;
      }
      AddUnitEdges(name, unit);
      AddInstallReverseEdges(name, unit);
      AddImplicitEdges(name, unit);
      WithAllAppend(marked, DirectiveList(name, unit.deps), InstallList(name, unit));
      WithAllAppend(marked, DirectiveList(name, unit.deps) + InstallList(name, unit), ImplicitList(name, unit));
      WithAllMarked(marked, UnitList(name, unit), marked.ignoreOnIsolate);
    }

    /** Builds the graph of a snapshot: its edges are exactly the declared ones, each unit has its
        links in the order of their declaration, and units come before names merely mentioned. */
    constructor Build(units: seq<(UnitName, Unit)>)
      ensures View().Valid()
      ensures View().Edges() == AllDeclared(units)
      ensures forall n :: n in nodes <==> Named(units, n) || Linked(units, n)
      ensures forall n :: n in ignoreOnIsolate <==>
        exists i :: 0 <= i < |units| && units[i].0 == n && units[i].1.ignoreOnIsolate
      ensures forall u :: View().Outgoing(u) == LinksFrom([], SnapshotList(units), u)
      ensures forall u :: View().Incoming(u) == LinksTo([], SnapshotList(units), u)
      ensures Seeds(units) <= nodes
    {
      forward, reverse, nodes, ignoreOnIsolate := map[], map[], [], {};
      new;
      hide WithAll, GraphView.Valid, GraphView.Edges, UnitList, LinksFrom, LinksTo, AllDeclared, Named, Linked;
      for i := 0 to |units|
        invariant forward == map[] && reverse == map[] && ignoreOnIsolate == {}
        invariant nodes == Seeds(units[..i])
      {
        assert units[..i + 1][..i] == units[..i];
        nodes := Insert(nodes, units[i].0);
      }
      assert units[..|units|] == units;
      ghost var seeded := View();
      NothingAdded(seeded);
      for i := 0 to |units|
        invariant View() == WithAll(seeded, SnapshotList(units[..i])).(ignoreOnIsolate := ignoreOnIsolate)
        invariant forall n :: n in ignoreOnIsolate <==>
          exists j :: 0 <= j < i && units[j].0 == n && units[j].1.ignoreOnIsolate
      {
        var (name, unit) := units[i];
        ghost var before := WithAll(seeded, SnapshotList(units[..i]));
        AddUnit(name, unit);
        assert units[..i + 1][..i] == units[..i];
        WithAllMarked(before, UnitList(name, unit), ignoreOnIsolate);
        WithAllAppend(seeded, SnapshotList(units[..i]), UnitList(name, unit));
      }
      SnapshotGraph(units, seeded, View());
    }
  }

  /** Inserting a snapshot's list of edges gives the declared edges, each list in order. */
  lemma SnapshotGraph(units: seq<(UnitName, Unit)>, seeded: GraphView, g: GraphView)
    requires seeded == GraphView(map[], map[], Seeds(units), {})
    requires g == WithAll(seeded, SnapshotList(units)).(ignoreOnIsolate := g.ignoreOnIsolate)
    ensures g.Valid() && g.Edges() == AllDeclared(units)
    ensures forall n :: n in g.nodes <==> Named(units, n) || Linked(units, n)
    ensures forall u :: g.Outgoing(u) == LinksFrom([], SnapshotList(units), u)
    ensures forall u :: g.Incoming(u) == LinksTo([], SnapshotList(units), u)
    ensures Seeds(units) <= g.nodes
  {
    hide GraphView.Valid, WithAll, DeclaredBySome, LinksFrom, LinksTo, Seeds, SnapshotList;
    var es := SnapshotList(units);
    var v := WithAll(seeded, es);
    SeedsAreNamed(units);
    EmptyIsValid(seeded);
    WithAllGrows(seeded, es);
    v.MarkedIsValid(g);
    forall e ensures e in es <==> DeclaredBySome(units, e) {
      InSnapshotList(units, e);
    }
    forall e: Edge ensures e in g.Edges() <==> e in AllDeclared(units) {
      assert v.HasEdge(e.0, e.1, e.2) <==> (e.0, e.1, e.2) in es;
    }
    forall u ensures g.Outgoing(u) == LinksFrom([], es, u) && g.Incoming(u) == LinksTo([], es, u) {
      WithAllLinks(seeded, es, u);
    }
    NodesGrow(seeded, es);
  }

  /** Distinct edges of one unit become its links in the same order. */
  lemma {:induction false} DistinctLinks(es: seq<Edge>, u: UnitName)
    requires NoDuplicates(es) && forall i :: 0 <= i < |es| ==> es[i].0 == u
    ensures LinksFrom([], es, u) == seq(|es|, i requires 0 <= i < |es| => Link(es[i].1, es[i].2))
  {
    if es != [] {
      var n := |es| - 1;
      DistinctLinks(es[..n], u);
      forall i | 0 <= i < n ensures Link(es[i].1, es[i].2) != Link(es[n].1, es[n].2) {
        assert es[i] == (u, es[i].1, es[i].2) && es[n] == (u, es[n].1, es[n].2);
      }
    }
  }

  /** A unit that names one unit under each directive gets these links, in this order. */
  lemma DirectivesBecomeLinks(u: UnitName, t: UnitDeps, w: UnitName, r: UnitName, rq: UnitName, bt: UnitName,
                              po: UnitName, up: UnitName, c: UnitName, of: UnitName, os: UnitName, pr: UnitName,
                              ps: UnitName, a: UnitName, b: UnitName)
    requires t.wants == [w] && t.required == [r] && t.requisite == [rq] && t.bindsTo == [bt] && t.partOf == [po]
    requires t.upholds == [up] && t.conflicts == [c] && t.onFailure == [of] && t.onSuccess == [os]
    requires t.propagatesReloadTo == [pr] && t.propagatesStopTo == [ps] && t.after == [a] && t.before == [b]
    ensures LinksFrom([], DirectiveList(u, t), u) ==
      [Link(Wants, w), Link(Requires, r), Link(Requisite, rq), Link(BindsTo, bt), Link(PartOf, po), Link(Upholds, up),
       Link(Conflicts, c), Link(OnFailure, of), Link(OnSuccess, os), Link(PropagatesReloadTo, pr),
       Link(PropagatesStopTo, ps), Link(After, a), Link(Before, b)]
  {
    hide LinksFrom;
    var es := DirectiveList(u, t);
    assert es == [(u, Wants, w), (u, Requires, r), (u, Requisite, rq), (u, BindsTo, bt), (u, PartOf, po),
                  (u, Upholds, up), (u, Conflicts, c), (u, OnFailure, of), (u, OnSuccess, os),
                  (u, PropagatesReloadTo, pr),
                  (u, PropagatesStopTo, ps), (u, After, a), (u, Before, b)];
    hide DirectiveList, To, NoDuplicates;
    DistinctKinds(es);
    DistinctLinks(es, u);
  }

  lemma DistinctKinds(es: seq<Edge>)
    requires |es| == |DIRECTIVE_ORDER| && forall i :: 0 <= i < |es| ==> es[i].1 == DIRECTIVE_ORDER[i]
    ensures NoDuplicates(es)
  {
    assert NoDuplicates(DIRECTIVE_ORDER);
    forall i, j | 0 <= i < j < |es| ensures es[i] != es[j] {
      assert es[i].1 != es[j].1;
    }
  }

  /** What a unit declares, edge kind by edge kind: its own directives, the implicit edges of its type, and,
      unless default dependencies are off, the reverse directives of `[Install]`. */
  lemma DeclaredPulls(u: UnitName, unit: Unit, a: UnitName, b: UnitName)
    ensures var d, i := unit.deps, unit.install;
      var activates := a == u && (unit.kind == TimerData(Some(b)) || unit.kind == PathData(Some(b))
                                  || unit.kind == SocketData(Some(b)));
      && (DeclaredBy(u, unit, a, Wants, b) <==>
           (a == u && b in d.wants) || (b == u && unit.defaultDependencies && a in i.wantedBy) || activates)
      && (DeclaredBy(u, unit, a, Requires, b) <==>
           (a == u && b in d.required) || (b == u && unit.defaultDependencies && a in i.requiredBy))
      && (DeclaredBy(u, unit, a, Upholds, b) <==>
           (a == u && b in d.upholds) || (b == u && unit.defaultDependencies && a in i.upheldBy))
      && (DeclaredBy(u, unit, a, Before, b) <==> (a == u && b in d.before) || activates)
  {
  }

  lemma DeclaredOthers(u: UnitName, unit: Unit, a: UnitName, b: UnitName)
    ensures var d := unit.deps;
      && (DeclaredBy(u, unit, a, After, b) <==> a == u && b in d.after)
      && (DeclaredBy(u, unit, a, Requisite, b) <==> a == u && b in d.requisite)
      && (DeclaredBy(u, unit, a, BindsTo, b) <==> a == u && b in d.bindsTo)
      && (DeclaredBy(u, unit, a, PartOf, b) <==> a == u && b in d.partOf)
      && (DeclaredBy(u, unit, a, Conflicts, b) <==> a == u && b in d.conflicts)
      && (DeclaredBy(u, unit, a, OnFailure, b) <==> a == u && b in d.onFailure)
      && (DeclaredBy(u, unit, a, OnSuccess, b) <==> a == u && b in d.onSuccess)
      && (DeclaredBy(u, unit, a, PropagatesReloadTo, b) <==> a == u && b in d.propagatesReloadTo)
      && (DeclaredBy(u, unit, a, PropagatesStopTo, b) <==> a == u && b in d.propagatesStopTo)
  {
  }

  lemma {:induction false} NodesGrow(g: GraphView, edges: seq<Edge>)
    ensures g.nodes <= WithAll(g, edges).nodes
  {
    if edges != [] {
      NodesGrow(g, edges[..|edges| - 1]);
    }
  }
}
