/** What every run of the expansion guarantees. */
module ExpansionTheorems {
  import opened Wrappers
  import opened UnitNames
  import opened DepGraphs
  import opened Jobs
  import opened Expansion

  // ----- the documented rules, as a relation on edges -----

  /** The start rules: start hard and loaded soft targets, verify requisites, stop conflicts. */
  ghost predicate StartRule(r: Rules, u: UnitName, to: Request) {
    || (to.kind == Start && (r.g.HasEdge(u, Requires, to.unit) || r.g.HasEdge(u, BindsTo, to.unit)))
    || (to.kind == Start && to.unit in r.m.loaded
         && (r.g.HasEdge(u, Wants, to.unit) || r.g.HasEdge(u, Upholds, to.unit)))
    || (to.kind == VerifyActive && r.g.HasEdge(u, Requisite, to.unit))
    || (to.kind == Stop && to.unit in r.m.loaded && r.g.HasEdge(u, Conflicts, to.unit))
  }

  /** Stopping `u` stops the loaded units bound to it, part of it, or told to stop with it. */
  ghost predicate StopRule(r: Rules, u: UnitName, v: UnitName) {
    v in r.m.loaded && (r.g.HasEdge(v, BindsTo, u) || r.g.HasEdge(v, PartOf, u) || r.g.HasEdge(u, PropagatesStopTo, v))
  }

  ghost predicate ReloadRule(r: Rules, u: UnitName, v: UnitName) {
    v in r.m.loaded && r.g.HasEdge(u, PropagatesReloadTo, v)
  }

  /** Restarting `u` try-restarts the loaded units that are part of it. */
  ghost predicate TryRestartRule(r: Rules, u: UnitName, to: Request) {
    to.kind == TryRestart && to.unit in r.m.loaded && r.g.HasEdge(to.unit, PartOf, u)
  }

  /** A first request counts as a start for pulling others in. */
  predicate Starting(r: Rules, q: Request) {
    q.kind in {Start, ReloadOrStart, Restart} || (q.kind == TryRestart && q.unit in r.m.active)
  }

  predicate Restarting(r: Rules, q: Request) {
    q.kind == Restart || (q.kind == TryRestart && q.unit in r.m.active)
  }

  ghost predicate Rule(r: Rules, from: Request, to: Request) {
    r.expands &&
    (|| (Starting(r, from) && StartRule(r, from.unit, to))
     || (Restarting(r, from) && TryRestartRule(r, from.unit, to))
     || (from.kind == Stop && to.kind == Stop && StopRule(r, from.unit, to.unit))
     || (from.kind == Reload && to.kind == Reload && ReloadRule(r, from.unit, to.unit)))
  }

  ghost predicate Requested(ps: seq<Pull>, to: Request) {
    exists p :: p in ps && p.request == to
  }

  lemma RequestedAppend(a: seq<Pull>, b: seq<Pull>, to: Request)
    ensures Requested(a + b, to) <==> Requested(a, to) || Requested(b, to)
  {
    assert forall p :: p in a + b <==> p in a || p in b;
  }

  lemma StartPullMeans(m: ManagerView, link: Link, to: Request)
    ensures Requested(StartPull(m, link), to) <==> StartLinks(m, [link], to)
  {
    var ps := StartPull(m, link);
    assert ps != [] ==> ps[0] in ps && ps == [ps[0]];
  }

  /** The start rules read off a list of outgoing links. */
  ghost predicate StartLinks(m: ManagerView, links: seq<Link>, to: Request) {
    || (to.kind == Start && (Link(Requires, to.unit) in links || Link(BindsTo, to.unit) in links))
    || (to.kind == Start && to.unit in m.loaded && (Link(Wants, to.unit) in links || Link(Upholds, to.unit) in links))
    || (to.kind == VerifyActive && Link(Requisite, to.unit) in links)
    || (to.kind == Stop && to.unit in m.loaded && Link(Conflicts, to.unit) in links)
  }

  lemma {:induction false} StartPullsMean(m: ManagerView, links: seq<Link>, to: Request)
    ensures Requested(StartPulls(m, links), to) <==> StartLinks(m, links, to)
  {
    if links != [] {
      StartPullsMean(m, links[1..], to);
      StartPullMeans(m, links[0], to);
      RequestedAppend(StartPull(m, links[0]), StartPulls(m, links[1..]), to);
      assert links == [links[0]] + links[1..];
      hide StartPull, Requested;
    }
  }

  ghost predicate LinkAmong(links: seq<Link>, edges: set<DepEdge>, v: UnitName) {
    exists e :: e in edges && Link(e, v) in links
  }

  lemma {:induction false} LinkPullsMean(m: ManagerView, links: seq<Link>, edges: set<DepEdge>, kind: JobType,
                                         to: Request)
    ensures Requested(LinkPulls(m, links, edges, kind), to) <==>
      to.kind == kind && to.unit in m.loaded && LinkAmong(links, edges, to.unit)
  {
    if links != [] {
      LinkPullsMean(m, links[1..], edges, kind, to);
      var head := LinkPull(m, links[0], edges, kind);
      RequestedAppend(head, LinkPulls(m, links[1..], edges, kind), to);
      assert links == [links[0]] + links[1..];
      assert head != [] ==> head[0] in head;
      assert LinkAmong(links, edges, to.unit) <==>
        (links[0].unit == to.unit && links[0].edge in edges) || LinkAmong(links[1..], edges, to.unit) by {
        assert links[0] == Link(links[0].edge, links[0].unit);
      }
    }
  }

  /** Link pulls are soft and go to loaded units. */
  lemma {:induction false} LinkPullsAreSoft(m: ManagerView, links: seq<Link>, edges: set<DepEdge>, kind: JobType)
    ensures forall p :: p in LinkPulls(m, links, edges, kind) ==> !p.hard && p.request.unit in m.loaded
  {
    if links != [] {
      LinkPullsAreSoft(m, links[1..], edges, kind);
    }
  }

  lemma LinkAmongOutgoing(g: GraphView, u: UnitName, e: DepEdge, v: UnitName)
    ensures LinkAmong(g.Outgoing(u), {e}, v) <==> g.HasEdge(u, e, v)
  {
  }

  lemma LinkAmongIncoming(g: GraphView, u: UnitName, edges: set<DepEdge>, v: UnitName)
    requires g.Valid()
    ensures LinkAmong(g.Incoming(u), edges, v) <==> exists e :: e in edges && g.HasEdge(v, e, u)
  {
    assert forall e :: g.HasEdge(v, e, u) <==> g.HasMirror(v, e, u);
  }

  lemma StartPullsAreRules(r: Rules, u: UnitName, to: Request)
    ensures Requested(StartPulls(r.m, r.g.Outgoing(u)), to) <==> StartRule(r, u, to)
  {
    StartPullsMean(r.m, r.g.Outgoing(u), to);
  }

  lemma RestartPullsAreRules(r: Rules, u: UnitName, to: Request)
    requires r.g.Valid()
    ensures Requested(RestartPulls(r, u), to) <==> StartRule(r, u, to) || TryRestartRule(r, u, to)
  {
    hide StartPulls, LinkPulls, Requested, LinkAmong, GraphView.Valid, StartRule;
    StartPullsAreRules(r, u, to);
    LinkPullsMean(r.m, r.g.Incoming(u), {PartOf}, TryRestart, to);
    LinkAmongIncoming(r.g, u, {PartOf}, to.unit);
    RequestedAppend(StartPulls(r.m, r.g.Outgoing(u)), LinkPulls(r.m, r.g.Incoming(u), {PartOf}, TryRestart), to);
  }

  lemma StopPullsAreRules(r: Rules, u: UnitName, to: Request)
    requires r.g.Valid()
    ensures Requested(StopPulls(r, u), to) <==> to.kind == Stop && StopRule(r, u, to.unit)
  {
    hide LinkPulls, Requested, LinkAmong, GraphView.Valid;
    var inc, out := r.g.Incoming(u), r.g.Outgoing(u);
    LinkPullsMean(r.m, inc, {BindsTo, PartOf}, Stop, to);
    LinkPullsMean(r.m, out, {PropagatesStopTo}, Stop, to);
    LinkAmongIncoming(r.g, u, {BindsTo, PartOf}, to.unit);
    LinkAmongOutgoing(r.g, u, PropagatesStopTo, to.unit);
    RequestedAppend(LinkPulls(r.m, inc, {BindsTo, PartOf}, Stop), LinkPulls(r.m, out, {PropagatesStopTo}, Stop), to);
  }

  lemma ReloadPullsAreRules(r: Rules, u: UnitName, to: Request)
    ensures Requested(LinkPulls(r.m, r.g.Outgoing(u), {PropagatesReloadTo}, Reload), to) <==>
      to.kind == Reload && ReloadRule(r, u, to.unit)
  {
    hide LinkPulls, Requested, LinkAmong;
    LinkPullsMean(r.m, r.g.Outgoing(u), {PropagatesReloadTo}, Reload, to);
    LinkAmongOutgoing(r.g, u, PropagatesReloadTo, to.unit);
  }

  /** The pulls the expansion follows are exactly the documented rules. */
  lemma PullsAreRules(r: Rules, from: Request, to: Request)
    requires r.g.Valid()
    ensures Requested(Pulls(r, from), to) <==> Rule(r, from, to)
  {
    hide StartPulls, LinkPulls, RestartPulls, StopPulls, Requested, GraphView.Valid, StartRule, StopRule, ReloadRule;
    StartPullsAreRules(r, from.unit, to);
    RestartPullsAreRules(r, from.unit, to);
    StopPullsAreRules(r, from.unit, to);
    ReloadPullsAreRules(r, from.unit, to);
    NothingRequested(to);
  }

  lemma NothingRequested(to: Request)
    ensures !Requested([], to)
  {
  }

  /** A pull of a unit that is not loaded requests nothing: a hard one ends the list there, a soft one
      is passed over. */
  lemma MissingTarget(r: Rules, log: Log, p: Pull, ps: seq<Pull>)
    requires p.request.unit !in r.m.loaded
    ensures AddAll(r, log, [p] + ps) == if p.hard then (log, Some(p.request.unit)) else AddAll(r, log, ps)
  {
    hide Pulls;
    assert ([p] + ps)[1..] == ps;
  }

  // ----- every request is justified -----

  /** Position `j` is the first request for its unit: the only one that is expanded. */
  ghost predicate First(log: Log, j: nat) {
    j < |log| && forall i :: 0 <= i < j ==> log[i].unit != log[j].unit
  }

  /** Units stand in the job map in the order of their first requests. */
  lemma {:induction false} FirstUnitsInOrder(log: Log, i: nat, j: nat) returns (a: nat, b: nat)
    requires First(log, i) && First(log, j) && i < j
    ensures a < b < |FirstUnits(log)| && FirstUnits(log)[a] == log[i].unit && FirstUnits(log)[b] == log[j].unit
  {
    var n := |log| - 1;
    assert log == log[..n] + [log[n]];
    if j < n {
      a, b := FirstUnitsInOrder(log[..n], i, j);
    } else {
      a := PlaceOf(FirstUnits(log[..n]), log[i].unit) by {
        assert log[..n][i] in log[..n];
      }
      b := |FirstUnits(log[..n])|;
      assert log[n].unit !in Units(log[..n]);
    }
  }

  lemma PlaceOf(us: seq<UnitName>, u: UnitName) returns (a: nat)
    requires u in us
    ensures a < |us| && us[a] == u
  {
    a :| 0 <= a < |us| && us[a] == u;
  }

  ghost predicate PulledAfter(r: Rules, log: Log, lo: nat, i: nat)
    requires i < |log|
  {
    exists j :: lo <= j < i && First(log, j) && Requested(Pulls(r, log[j]), log[i])
  }

  lemma PulledAfterExtends(r: Rules, log: Log, log': Log, lo: nat, lo': nat, i: nat)
    requires log <= log' && lo' <= lo && i < |log| && PulledAfter(r, log, lo, i)
    ensures PulledAfter(r, log', lo', i)
  {
    var j :| lo <= j < i && First(log, j) && Requested(Pulls(r, log[j]), log[i]);
    assert First(log', j);
  }

  /** From position `lo` on, the log opens with `q` and everything else was pulled in. */
  ghost predicate GrownFrom(r: Rules, log: Log, lo: nat, q: Request) {
    && (lo < |log| ==> log[lo] == q)
    && (forall i :: lo <= i < |log| ==> log[i].unit in r.m.loaded)
    && (forall i :: lo < i < |log| ==> PulledAfter(r, log, lo, i))
  }

  /** From position `lo` on, everything is one of `ps` or was pulled in. */
  ghost predicate GrownFromAny(r: Rules, log: Log, lo: nat, ps: seq<Pull>) {
    && (forall i :: lo <= i < |log| ==> log[i].unit in r.m.loaded)
    && (forall i :: lo <= i < |log| ==> Requested(ps, log[i]) || PulledAfter(r, log, lo, i))
  }

  lemma OpensExpansion(r: Rules, log: Log, q: Request, log': Log)
    requires q.unit !in Units(log) && log + [q] <= log' && GrownFromAny(r, log', |log| + 1, Pulls(r, q))
    requires q.unit in r.m.loaded
    ensures First(log', |log|) && GrownFrom(r, log', |log|, q)
  {
    hide Requested, Pulls;
    var lo := |log|;
    assert log'[lo] == (log + [q])[lo] == q;
    assert First(log', lo) by {
      forall i | 0 <= i < lo ensures log'[i].unit != q.unit {
        assert log'[i] == (log + [q])[i] == log[i] && log[i] in log;
      }
    }
    forall i | lo < i < |log'| ensures PulledAfter(r, log', lo, i) {
      if !Requested(Pulls(r, q), log'[i]) {
        PulledAfterExtends(r, log', log', lo + 1, lo, i);
      }
    }
  }

  lemma JoinsExpansion(r: Rules, log: Log, ps: seq<Pull>, log1: Log, log': Log)
    requires ps != [] && log <= log1 <= log'
    requires GrownFrom(r, log1, |log|, ps[0].request)
    requires log1 == log' || GrownFromAny(r, log', |log1|, ps[1..])
    ensures GrownFromAny(r, log', |log|, ps)
  {
    hide Pulls;
    assert ps[0] in ps;
    forall i | |log| <= i < |log'|
      ensures log'[i].unit in r.m.loaded
      ensures Requested(ps, log'[i]) || PulledAfter(r, log', |log|, i)
    {
      if i < |log1| {
        assert log'[i] == log1[i];
        if i > |log| {
          PulledAfterExtends(r, log1, log', |log|, |log|, i);
        }
      } else if Requested(ps[1..], log'[i]) {
        var p :| p in ps[1..] && p.request == log'[i];
        assert p in ps;
      } else {
        PulledAfterExtends(r, log', log', |log1|, |log|, i);
      }
    }
  }

  lemma {:induction false} AddJustified(r: Rules, log: Log, q: Request)
    ensures GrownFrom(r, Add(r, log, q).0, |log|, q)
    decreases Remaining(r, log), 0
  {
    hide Pulls;
    if q.unit in r.m.loaded && q.unit !in Units(log) {
      var log1 := log + [q];
      assert q in log1;
      RemainingShrinks(r, log, log1);
      AddAllJustified(r, log1, Pulls(r, q));
      OpensExpansion(r, log, q, Add(r, log, q).0);
    }
  }

  lemma {:induction false} AddAllJustified(r: Rules, log: Log, ps: seq<Pull>)
    ensures GrownFromAny(r, AddAll(r, log, ps).0, |log|, ps)
    decreases Remaining(r, log), 1 + |ps|
  {
    hide Pulls, GrownFrom, GrownFromAny;
    if ps != [] {
      var (log1, failed) := Add(r, log, ps[0].request);
      RemainingShrinks(r, log, log1);
      AddJustified(r, log, ps[0].request);
      if !(failed.Some? && ps[0].hard) {
        AddAllJustified(r, log1, ps[1..]);
      }
      JoinsExpansion(r, log, ps, log1, AddAll(r, log, ps).0);
    } else {
      NothingGrown(r, log);
    }
  }

  lemma NothingGrown(r: Rules, log: Log)
    ensures GrownFromAny(r, log, |log|, [])
  {
  }

  // ----- every first request is answered -----

  /** Hypothesis on the snapshot: hard dependencies of loaded units are loaded. */
  ghost predicate HardTargetsLoaded(r: Rules) {
    forall u, k, v :: u in r.m.loaded && k in {Requires, BindsTo, Requisite} && r.g.HasEdge(u, k, v) ==> v in r.m.loaded
  }

  /** Everything the request at `j` pulls was requested after it. */
  ghost predicate Answered(r: Rules, log: Log, j: nat)
    requires j < |log|
  {
    forall p :: p in Pulls(r, log[j]) ==> p.request in log[j + 1..]
  }

  ghost predicate Closed(r: Rules, log: Log, lo: nat) {
    forall j :: lo <= j < |log| && First(log, j) ==> Answered(r, log, j)
  }

  lemma ClosedExtends(r: Rules, log: Log, q: Request, log': Log)
    requires log + [q] <= log' && Closed(r, log', |log| + 1)
    requires q.unit in Units(log) || forall p :: p in Pulls(r, q) ==> p.request in log'[|log| + 1..]
    ensures Closed(r, log', |log|)
  {
    hide Pulls;
    assert log'[|log|] == (log + [q])[|log|] == q;
    if q.unit in Units(log) {
      var i :| 0 <= i < |log| && log[i].unit == q.unit;
      assert log'[i] == (log + [q])[i] == log[i];
    }
  }

  lemma TailGrows(log: Log, log': Log, k: nat, x: Request)
    requires log <= log' && k <= |log| && x in log[k..]
    ensures x in log'[k..]
  {
    var i :| 0 <= i < |log[k..]| && log[k..][i] == x;
    assert log'[k..][i] == x;
  }

  lemma ClosedJoins(r: Rules, lo: nat, log1: Log, log': Log)
    requires log1 <= log' && Closed(r, log1, lo) && Closed(r, log', |log1|)
    ensures Closed(r, log', lo)
  {
    hide Pulls;
    forall j | lo <= j < |log'| && First(log', j) ensures Answered(r, log', j) {
      if j < |log1| {
        assert log'[j] == log1[j];
        assert First(log1, j);
        forall p | p in Pulls(r, log'[j]) ensures p.request in log'[j + 1..] {
          TailGrows(log1, log', j + 1, p.request);
        }
      }
    }
  }

  lemma NothingOpen(r: Rules, log: Log)
    ensures Closed(r, log, |log|)
  {
  }

  // ----- when nothing can fail -----

  /** Whatever the requests in `qs` pull is loaded, and again in `qs`. */
  ghost predicate Safe(r: Rules, qs: iset<Request>) {
    forall q, p :: q in qs && p in Pulls(r, q) ==> p.request.unit in r.m.loaded && p.request in qs
  }

  /** Everything that can be reached from the request by the rules is loaded. */
  ghost predicate NothingMissing(r: Rules, q: Request) {
    q.unit in r.m.loaded && exists qs: iset<Request> :: q in qs && Safe(r, qs)
  }

  /** A request that fails on no log. */
  ghost predicate NeverFails(r: Rules, q: Request) {
    forall log :: Add(r, log, q).1.None?
  }

  lemma {:induction false} SafeAdds(r: Rules, qs: iset<Request>, log: Log, q: Request)
    requires Safe(r, qs) && q in qs && q.unit in r.m.loaded
    ensures Add(r, log, q).1.None?
    decreases Remaining(r, log), 0
  {
    hide Pulls;
    if q.unit !in Units(log) {
      assert q in log + [q];
      RemainingShrinks(r, log, log + [q]);
      SafeAddsAll(r, qs, log + [q], Pulls(r, q));
    }
  }

  lemma {:induction false} SafeAddsAll(r: Rules, qs: iset<Request>, log: Log, ps: seq<Pull>)
    requires Safe(r, qs) && forall p :: p in ps ==> p.request in qs && p.request.unit in r.m.loaded
    ensures AddAll(r, log, ps).1.None?
    decreases Remaining(r, log), 1 + |ps|
  {
    hide Pulls, Safe;
    if ps != [] {
      assert ps[0] in ps && forall p :: p in ps[1..] ==> p in ps;
      var log1 := Add(r, log, ps[0].request).0;
      RemainingShrinks(r, log, log1);
      SafeAdds(r, qs, log, ps[0].request);
      SafeAddsAll(r, qs, log1, ps[1..]);
    }
  }

  /** Where everything reachable is loaded, a request never fails. */
  lemma NothingMissingNeverFails(r: Rules, q: Request)
    requires NothingMissing(r, q)
    ensures NeverFails(r, q)
  {
    hide Safe;
    var qs: iset<Request> :| q in qs && Safe(r, qs);
    forall log ensures Add(r, log, q).1.None? {
      SafeAdds(r, qs, log, q);
    }
  }

  /** It is enough that hard dependencies of loaded units are loaded. */
  lemma HardTargetsSuffice(r: Rules, q: Request)
    requires r.g.Valid() && HardTargetsLoaded(r) && q.unit in r.m.loaded
    ensures NothingMissing(r, q)
  {
    hide GraphView.Valid;
    var qs := iset x: Request | x.unit in r.m.loaded;
    forall x, p | x in qs && p in Pulls(r, x) ensures p.request.unit in r.m.loaded {
      assert Requested(Pulls(r, x), p.request);
      PullsAreRules(r, x, p.request);
      hide Pulls;
    }
    assert q in qs && Safe(r, qs);
  }

  // ----- when success is complete -----

  /** The requests in `qs` pull only requests in `qs`, and their soft pulls never fail. */
  ghost predicate Careful(r: Rules, qs: iset<Request>) {
    && (forall q, p :: q in qs && p in Pulls(r, q) && p.request.unit in r.m.loaded ==> p.request in qs)
    && (forall q, p :: q in qs && p in Pulls(r, q) && !p.hard ==> NeverFails(r, p.request))
  }

  ghost predicate CarefulPulls(r: Rules, qs: iset<Request>, ps: seq<Pull>) {
    forall p :: p in ps ==> (p.request.unit in r.m.loaded ==> p.request in qs) && (!p.hard ==> NeverFails(r, p.request))
  }

  /** If no failure can be swallowed, a request that succeeds carries out every pull of every
      unit it visits first. */
  lemma {:induction false} AddCloses(r: Rules, qs: iset<Request>, log: Log, q: Request)
    requires Careful(r, qs) && q in qs && Add(r, log, q).1.None?
    ensures var log' := Add(r, log, q).0; q in log'[|log|..] && Closed(r, log', |log|)
    decreases Remaining(r, log), 0
  {
    hide Pulls, Closed, NeverFails;
    var log1 := log + [q];
    assert q in log1;
    NothingOpen(r, log1);
    var log' := Add(r, log, q).0;
    if q.unit !in Units(log) {
      RemainingShrinks(r, log, log1);
      AddAllCloses(r, qs, log1, Pulls(r, q));
    }
    assert log1[|log|..] == [q];
    TailGrows(log1, log', |log|, q);
    ClosedExtends(r, log, q, log');
  }

  lemma {:induction false} AddAllCloses(r: Rules, qs: iset<Request>, log: Log, ps: seq<Pull>)
    requires Careful(r, qs) && CarefulPulls(r, qs, ps) && AddAll(r, log, ps).1.None?
    ensures var log' := AddAll(r, log, ps).0;
      (forall p :: p in ps ==> p.request in log'[|log|..]) && Closed(r, log', |log|)
    decreases Remaining(r, log), 1 + |ps|
  {
    hide Pulls, Closed, Careful;
    if ps == [] {
      NothingOpen(r, log);
    } else {
      assert ps[0] in ps && forall p :: p in ps[1..] ==> p in ps;
      var (log1, failed) := Add(r, log, ps[0].request);
      RemainingShrinks(r, log, log1);
      assert failed.None?;
      AddCloses(r, qs, log, ps[0].request);
      AddAllCloses(r, qs, log1, ps[1..]);
      var log' := AddAll(r, log, ps).0;
      ClosedJoins(r, |log|, log1, log');
      TailGrows(log1, log', |log|, ps[0].request);
      forall p | p in ps ensures p.request in log'[|log|..] {
        if p in ps[1..] {
          LaterTail(log', |log|, |log1|, p.request);
        }
      }
    }
  }

  lemma LaterTail(log: Log, k: nat, k': nat, x: Request)
    requires k <= k' <= |log| && x in log[k'..]
    ensures x in log[k..]
  {
    var i :| 0 <= i < |log[k'..]| && log[k'..][i] == x;
    assert log[k..][k' - k + i] == x;
  }

  lemma SafeIsCareful(r: Rules, qs: iset<Request>)
    requires Safe(r, qs)
    ensures Careful(r, qs)
  {
    hide Pulls;
    forall q, p | q in qs && p in Pulls(r, q) ensures NeverFails(r, p.request) {
      assert p.request in qs && p.request.unit in r.m.loaded;
      NothingMissingNeverFails(r, p.request);
    }
  }

  /** Where everything reachable is loaded, a request succeeds and is carried out completely. */
  lemma SafeCloses(r: Rules, log: Log, q: Request)
    requires NothingMissing(r, q)
    ensures var (log', failed) := Add(r, log, q);
      failed.None? && q in log'[|log|..] && Closed(r, log', |log|)
  {
    hide Safe, Careful, Closed, NeverFails;
    var qs: iset<Request> :| q in qs && Safe(r, qs);
    SafeAdds(r, qs, log, q);
    SafeIsCareful(r, qs);
    AddCloses(r, qs, log, q);
  }

  /** The same for a list of such requests. */
  lemma SafeAllCloses(r: Rules, qs: iset<Request>, log: Log, ps: seq<Pull>)
    requires Safe(r, qs) && forall p :: p in ps ==> p.request in qs && p.request.unit in r.m.loaded
    ensures var (log', failed) := AddAll(r, log, ps);
      failed.None? && (forall p :: p in ps ==> p.request in log'[|log|..]) && Closed(r, log', |log|)
  {
    hide Safe, Careful, Closed, NeverFails;
    SafeAddsAll(r, qs, log, ps);
    SafeIsCareful(r, qs);
    forall p | p in ps ensures NeverFails(r, p.request) {
      NothingMissingNeverFails(r, p.request);
    }
    AddAllCloses(r, qs, log, ps);
  }

  /** Stops, and reloads, pull only their own kind, and only loaded units. */
  lemma SoftKindIsSafe(r: Rules, kind: JobType)
    requires r.g.Valid() && kind in {Stop, Reload}
    ensures Safe(r, iset q: Request | q.kind == kind && q.unit in r.m.loaded)
  {
    hide GraphView.Valid;
    forall q: Request, p: Pull | q.kind == kind && p in Pulls(r, q)
      ensures p.request.unit in r.m.loaded && p.request.kind == kind
    {
      assert Requested(Pulls(r, q), p.request);
      PullsAreRules(r, q, p.request);
      hide Pulls, StartRule, TryRestartRule;
    }
  }

  // ----- failures -----

  /** A list of soft pulls never fails, and requests everything loaded on it. */
  lemma {:induction false} SoftNeverFails(r: Rules, log: Log, ps: seq<Pull>)
    requires forall p :: p in ps ==> !p.hard
    ensures AddAll(r, log, ps).1.None?
    ensures forall p :: p in ps && p.request.unit in r.m.loaded ==> p.request in AddAll(r, log, ps).0
    decreases |ps|
  {
    if ps != [] {
      assert ps[0] in ps && forall p :: p in ps[1..] ==> p in ps;
      var q := ps[0].request;
      var log1 := Add(r, log, q).0;
      SoftNeverFails(r, log1, ps[1..]);
      var log' := AddAll(r, log, ps).0;
      if q.unit in r.m.loaded {
        AddRecords(r, log, q);
      }
      assert forall x :: x in log1 ==> x in log';
      assert forall p :: p in ps ==> p == ps[0] || p in ps[1..];
    }
  }

  lemma AddRecords(r: Rules, log: Log, q: Request)
    requires q.unit in r.m.loaded
    ensures log + [q] <= Add(r, log, q).0 && q in Add(r, log, q).0
  {
    hide Pulls;
    assert q in log + [q];
  }

  /** Stops, reloads and verifications of loaded units never fail, on any graph. */
  lemma SoftKindsNeverFail(r: Rules, log: Log, q: Request)
    requires q.unit in r.m.loaded && q.kind in {Stop, Reload, VerifyActive, Nop}
    ensures Add(r, log, q).1.None?
  {
    if r.expands {
      var out, inc := r.g.Outgoing(q.unit), r.g.Incoming(q.unit);
      LinkPullsAreSoft(r.m, inc, {BindsTo, PartOf}, Stop);
      LinkPullsAreSoft(r.m, out, {PropagatesStopTo}, Stop);
      LinkPullsAreSoft(r.m, out, {PropagatesReloadTo}, Reload);
      hide LinkPulls;
    }
    if q.unit !in Units(log) {
      assert forall p :: p in Pulls(r, q) ==> !p.hard;
      SoftNeverFails(r, log + [q], Pulls(r, q));
    }
  }

  /** A chain of hard dependencies: `Requires` or `BindsTo` throughout, the last link
      possibly a `Requisite`, and only the last unit not loaded. */
  ghost predicate BrokenHardChain(r: Rules, w: seq<UnitName>) {
    && w != [] && w[|w| - 1] !in r.m.loaded
    && (forall i :: 0 <= i < |w| - 1 ==> w[i] in r.m.loaded)
    && (forall i :: 0 < i < |w| ==>
          r.g.HasEdge(w[i - 1], Requires, w[i]) || r.g.HasEdge(w[i - 1], BindsTo, w[i])
          || (i == |w| - 1 && r.g.HasEdge(w[i - 1], Requisite, w[i])))
  }

  lemma HardPullsAreHardEdges(r: Rules, q: Request, p: Pull)
    requires p in Pulls(r, q) && p.hard
    ensures r.expands && Starting(r, q) && p in StartPulls(r.m, r.g.Outgoing(q.unit))
  {
    LinkPullsAreSoft(r.m, r.g.Incoming(q.unit), {BindsTo, PartOf}, Stop);
    LinkPullsAreSoft(r.m, r.g.Incoming(q.unit), {PartOf}, TryRestart);
    LinkPullsAreSoft(r.m, r.g.Outgoing(q.unit), {PropagatesStopTo}, Stop);
    LinkPullsAreSoft(r.m, r.g.Outgoing(q.unit), {PropagatesReloadTo}, Reload);
    hide LinkPulls, StartPulls;
  }

  lemma {:induction false} HardStartPull(r: Rules, links: seq<Link>, p: Pull)
    requires p in StartPulls(r.m, links) && p.hard
    ensures var v := p.request.unit;
      || (p.request.kind == Start && (Link(Requires, v) in links || Link(BindsTo, v) in links))
      || (p.request.kind == VerifyActive && Link(Requisite, v) in links)
      || (p.request.kind == Stop && v in r.m.loaded)
  {
    if p in StartPull(r.m, links[0]) {
      assert links[0] in links && links[0] == Link(links[0].edge, links[0].unit);
    } else {
      HardStartPull(r, links[1..], p);
      assert forall l :: l in links[1..] ==> l in links;
    }
  }

  lemma ChainOfOne(r: Rules, u: UnitName)
    ensures BrokenHardChain(r, [u]) <==> u !in r.m.loaded
  {
  }

  lemma ChainCons(r: Rules, q: Request, p: Pull, w: seq<UnitName>)
    requires q.unit in r.m.loaded && p in StartPulls(r.m, r.g.Outgoing(q.unit)) && p.hard
    requires BrokenHardChain(r, w) && w[0] == p.request.unit && (|w| > 1 ==> Starting(r, p.request))
    ensures BrokenHardChain(r, [q.unit] + w)
  {
    hide StartPulls;
    HardStartPull(r, r.g.Outgoing(q.unit), p);
    var w' := [q.unit] + w;
    forall i | 0 < i < |w'|
      ensures r.g.HasEdge(w'[i - 1], Requires, w'[i]) || r.g.HasEdge(w'[i - 1], BindsTo, w'[i])
          || (i == |w'| - 1 && r.g.HasEdge(w'[i - 1], Requisite, w'[i]))
    {
      assert w'[i] == w[i - 1];
      if i > 1 {
        var k := i - 1;
        assert w'[i - 1] == w[k - 1];
      }
    }
  }

  /** A failed request for `q` exhibits a broken chain of hard dependencies from its unit. */
  lemma {:induction false} AddFailure(r: Rules, log: Log, q: Request) returns (w: seq<UnitName>)
    requires Add(r, log, q).1.Some?
    ensures w != [] && BrokenHardChain(r, w) && w[0] == q.unit && w[|w| - 1] == Add(r, log, q).1.value
    ensures |w| > 1 ==> Starting(r, q)
    decreases Remaining(r, log), 0
  {
    hide Pulls, BrokenHardChain, StartPulls;
    if q.unit !in r.m.loaded {
      w := [q.unit];
      ChainOfOne(r, q.unit);
    } else {
      var log1 := log + [q];
      assert q in log1;
      RemainingShrinks(r, log, log1);
      var p, w' := AddAllFailure(r, log1, Pulls(r, q));
      HardPullsAreHardEdges(r, q, p);
      ChainCons(r, q, p, w');
      w := [q.unit] + w';
    }
  }

  lemma {:induction false} AddAllFailure(r: Rules, log: Log, ps: seq<Pull>) returns (p: Pull, w: seq<UnitName>)
    requires AddAll(r, log, ps).1.Some?
    ensures p in ps && p.hard && w != [] && BrokenHardChain(r, w) && w[0] == p.request.unit
      && w[|w| - 1] == AddAll(r, log, ps).1.value
    ensures |w| > 1 ==> Starting(r, p.request)
    decreases Remaining(r, log), 1 + |ps|
  {
    hide Pulls, BrokenHardChain;
    var (log1, failed) := Add(r, log, ps[0].request);
    RemainingShrinks(r, log, log1);
    if failed.Some? && ps[0].hard {
      p := ps[0];
      w := AddFailure(r, log, p.request);
    } else {
      p, w := AddAllFailure(r, log1, ps[1..]);
    }
  }
}
