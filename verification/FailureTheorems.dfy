/** Exactly when a start fails. */
module FailureTheorems {
  import opened Wrappers
  import opened UnitNames
  import opened DepGraphs
  import opened Jobs
  import opened Expansion
  import opened ExpansionTheorems
  import opened RunTheorems

  /** The unit heads a broken chain of hard dependencies. */
  ghost predicate Broken(r: Rules, u: UnitName) {
    exists w :: BrokenHardChain(r, w) && w[0] == u
  }

  /** The requests in `qs` pull only requests in `qs`, and whatever they ask of a loaded unit that
      heads a broken chain is a hard start: none is wanted, upheld, verified, stopped or
      try-restarted. */
  ghost predicate HardStartsOnly(r: Rules, qs: iset<Request>) {
    forall q, p :: q in qs && p in Pulls(r, q) && p.request.unit in r.m.loaded ==>
      p.request in qs && (Broken(r, p.request.unit) ==> p.hard && Starting(r, p.request))
  }

  /** That holds of everything the rules can reach from the root. */
  ghost predicate Undisturbed(r: Rules, root: Request) {
    exists qs: iset<Request> :: root in qs && HardStartsOnly(r, qs)
  }

  // ----- no failure is swallowed -----

  lemma {:induction false} SoftPullsAreLoaded(r: Rules, q: Request, p: Pull)
    requires p in Pulls(r, q) && !p.hard
    ensures p.request.unit in r.m.loaded
  {
    LinkPullsAreSoft(r.m, r.g.Incoming(q.unit), {BindsTo, PartOf}, Stop);
    LinkPullsAreSoft(r.m, r.g.Incoming(q.unit), {PartOf}, TryRestart);
    LinkPullsAreSoft(r.m, r.g.Outgoing(q.unit), {PropagatesStopTo}, Stop);
    LinkPullsAreSoft(r.m, r.g.Outgoing(q.unit), {PropagatesReloadTo}, Reload);
    if p in StartPulls(r.m, r.g.Outgoing(q.unit)) {
      SoftStartPull(r.m, r.g.Outgoing(q.unit), p);
    }
    hide LinkPulls, StartPulls;
  }

  lemma {:induction false} SoftStartPull(m: ManagerView, links: seq<Link>, p: Pull)
    requires p in StartPulls(m, links) && !p.hard
    ensures p.request.unit in m.loaded
  {
    if p !in StartPull(m, links[0]) {
      SoftStartPull(m, links[1..], p);
    }
  }

  /** A soft pull of a unit that heads no broken chain never fails. */
  lemma UndisturbedIsCareful(r: Rules, qs: iset<Request>)
    requires HardStartsOnly(r, qs)
    ensures Careful(r, qs)
  {
    hide Pulls, BrokenHardChain;
    forall q, p | q in qs && p in Pulls(r, q) && !p.hard ensures NeverFails(r, p.request) {
      SoftPullsAreLoaded(r, q, p);
      forall log ensures Add(r, log, p.request).1.None? {
        if Add(r, log, p.request).1.Some? {
          var w := AddFailure(r, log, p.request);
        }
      }
    }
  }

  // ----- the chain is followed -----

  lemma {:induction false} LogWithin(r: Rules, log: Log, root: Request, qs: iset<Request>, i: nat)
    requires r.g.Valid() && Justified(r, log, {root}) && i < |log| && root in qs && HardStartsOnly(r, qs)
    ensures log[i] in qs
  {
    hide Pulls, GraphView.Valid, Rule, First, Broken;
    if log[i] != root {
      assert JustifiedAt(r, log, {root}, i);
      var j :| 0 <= j < i && First(log, j) && Rule(r, log[j], log[i]);
      LogWithin(r, log, root, qs, j);
      PullsAreRules(r, log[j], log[i]);
      var p :| p in Pulls(r, log[j]) && p.request == log[i];
    }
  }

  /** The first request for a unit that heads a broken chain is a start. */
  lemma BrokenIsStarted(r: Rules, log: Log, root: Request, qs: iset<Request>, j: nat)
    requires r.g.Valid() && Justified(r, log, {root}) && root in qs && HardStartsOnly(r, qs) && Starting(r, root)
    requires j < |log| && Broken(r, log[j].unit)
    ensures Starting(r, log[j])
  {
    hide Pulls, GraphView.Valid, Rule, First, Broken;
    if log[j] != root {
      assert JustifiedAt(r, log, {root}, j);
      var i :| 0 <= i < j && First(log, i) && Rule(r, log[i], log[j]);
      LogWithin(r, log, root, qs, i);
      PullsAreRules(r, log[i], log[j]);
      var p :| p in Pulls(r, log[i]) && p.request == log[j];
    }
  }

  lemma ChainTail(r: Rules, w: seq<UnitName>, i: nat)
    requires BrokenHardChain(r, w) && i < |w|
    ensures Broken(r, w[i])
  {
    var v := w[i..];
    forall k | 0 < k < |v|
      ensures r.g.HasEdge(v[k - 1], Requires, v[k]) || r.g.HasEdge(v[k - 1], BindsTo, v[k])
          || (k == |v| - 1 && r.g.HasEdge(v[k - 1], Requisite, v[k]))
    {
      var n := i + k;
      assert v[k] == w[n] && v[k - 1] == w[n - 1];
    }
    assert BrokenHardChain(r, v);
  }

  /** If the run succeeded, every unit of the chain was requested: but the last is not loaded. */
  lemma {:induction false} ChainIsFollowed(r: Rules, log: Log, root: Request, qs: iset<Request>, w: seq<UnitName>,
                                           i: nat)
    requires r.g.Valid() && r.expands && Justified(r, log, {root}) && root in log && Closed(r, log, 0)
    requires root in qs && HardStartsOnly(r, qs) && Starting(r, root)
    requires BrokenHardChain(r, w) && w[0] == root.unit && i < |w|
    ensures w[i] in Units(log) && w[i] in r.m.loaded
  {
    hide Pulls, GraphView.Valid, HardStartsOnly, Starting, Broken;
    if i > 0 {
      ChainIsFollowed(r, log, root, qs, w, i - 1);
      var j := FirstOf(log, w[i - 1]);
      ChainTail(r, w, i - 1);
      BrokenIsStarted(r, log, root, qs, j);
      assert Answered(r, log, j);
      ChainStep(r, log, j, w, i);
    }
    var k := FirstOf(log, w[i]);
    assert log[k].unit in r.m.loaded;
  }

  lemma ChainStep(r: Rules, log: Log, j: nat, w: seq<UnitName>, i: nat)
    requires r.g.Valid() && r.expands && j < |log| && Answered(r, log, j) && Starting(r, log[j])
    requires BrokenHardChain(r, w) && 0 < i < |w| && log[j].unit == w[i - 1]
    ensures w[i] in Units(log)
  {
    hide Pulls, GraphView.Valid, Starting;
    var hard := r.g.HasEdge(w[i - 1], Requires, w[i]) || r.g.HasEdge(w[i - 1], BindsTo, w[i]);
    var to := Request(w[i], if hard then Start else VerifyActive);
    assert StartRule(r, w[i - 1], to);
    PullsAreRules(r, log[j], to);
    var p :| p in Pulls(r, log[j]) && p.request == to;
    LaterTail(log, 0, j + 1, to);
    assert to in log;
  }

  /** Where whatever the root can reach asks nothing but hard starts of units that head a broken
      chain, a start fails if and only if its root heads one. */
  lemma FailsExactlyOnBrokenChain(r: Rules, root: Request)
    requires r.g.Valid() && r.expands && root.unit in r.m.loaded && Starting(r, root) && Undisturbed(r, root)
    ensures Add(r, [], root).1.Some? <==> Broken(r, root.unit)
  {
    hide Pulls, GraphView.Valid, Starting, HardStartsOnly, BrokenHardChain, Careful;
    if Add(r, [], root).1.Some? {
      var w := AddFailure(r, [], root);
    } else if Broken(r, root.unit) {
      var qs: iset<Request> :| root in qs && HardStartsOnly(r, qs);
      var w := ChainOf(r, root.unit);
      var log := Add(r, [], root).0;
      UndisturbedIsCareful(r, qs);
      AddCloses(r, qs, [], root);
      ExpansionIsJustified(r, root);
      ChainIsFollowed(r, log, root, qs, w, |w| - 1);
    }
  }

  lemma ChainOf(r: Rules, u: UnitName) returns (w: seq<UnitName>)
    requires Broken(r, u)
    ensures w != [] && BrokenHardChain(r, w) && w[0] == u && w[|w| - 1] !in r.m.loaded
  {
    w :| BrokenHardChain(r, w) && w[0] == u;
  }

  // ----- conditions on edges -----

  /** The condition on declared edges: no loaded unit that heads a broken chain is wanted, upheld
      or verified by a loaded unit, or among the units that conflicts could stop. */
  ghost predicate UndisturbedEdges(r: Rules, stopped: set<UnitName>) {
    && HoldsStops(r, stopped)
    && (forall b :: b in stopped && b in r.m.loaded ==> !Broken(r, b))
    && (forall a, k, b ::
          (a in r.m.loaded && b in r.m.loaded && k in {Wants, Upholds, Requisite} && r.g.HasEdge(a, k, b)) ==>
            !Broken(r, b))
  }

  /** A plain start rooted at `u` is undisturbed under that condition. */
  lemma EdgesSuffice(r: Rules, u: UnitName, stopped: set<UnitName>)
    requires r.g.Valid() && u in r.m.loaded && UndisturbedEdges(r, stopped)
    ensures Undisturbed(r, Request(u, Start))
  {
    hide GraphView.Valid, Broken;
    var qs := iset q: Request | q.unit in r.m.loaded
      && (q.kind in {Start, VerifyActive} || (q.kind == Stop && q.unit in stopped));
    forall q, p | q in qs && p in Pulls(r, q) && p.request.unit in r.m.loaded
      ensures p.request in qs && (Broken(r, p.request.unit) ==> p.hard && Starting(r, p.request))
    {
      assert Requested(Pulls(r, q), p.request);
      PullsAreRules(r, q, p.request);
      if q.kind != Stop && !p.hard {
        SoftIsWanted(r, q, p);
      }
      hide Pulls;
    }
    assert Request(u, Start) in qs && HardStartsOnly(r, qs);
  }

  /** A soft pull of a plain start comes from a `Wants` or `Upholds` edge. */
  lemma SoftIsWanted(r: Rules, q: Request, p: Pull)
    requires p in Pulls(r, q) && q.kind in {Start, VerifyActive} && !p.hard
    ensures q.kind == Start
      && (r.g.HasEdge(q.unit, Wants, p.request.unit) || r.g.HasEdge(q.unit, Upholds, p.request.unit))
  {
    SoftStartLink(r.m, r.g.Outgoing(q.unit), p);
    hide StartPulls;
  }

  lemma {:induction false} SoftStartLink(m: ManagerView, links: seq<Link>, p: Pull)
    requires !p.hard
    ensures p in StartPulls(m, links) ==> Link(Wants, p.request.unit) in links || Link(Upholds, p.request.unit) in links
  {
    if links != [] {
      SoftStartLink(m, links[1..], p);
      assert links[0] == Link(links[0].edge, links[0].unit) && links[0] in links;
      assert forall l :: l in links[1..] ==> l in links;
    }
  }

  /** In particular where loaded units only require, bind to, and order: a start then fails if and
      only if its root heads a broken chain. */
  lemma PlainGraphsFailExactly(r: Rules, u: UnitName)
    requires r.g.Valid() && r.expands && u in r.m.loaded
    requires forall a, k, b :: a in r.m.loaded && b in r.m.loaded && k in {Wants, Upholds, Requisite, Conflicts} ==>
      !r.g.HasEdge(a, k, b)
    ensures Add(r, [], Request(u, Start)).1.Some? <==> Broken(r, u)
  {
    hide GraphView.Valid, Undisturbed, Broken;
    assert UndisturbedEdges(r, {});
    EdgesSuffice(r, u, {});
    FailsExactlyOnBrokenChain(r, Request(u, Start));
  }
}
