/** `topo_order`: Kahn's algorithm over the ordering edges restricted to a subset. */
module TopoSort {
  import opened Wrappers
  import opened UnitNames
  import opened DepGraphs

  /** `p` must run before `u`: `u After p` or `p Before u`. */
  predicate MustPrecede(g: GraphView, p: UnitName, u: UnitName) {
    g.HasEdge(u, After, p) || g.HasEdge(p, Before, u)
  }

  /** The same relation restricted to `units`. */
  predicate Precedes(g: GraphView, units: seq<UnitName>, p: UnitName, u: UnitName) {
    p in units && u in units && MustPrecede(g, p, u)
  }

  /** A nonempty list of units in which each must run before the next. */
  ghost predicate IsWalk(g: GraphView, units: seq<UnitName>, w: seq<UnitName>) {
    && w != []
    && (forall i :: 0 <= i < |w| ==> w[i] in units)
    && (forall i :: 0 < i < |w| ==> Precedes(g, units, w[i - 1], w[i]))
  }

  ghost predicate IsCycle(g: GraphView, units: seq<UnitName>, c: seq<UnitName>) {
    IsWalk(g, units, c) && |c| > 1 && c[0] == c[|c| - 1]
  }

  ghost predicate HasCycle(g: GraphView, units: seq<UnitName>) {
    exists c :: IsCycle(g, units, c)
  }

  /** `n` is on an ordering cycle or must run after a unit that is. */
  ghost predicate Stuck(g: GraphView, units: seq<UnitName>, n: UnitName) {
    exists c, w :: IsCycle(g, units, c) && IsWalk(g, units, w) && w[0] == c[0] && w[|w| - 1] == n
  }

  /** `n` is the first of `units`, in the order given, that is stuck. */
  ghost predicate FirstStuck(g: GraphView, units: seq<UnitName>, n: UnitName) {
    exists i :: 0 <= i < |units| && units[i] == n && Stuck(g, units, n)
      && forall j :: 0 <= j < i ==> !Stuck(g, units, units[j])
  }

  /** A start order: a permutation of `units` in which every ordering edge points forward. */
  ghost predicate IsStartOrder(g: GraphView, units: seq<UnitName>, order: seq<UnitName>) {
    && multiset(order) == multiset(units) && NoDuplicates(order)
    && (forall i, j :: 0 <= i < |order| && 0 <= j < |order| && Precedes(g, units, order[i], order[j]) ==> i < j)
  }

  /** The two directions in which an ordering edge may be declared mean the same. */
  lemma StartOrderMeans(g: GraphView, units: seq<UnitName>, order: seq<UnitName>)
    ensures IsStartOrder(g, units, order) <==>
      && multiset(order) == multiset(units) && NoDuplicates(order)
      && forall i, j :: 0 <= i < |order| && 0 <= j <= i ==>
           !g.HasEdge(order[i], Before, order[j]) && !g.HasEdge(order[j], After, order[i])
  {
    hide NoDuplicates, GraphView.HasEdge;
    if multiset(order) == multiset(units) {
      forall u ensures u in order <==> u in units {
        assert u in multiset(order) <==> u in multiset(units);
      }
    }
  }

  /** And so do they for cycles. */
  lemma CycleMeans(g: GraphView, units: seq<UnitName>, c: seq<UnitName>)
    ensures IsCycle(g, units, c) <==>
      && |c| > 1 && c[0] == c[|c| - 1] && (forall i :: 0 <= i < |c| ==> c[i] in units)
      && forall i :: 0 < i < |c| ==> g.HasEdge(c[i - 1], Before, c[i]) || g.HasEdge(c[i], After, c[i - 1])
  {
    hide GraphView.HasEdge;
  }

  // ----- cycles and orders -----

  /** A prefix-closed emission: every predecessor of an emitted unit was emitted before it. */
  ghost predicate Emitted(g: GraphView, units: seq<UnitName>, out: seq<UnitName>) {
    && NoDuplicates(out)
    && (forall x :: x in out ==> x in units)
    && (forall j, p :: 0 <= j < |out| && Precedes(g, units, p, out[j]) ==> p in out[..j])
  }

  /** Walking back from an emitted unit stays among the emitted ones and strictly descends. */
  lemma {:induction false} WalkDescends(g: GraphView, units: seq<UnitName>, out: seq<UnitName>, w: seq<UnitName>,
                                        j: nat)
    requires Emitted(g, units, out) && IsWalk(g, units, w)
    requires j < |out| && out[j] == w[|w| - 1]
    ensures exists i :: 0 <= i <= j && out[i] == w[0] && (|w| > 1 ==> i < j)
  {
    if |w| > 1 {
      var p := w[|w| - 2];
      assert Precedes(g, units, p, w[|w| - 1]);
      var i :| 0 <= i < j && out[i] == p;
      WalkDescends(g, units, out, w[..|w| - 1], i);
    }
  }

  lemma EmittedIsNotStuck(g: GraphView, units: seq<UnitName>, out: seq<UnitName>, n: UnitName)
    requires Emitted(g, units, out) && n in out
    ensures !Stuck(g, units, n)
  {
    forall c, w | IsCycle(g, units, c) && IsWalk(g, units, w) && w[0] == c[0] && w[|w| - 1] == n
      ensures false
    {
      var j :| 0 <= j < |out| && out[j] == n;
      WalkDescends(g, units, out, w, j);
      var i :| 0 <= i <= j && out[i] == w[0];
      WalkDescends(g, units, out, c, i);
    }
  }

  ghost predicate HasPredecessorIn(g: GraphView, units: seq<UnitName>, r: set<UnitName>, u: UnitName) {
    exists p :: p in r && Precedes(g, units, p, u)
  }

  /** Everyone in `r` waits for someone else in `r`. */
  ghost predicate PredecessorClosed(g: GraphView, units: seq<UnitName>, r: set<UnitName>) {
    forall u :: u in r ==> u in units && HasPredecessorIn(g, units, r, u)
  }

  /** Such a set holds backward walks of every length. */
  lemma {:induction false} BackwardWalk(g: GraphView, units: seq<UnitName>, r: set<UnitName>, n: UnitName, k: nat)
      returns (w: seq<UnitName>)
    requires n in r && PredecessorClosed(g, units, r)
    decreases k
    ensures IsWalk(g, units, w) && |w| == k + 1 && w[k] == n
    ensures forall x :: x in w ==> x in r
  {
    hide Precedes;
    if k == 0 {
      w := [n];
    } else {
      assert HasPredecessorIn(g, units, r, n);
      var p :| p in r && Precedes(g, units, p, n);
      var w' := BackwardWalk(g, units, r, p, k - 1);
      w := w' + [n];
    }
  }

  /** Pigeonhole: such a set lies on or downstream of cycles. */
  lemma PredecessorClosedIsStuck(g: GraphView, units: seq<UnitName>, r: set<UnitName>, n: UnitName)
    requires n in r && PredecessorClosed(g, units, r)
    ensures Stuck(g, units, n)
  {
    hide Precedes, PredecessorClosed, Stuck;
    var w := BackwardWalk(g, units, r, n, |r|);
    if NoDuplicates(w) {
      NoDuplicatesBound(w, r);
    }
    var i, j :| 0 <= i < j < |w| && w[i] == w[j];
    RepeatIsStuck(g, units, w, i, j);
  }

  /** A walk that visits a unit twice ends downstream of a cycle. */
  lemma RepeatIsStuck(g: GraphView, units: seq<UnitName>, w: seq<UnitName>, i: nat, j: nat)
    requires IsWalk(g, units, w) && i < j < |w| && w[i] == w[j]
    ensures Stuck(g, units, w[|w| - 1])
  {
    WalkSlice(g, units, w, i, j + 1);
    WalkSlice(g, units, w, i, |w|);
    hide IsWalk;
    var c, v := w[i..j + 1], w[i..|w|];
    assert IsCycle(g, units, c);
    assert v[0] == c[0] && v[|v| - 1] == w[|w| - 1];
  }

  lemma WalkSlice(g: GraphView, units: seq<UnitName>, w: seq<UnitName>, i: nat, j: nat)
    requires IsWalk(g, units, w) && i < j <= |w|
    ensures IsWalk(g, units, w[i..j]) && w[i..j][0] == w[i] && w[i..j][|w[i..j]| - 1] == w[j - 1]
  {
    hide Precedes;
    var v := w[i..j];
    assert forall k :: 0 <= k < |v| ==> v[k] == w[i + k];
    forall k | 0 < k < |v| ensures Precedes(g, units, v[k - 1], v[k]) {
      assert v[k - 1] == w[i + k - 1];
    }
  }

  lemma StuckMeansCycle(g: GraphView, units: seq<UnitName>)
    ensures HasCycle(g, units) <==> exists n :: n in units && Stuck(g, units, n)
  {
    if c :| IsCycle(g, units, c) {
      assert IsWalk(g, units, [c[0]]) && [c[0]][|[c[0]]| - 1] == c[0];
      assert Stuck(g, units, c[0]);
    }
  }

  lemma {:induction false} NoDuplicatesMultiset(s: seq<UnitName>)
    requires NoDuplicates(s)
    ensures forall x :: multiset(s)[x] == if x in s then 1 else 0
  {
    if s != [] {
      NoDuplicatesMultiset(s[1..]);
      assert s == [s[0]] + s[1..];
      assert s[0] !in s[1..];
    }
  }

  lemma SameMembersSameMultiset(a: seq<UnitName>, b: seq<UnitName>)
    requires NoDuplicates(a) && NoDuplicates(b)
    requires forall x :: x in a ==> x in b
    requires |a| == |b|
    ensures multiset(a) == multiset(b)
  {
    NoDuplicatesMultiset(a);
    NoDuplicatesMultiset(b);
    forall x ensures multiset(a)[x] == multiset(b)[x] {
      if x in b && x !in a {
        EmittedBound(b, a + [x]);
      }
    }
  }

  // ----- the three maps -----

  /** The scan of the adjacency lists, `i` units and `j` entries of the next one in, has
      met `link` on the list of `src`. */
  ghost predicate Met(g: GraphView, units: seq<UnitName>, i: nat, j: nat, src: UnitName, link: Link)
    requires i <= |units|
  {
    || (src in units[..i] && link in g.Outgoing(src))
    || (i < |units| && src == units[i] && j <= |g.Outgoing(src)| && link in g.Outgoing(src)[..j])
  }

  ghost predicate PredsAfter(g: GraphView, units: seq<UnitName>, i: nat, j: nat, preds: map<UnitName, set<UnitName>>)
    requires i <= |units|
  {
    && (forall u :: u in preds <==> u in units)
    && (forall p, u {:trigger p in preds[u]} :: u in units ==>
          (p in preds[u] <==>
            p in units && (Met(g, units, i, j, u, Link(After, p)) || Met(g, units, i, j, p, Link(Before, u)))))
  }

  ghost predicate ArePredecessors(g: GraphView, units: seq<UnitName>, preds: map<UnitName, set<UnitName>>) {
    && (forall u :: u in preds <==> u in units)
    && (forall p, u {:trigger p in preds[u]} :: u in units ==> (p in preds[u] <==> Precedes(g, units, p, u)))
  }

  /** The restricted predecessor map; edges to names outside `units` are ignored. */
  method Predecessors(graph: DepGraph, units: seq<UnitName>) returns (preds: map<UnitName, set<UnitName>>)
    ensures ArePredecessors(graph.View(), units, preds)
  {
    hide PredsAfter, ArePredecessors;
    ghost var g := graph.View();
    preds := map u | u in units :: {};
    PredsStart(g, units, preds);
    for i := 0 to |units|
      invariant PredsAfter(g, units, i, 0, preds)
    {
      var u := units[i];
      var links := LinksOf(graph.forward, u);
      for j := 0 to |links|
        invariant PredsAfter(g, units, i, j, preds)
      {
        PredsKeys(g, units, i, j, preds);
        PredsStep(g, units, i, j, preds);
        var Link(edge, other) := links[j];
        if other in units {
          match edge {
            case After => preds := preds[u := preds[u] + {other}];
            case Before => preds := preds[other := preds[other] + {u}];
            case _ =>
          }
        }
      }
      PredsNextUnit(g, units, i, preds);
    }
    PredsDone(g, units, preds);
  }

  /** The map after one more adjacency entry of `u`. */
  function PredsWith(units: seq<UnitName>, u: UnitName, link: Link, preds: map<UnitName, set<UnitName>>)
      : map<UnitName, set<UnitName>>
    requires u in preds && forall x :: x in units ==> x in preds
  {
    if link.unit !in units then preds
    else if link.edge == After then preds[u := preds[u] + {link.unit}]
    else if link.edge == Before then preds[link.unit := preds[link.unit] + {u}]
    else preds
  }

  lemma PredsStart(g: GraphView, units: seq<UnitName>, preds: map<UnitName, set<UnitName>>)
    requires preds == map u | u in units :: {}
    ensures PredsAfter(g, units, 0, 0, preds)
  {
  }

  lemma PredsKeys(g: GraphView, units: seq<UnitName>, i: nat, j: nat, preds: map<UnitName, set<UnitName>>)
    requires i <= |units| && PredsAfter(g, units, i, j, preds)
    ensures forall u :: u in preds <==> u in units
  {
    hide Met;
  }

  lemma PredsStep(g: GraphView, units: seq<UnitName>, i: nat, j: nat, preds: map<UnitName, set<UnitName>>)
    requires i < |units| && j < |g.Outgoing(units[i])| && PredsAfter(g, units, i, j, preds)
    ensures PredsAfter(g, units, i, j + 1, PredsWith(units, units[i], g.Outgoing(units[i])[j], preds))
  {
    hide Met, GraphView.Outgoing;
    var u, link := units[i], g.Outgoing(units[i])[j];
    var after := PredsWith(units, u, link, preds);
    forall p, v | v in units
      ensures p in after[v] <==>
        p in units && (Met(g, units, i, j + 1, v, Link(After, p)) || Met(g, units, i, j + 1, p, Link(Before, v)))
    {
      MetStep(g, units, i, j, v, Link(After, p));
      MetStep(g, units, i, j, p, Link(Before, v));
    }
  }

  lemma MetStep(g: GraphView, units: seq<UnitName>, i: nat, j: nat, src: UnitName, link: Link)
    requires i < |units| && j < |g.Outgoing(units[i])|
    ensures Met(g, units, i, j + 1, src, link) <==>
      Met(g, units, i, j, src, link) || (src == units[i] && link == g.Outgoing(units[i])[j])
  {
    var links := g.Outgoing(units[i]);
    assert links[..j + 1] == links[..j] + [links[j]];
    hide GraphView.Outgoing;
  }

  lemma PredsNextUnit(g: GraphView, units: seq<UnitName>, i: nat, preds: map<UnitName, set<UnitName>>)
    requires i < |units| && PredsAfter(g, units, i, |g.Outgoing(units[i])|, preds)
    ensures PredsAfter(g, units, i + 1, 0, preds)
  {
    hide Met, GraphView.Outgoing;
    forall src, link
      ensures Met(g, units, i + 1, 0, src, link) <==> Met(g, units, i, |g.Outgoing(units[i])|, src, link)
    {
      MetNextUnit(g, units, i, src, link);
    }
  }

  lemma MetNextUnit(g: GraphView, units: seq<UnitName>, i: nat, src: UnitName, link: Link)
    requires i < |units|
    ensures Met(g, units, i + 1, 0, src, link) <==> Met(g, units, i, |g.Outgoing(units[i])|, src, link)
  {
    var links := g.Outgoing(units[i]);
    assert links[..|links|] == links;
    assert units[..i + 1] == units[..i] + [units[i]];
    hide GraphView.Outgoing;
  }

  lemma PredsDone(g: GraphView, units: seq<UnitName>, preds: map<UnitName, set<UnitName>>)
    requires PredsAfter(g, units, |units|, 0, preds)
    ensures ArePredecessors(g, units, preds)
  {
    assert units[..|units|] == units;
  }

  ghost predicate AreSuccessors(units: seq<UnitName>, preds: map<UnitName, set<UnitName>>,
                                succs: map<UnitName, seq<UnitName>>)
    requires forall u :: u in units ==> u in preds
  {
    && (forall p :: p in succs ==> NoDuplicates(succs[p]))
    && (forall p, u {:trigger u in succs[p]} :: p in succs && u in succs[p] ==> u in units && p in preds[u])
    && (forall p, u {:trigger p in preds[u]} :: u in units && p in preds[u] ==> p in succs && u in succs[p])
  }

  /** The same relation turned round, for decrementing. */
  method Successors(units: seq<UnitName>, preds: map<UnitName, set<UnitName>>)
      returns (succs: map<UnitName, seq<UnitName>>)
    requires NoDuplicates(units)
    requires forall u :: u in units <==> u in preds
    ensures AreSuccessors(units, preds, succs)
  {
    succs := map[];
    for i := 0 to |units|
      invariant AreSuccessors(units[..i], preds, succs)
    {
      var node := units[i];
      assert node !in units[..i];
      var todo := preds[node];
      while todo != {}
        invariant todo <= preds[node]
        invariant forall p :: p in succs ==> NoDuplicates(succs[p])
        invariant forall p, u {:trigger u in succs[p]} :: p in succs && u in succs[p] ==>
          (u in units[..i] && p in preds[u]) || (u == node && p in preds[node] - todo)
        invariant forall p, u {:trigger p in preds[u]} :: u in units[..i] && p in preds[u] ==>
          p in succs && u in succs[p]
        invariant forall p :: p in preds[node] - todo ==> p in succs && node in succs[p]
      {
        var p :| p in todo;
        assert p in succs ==> node !in succs[p] && NoDuplicates(succs[p] + [node]);
        succs := succs[p := (if p in succs then succs[p] else []) + [node]];
        todo := todo - {p};
      }
      assert units[..i + 1] == units[..i] + [node];
    }
    assert units[..|units|] == units;
  }

  // ----- the queue -----

  ghost function Members(s: seq<UnitName>): set<UnitName> { set x | x in s }

  /** How many of `ps` are not done yet. */
  ghost function Unmet(ps: set<UnitName>, done: set<UnitName>): nat { |ps - done| }

  /** Every count is the number of unmet predecessors, except that the units in `lag` have
      not been told about `last` yet. */
  ghost predicate Counted(units: seq<UnitName>, preds: map<UnitName, set<UnitName>>, indeg: map<UnitName, nat>,
                          done: set<UnitName>, last: UnitName, lag: set<UnitName>) {
    && (forall u :: u in units <==> u in preds)
    && (forall u :: u in units <==> u in indeg)
    && (forall u :: u in units && u !in lag ==> indeg[u] == Unmet(preds[u], done))
    && (forall u :: u in lag ==> u in units && last in preds[u] && indeg[u] == Unmet(preds[u], done - {last}))
  }

  /** Emitted and queued units are distinct, and they are exactly those with count zero. */
  ghost predicate Queued(units: seq<UnitName>, indeg: map<UnitName, nat>, ready: seq<UnitName>, out: seq<UnitName>) {
    && (forall u :: u in units <==> u in indeg)
    && NoDuplicates(out) && NoDuplicates(ready)
    && (forall u :: u in ready ==> u !in out)
    && (forall u :: u in out || u in ready <==> u in units && indeg[u] == 0)
  }

  /** Everyone was emitted after all of its predecessors. */
  ghost predicate Ordered(preds: map<UnitName, set<UnitName>>, out: seq<UnitName>) {
    forall j, p :: 0 <= j < |out| && out[j] in preds && p in preds[out[j]] ==> p in out[..j]
  }

  ghost predicate Exact(units: seq<UnitName>, preds: map<UnitName, set<UnitName>>, indeg: map<UnitName, nat>,
                        done: set<UnitName>) {
    && (forall u :: u in units <==> u in preds)
    && (forall u :: u in units <==> u in indeg)
    && (forall u :: u in units ==> indeg[u] == Unmet(preds[u], done))
  }

  /** The count of a lagging unit is positive, so the saturating subtraction never saturates. */
  lemma Decrement(units: seq<UnitName>, preds: map<UnitName, set<UnitName>>, indeg: map<UnitName, nat>,
                  done: set<UnitName>, last: UnitName, lag: set<UnitName>, s: UnitName)
    requires last in done && s in lag && Counted(units, preds, indeg, done, last, lag)
    ensures indeg[s] > 0
    ensures Counted(units, preds, indeg[s := indeg[s] - 1], done, last, lag - {s})
  {
    assert preds[s] - done == (preds[s] - (done - {last})) - {last};
  }

  /** Emitting `u`: everyone that waits for it now lags. */
  lemma Emit(units: seq<UnitName>, preds: map<UnitName, set<UnitName>>, indeg: map<UnitName, nat>,
             done: set<UnitName>, u: UnitName, lag: set<UnitName>)
    requires u !in done && Exact(units, preds, indeg, done)
    requires forall x :: x in lag <==> x in units && u in preds[x]
    ensures Counted(units, preds, indeg, done + {u}, u, lag)
  {
    assert done + {u} - {u} == done;
    forall x | x in units && x !in lag ensures Unmet(preds[x], done + {u}) == Unmet(preds[x], done) {
      assert preds[x] - (done + {u}) == preds[x] - done;
    }
  }

  lemma PopQueued(units: seq<UnitName>, indeg: map<UnitName, nat>, ready: seq<UnitName>, out: seq<UnitName>)
    requires ready != [] && Queued(units, indeg, ready, out)
    ensures Queued(units, indeg, ready[1..], out + [ready[0]])
    ensures ready[0] !in out && ready[0] in units && indeg[ready[0]] == 0 && |out| < |units|
  {
    var u, rest := ready[0], ready[1..];
    assert ready == [u] + rest && u in ready;
    assert u !in rest by {
      assert forall i :: 0 <= i < |rest| ==> rest[i] == ready[i + 1];
    }
    assert NoDuplicates(rest);
    assert NoDuplicates(out + [u]);
    EmittedBound(units, out + [u]);
  }

  lemma PopOrdered(preds: map<UnitName, set<UnitName>>, out: seq<UnitName>, u: UnitName)
    requires Ordered(preds, out) && u in preds && Unmet(preds[u], Members(out)) == 0
    ensures Ordered(preds, out + [u]) && Members(out + [u]) == Members(out) + {u}
  {
    var out' := out + [u];
    assert preds[u] - Members(out) == {};
    forall j, p | 0 <= j < |out'| && out'[j] in preds && p in preds[out'[j]] ensures p in out'[..j] {
      if j < |out| {
        assert out'[j] == out[j] && out'[..j] == out[..j];
      } else {
        assert out'[..j] == out;
        assert p !in preds[u] - Members(out);
      }
    }
  }

  lemma PopReady(units: seq<UnitName>, preds: map<UnitName, set<UnitName>>, indeg: map<UnitName, nat>,
                 ready: seq<UnitName>, out: seq<UnitName>)
    requires ready != [] && Queued(units, indeg, ready, out) && Ordered(preds, out)
    requires Exact(units, preds, indeg, Members(out))
    ensures Queued(units, indeg, ready[1..], out + [ready[0]]) && Ordered(preds, out + [ready[0]])
    ensures Members(out + [ready[0]]) == Members(out) + {ready[0]}
    ensures ready[0] !in Members(out) && |out| < |units|
  {
    hide Queued, Ordered, Unmet;
    PopQueued(units, indeg, ready, out);
    PopOrdered(preds, out, ready[0]);
  }

  lemma EmittedBound(units: seq<UnitName>, out: seq<UnitName>)
    requires NoDuplicates(out) && forall u :: u in out ==> u in units
    ensures |out| <= |units|
  {
    NoDuplicatesBound(out, Members(units));
    MembersBound(units);
  }

  lemma {:induction false} MembersBound(s: seq<UnitName>)
    ensures |Members(s)| <= |s|
  {
    if s != [] {
      MembersBound(s[1..]);
      assert Members(s) == {s[0]} + Members(s[1..]);
    }
  }

  lemma QueueStep(units: seq<UnitName>, indeg: map<UnitName, nat>, ready: seq<UnitName>, out: seq<UnitName>,
                  s: UnitName)
    requires Queued(units, indeg, ready, out) && s in units && indeg[s] > 0
    ensures Queued(units, indeg[s := indeg[s] - 1], if indeg[s] == 1 then ready + [s] else ready, out)
  {
    assert s !in out && s !in ready;
    assert NoDuplicates(ready + [s]);
  }

  lemma CountedKeys(units: seq<UnitName>, preds: map<UnitName, set<UnitName>>, indeg: map<UnitName, nat>,
                    done: set<UnitName>, last: UnitName, lag: set<UnitName>)
    requires Counted(units, preds, indeg, done, last, lag)
    ensures forall u :: u in lag ==> u in units && u in indeg
  {
  }

  lemma TailMembers(ss: seq<UnitName>, k: nat)
    requires NoDuplicates(ss) && k < |ss|
    ensures ss[k] in Members(ss[k..]) && Members(ss[k..]) - {ss[k]} == Members(ss[k + 1..])
  {
    var rest := ss[k + 1..];
    assert ss[k..] == [ss[k]] + rest;
    forall i | 0 <= i < |rest| ensures rest[i] != ss[k] {
      assert rest[i] == ss[k + 1 + i];
    }
  }

  /** The mutable state of the queue loop: the counts and the units ready to go. */
  datatype Queue = Queue(indeg: map<UnitName, nat>, ready: seq<UnitName>)

  /** Decrements each successor in turn, saturating at zero, and queues those that reach zero. */
  function NotifyAll(ss: seq<UnitName>, q: Queue): Queue {
    if ss == [] then q
    else if ss[0] !in q.indeg then NotifyAll(ss[1..], q)
    else
      var d := if q.indeg[ss[0]] == 0 then 0 else q.indeg[ss[0]] - 1;
      NotifyAll(ss[1..], Queue(q.indeg[ss[0] := d], if d == 0 then q.ready + [ss[0]] else q.ready))
  }

  /** Tells the successors of the unit just emitted, queueing those it was the last to hold back. */
  method Notify(units: seq<UnitName>, ghost preds: map<UnitName, set<UnitName>>, ss: seq<UnitName>,
                ghost last: UnitName, indeg0: map<UnitName, nat>, ready0: seq<UnitName>, ghost out: seq<UnitName>)
      returns (indeg: map<UnitName, nat>, ready: seq<UnitName>)
    requires NoDuplicates(ss) && last in out
    requires Counted(units, preds, indeg0, Members(out), last, Members(ss)) && Queued(units, indeg0, ready0, out)
    ensures Exact(units, preds, indeg, Members(out)) && Queued(units, indeg, ready, out)
    ensures Queue(indeg, ready) == NotifyAll(ss, Queue(indeg0, ready0))
  {
    hide Queued, Unmet, Counted;
    indeg, ready := indeg0, ready0;
    assert ss[0..] == ss;
    for k := 0 to |ss|
      invariant Counted(units, preds, indeg, Members(out), last, Members(ss[k..])) && Queued(units, indeg, ready, out)
      invariant NotifyAll(ss[k..], Queue(indeg, ready)) == NotifyAll(ss, Queue(indeg0, ready0))
    {
      var s := ss[k];
      assert ss[k..][0] == s && ss[k..][1..] == ss[k + 1..];
      CountedKeys(units, preds, indeg, Members(out), last, Members(ss[k..]));
      TailMembers(ss, k);
      Decrement(units, preds, indeg, Members(out), last, Members(ss[k..]), s);
      QueueStep(units, indeg, ready, out, s);
      var d := if indeg[s] == 0 then 0 else indeg[s] - 1;
      indeg := indeg[s := d];
      if d == 0 {
        ready := ready + [s];
      }
    }
    assert ss[|ss|..] == [] && Members(ss[|ss|..]) == {};
    NoLag(units, preds, indeg, Members(out), last);
  }

  lemma NoLag(units: seq<UnitName>, preds: map<UnitName, set<UnitName>>, indeg: map<UnitName, nat>, done: set<UnitName>,
              last: UnitName)
    ensures Counted(units, preds, indeg, done, last, {}) <==> Exact(units, preds, indeg, done)
  {
  }

  /** The counts before anything is emitted, and the units that can start at once, in input order. */
  method Initial(units: seq<UnitName>, preds: map<UnitName, set<UnitName>>)
      returns (indeg: map<UnitName, nat>, ready: seq<UnitName>)
    requires NoDuplicates(units)
    requires forall u :: u in units <==> u in preds
    ensures Exact(units, preds, indeg, {}) && Queued(units, indeg, ready, [])
  {
    indeg := map u | u in preds :: |preds[u]|;
    ready := [];
    for i := 0 to |units|
      invariant NoDuplicates(ready)
      invariant forall u :: u in ready <==> u in units[..i] && indeg[u] == 0
    {
      assert units[i] !in units[..i];
      if indeg[units[i]] == 0 {
        ready := ready + [units[i]];
      }
      assert units[..i + 1] == units[..i] + [units[i]];
    }
    assert units[..|units|] == units;
    forall u | u in units ensures Unmet(preds[u], {}) == |preds[u]| {
      assert preds[u] - {} == preds[u];
    }
  }

  /** The queue runs dry: what was emitted is in order, and everyone else still waits. */
  method Drain(units: seq<UnitName>, preds: map<UnitName, set<UnitName>>, succs: map<UnitName, seq<UnitName>>)
      returns (indeg: map<UnitName, nat>, out: seq<UnitName>)
    requires NoDuplicates(units)
    requires forall u :: u in units <==> u in preds
    requires AreSuccessors(units, preds, succs)
    ensures Exact(units, preds, indeg, Members(out))
    ensures Queued(units, indeg, [], out) && Ordered(preds, out)
  {
    var ready;
    indeg, ready := Initial(units, preds);
    out := [];
    assert Members(out) == {};
    while ready != []
      invariant Exact(units, preds, indeg, Members(out))
      invariant Queued(units, indeg, ready, out) && Ordered(preds, out)
      decreases |units| - |out|
    {
      hide Counted, Queued, Ordered, Unmet, Exact;
      var u := ready[0];
      PopReady(units, preds, indeg, ready, out);
      ghost var lag := set x | x in units && u in preds[x];
      Emit(units, preds, indeg, Members(out), u, lag);
      SuccessorsLag(units, preds, succs, u, lag);
      ready := ready[1..];
      out := out + [u];
      if u in succs {
        indeg, ready := Notify(units, preds, succs[u], u, indeg, ready, out);
      } else {
        NoLag(units, preds, indeg, Members(out), u);
      }
    }
  }

  lemma SuccessorsLag(units: seq<UnitName>, preds: map<UnitName, set<UnitName>>, succs: map<UnitName, seq<UnitName>>,
                      u: UnitName, lag: set<UnitName>)
    requires forall u :: u in units ==> u in preds
    requires AreSuccessors(units, preds, succs)
    requires forall x :: x in lag <==> x in units && u in preds[x]
    ensures u in succs ==> NoDuplicates(succs[u])
    ensures lag == if u in succs then Members(succs[u]) else {}
  {
  }

  lemma DrainedIsEmitted(g: GraphView, units: seq<UnitName>, preds: map<UnitName, set<UnitName>>,
                         indeg: map<UnitName, nat>, out: seq<UnitName>)
    requires ArePredecessors(g, units, preds)
    requires Queued(units, indeg, [], out) && Ordered(preds, out)
    ensures Emitted(g, units, out)
  {
    hide Precedes;
    forall j, p | 0 <= j < |out| && Precedes(g, units, p, out[j]) ensures p in out[..j] {
      assert out[j] in out;
      assert p in preds[out[j]];
    }
  }

  lemma UndrainedIsClosed(g: GraphView, units: seq<UnitName>, preds: map<UnitName, set<UnitName>>,
                          indeg: map<UnitName, nat>, out: seq<UnitName>, r: set<UnitName>)
    requires ArePredecessors(g, units, preds) && Exact(units, preds, indeg, Members(out))
    requires Queued(units, indeg, [], out)
    requires forall u :: u in r <==> u in units && u !in out
    ensures PredecessorClosed(g, units, r)
  {
    forall u | u in r ensures HasPredecessorIn(g, units, r, u) {
      assert |preds[u] - Members(out)| > 0;
      var p :| p in preds[u] - Members(out);
      assert Precedes(g, units, p, u);
      hide Precedes;
    }
  }

  /** Whoever was not emitted is stuck, and the emitted units form a closed emission. */
  lemma DryQueue(g: GraphView, units: seq<UnitName>, preds: map<UnitName, set<UnitName>>, indeg: map<UnitName, nat>,
                 out: seq<UnitName>)
    requires ArePredecessors(g, units, preds) && Exact(units, preds, indeg, Members(out))
    requires Queued(units, indeg, [], out) && Ordered(preds, out)
    ensures Emitted(g, units, out)
    ensures forall u :: u in units ==> (indeg[u] > 0 <==> Stuck(g, units, u))
  {
    hide Stuck, PredecessorClosed, Emitted, ArePredecessors, Ordered;
    DrainedIsEmitted(g, units, preds, indeg, out);
    var r := set u | u in units && u !in out;
    UndrainedIsClosed(g, units, preds, indeg, out, r);
    forall u | u in units ensures indeg[u] > 0 <==> Stuck(g, units, u) {
      if u in out {
        EmittedIsNotStuck(g, units, out, u);
      } else {
        PredecessorClosedIsStuck(g, units, r, u);
      }
    }
  }

  /** Sorts `units` by the ordering edges among them, or names the first unit, in input
      order, that is on or downstream of an ordering cycle. */
  method TopoOrder(graph: DepGraph, units: seq<UnitName>) returns (r: Result<seq<UnitName>, UnitName>)
    requires NoDuplicates(units)
    ensures r.Ok? <==> !HasCycle(graph.View(), units)
    ensures r.Ok? ==> IsStartOrder(graph.View(), units, r.value)
    ensures r.Err? ==> FirstStuck(graph.View(), units, r.error)
  {
    hide Precedes, Stuck, HasCycle, FirstStuck, IsStartOrder, Exact, Queued, Ordered, ArePredecessors, AreSuccessors;
    ghost var g := graph.View();
    var preds := Predecessors(graph, units);
    PredecessorKeys(g, units, preds);
    var succs := Successors(units, preds);
    var indeg, out := Drain(units, preds, succs);
    DrainedOutcome(g, units, preds, indeg, out);
    if |out| != |units| {
      var n := FirstWaiting(g, units, indeg);
      return Err(n);
    }
    return Ok(out);
  }

  lemma PredecessorKeys(g: GraphView, units: seq<UnitName>, preds: map<UnitName, set<UnitName>>)
    requires ArePredecessors(g, units, preds)
    ensures forall u :: u in units <==> u in preds
  {
  }

  /** The first unit, in input order, whose count is still positive. */
  method FirstWaiting(ghost g: GraphView, units: seq<UnitName>, indeg: map<UnitName, nat>) returns (n: UnitName)
    requires forall u :: u in units ==> u in indeg && (indeg[u] > 0 <==> Stuck(g, units, u))
    requires exists u :: u in units && indeg[u] > 0
    ensures FirstStuck(g, units, n)
  {
    hide Stuck;
    ghost var u :| u in units && indeg[u] > 0;
    var i := 0;
    while indeg[units[i]] == 0
      invariant i < |units| && u in units[i..]
      invariant forall j :: 0 <= j < i ==> !Stuck(g, units, units[j])
      decreases |units| - i
    {
      assert units[i..] == [units[i]] + units[i + 1..];
      i := i + 1;
    }
    n := units[i];
  }

  /** Everything was emitted in order and there is no cycle, or someone is still waiting. */
  lemma DrainedOutcome(g: GraphView, units: seq<UnitName>, preds: map<UnitName, set<UnitName>>,
                       indeg: map<UnitName, nat>, out: seq<UnitName>)
    requires NoDuplicates(units)
    requires ArePredecessors(g, units, preds) && Exact(units, preds, indeg, Members(out))
    requires Queued(units, indeg, [], out) && Ordered(preds, out)
    ensures forall u :: u in units ==> u in indeg && (indeg[u] > 0 <==> Stuck(g, units, u))
    ensures |out| == |units| ==> IsStartOrder(g, units, out) && !HasCycle(g, units)
    ensures |out| != |units| ==> HasCycle(g, units) && exists u :: u in units && indeg[u] > 0
  {
    hide Precedes, Stuck, HasCycle, IsStartOrder, Exact, ArePredecessors, Ordered, Emitted;
    DryQueue(g, units, preds, indeg, out);
    StuckMeansCycle(g, units);
    if |out| == |units| {
      SameMembersSameMultiset(out, units);
      StartOrder(g, units, out);
      forall n | n in units ensures n in out {
        assert n in multiset(units);
      }
    } else {
      if forall u :: u in units ==> indeg[u] == 0 {
        EmittedBound(units, out);
        EmittedBound(out, units);
        assert false;
      }
    }
  }

  lemma StartOrderMembers(g: GraphView, units: seq<UnitName>, order: seq<UnitName>)
    requires IsStartOrder(g, units, order)
    ensures |order| == |units| && forall u :: u in order <==> u in units
  {
    assert |multiset(order)| == |order|;
    forall u ensures u in order <==> u in units {
      assert u in order <==> u in multiset(order);
    }
  }

  lemma StartOrder(g: GraphView, units: seq<UnitName>, out: seq<UnitName>)
    requires Emitted(g, units, out) && multiset(out) == multiset(units)
    ensures IsStartOrder(g, units, out)
  {
    forall i, j | 0 <= i < |out| && 0 <= j < |out| && Precedes(g, units, out[i], out[j]) ensures i < j {
      var k :| 0 <= k < j && out[k] == out[i];
    }
  }

  // ----- what the error does not promise -----

  /** The unit named by a failure need not be on a cycle: here `c` must run after `a`, and `a` and
      `b` wait for each other. */
  lemma ErrorMayBeDownstream(a: UnitName, b: UnitName, c: UnitName)
    requires a != b && b != c && a != c
    ensures var g := GraphOf([(a, After, b), (b, After, a), (c, After, a)]);
      g.Valid() && FirstStuck(g, [c, a, b], c) && forall w :: IsCycle(g, [c, a, b], w) ==> c !in w
  {
    hide GraphView.Valid, GraphOf, FirstStuck, IsCycle;
    var edges := [(a, After, b), (b, After, a), (c, After, a)];
    var g := GraphOf(edges);
    GraphOfHas(edges);
    assert forall p, u :: MustPrecede(g, p, u) <==> (u, After, p) in edges;
    assert edges[0] in edges && edges[1] in edges && edges[2] in edges;
    NothingWaitsForIt(g, a, b, c);
  }

  lemma NothingWaitsForIt(g: GraphView, a: UnitName, b: UnitName, c: UnitName)
    requires MustPrecede(g, a, b) && MustPrecede(g, b, a) && MustPrecede(g, a, c)
    requires forall u :: !MustPrecede(g, c, u)
    ensures FirstStuck(g, [c, a, b], c) && forall w :: IsCycle(g, [c, a, b], w) ==> c !in w
  {
    var units := [c, a, b];
    assert IsCycle(g, units, [a, b, a]);
    assert IsWalk(g, units, [a, c]) && [a, c][0] == [a, b, a][0] && [a, c][|[a, c]| - 1] == c;
    assert Stuck(g, units, units[0]);
    forall w | IsCycle(g, units, w) && c in w ensures false {
      CycleGoesOn(g, units, w, c);
    }
  }

  lemma CycleGoesOn(g: GraphView, units: seq<UnitName>, w: seq<UnitName>, c: UnitName)
    requires IsCycle(g, units, w) && c in w
    ensures exists u :: MustPrecede(g, c, u)
  {
    var i :| 0 <= i < |w| && w[i] == c;
    var k := if i == |w| - 1 then 1 else i + 1;
    assert Precedes(g, units, w[k - 1], w[k]);
  }
}
