/** What the queue loop of the topological sort does with an input that repeats names. */
module Repeats {
  import opened Wrappers
  import opened UnitNames
  import opened DepGraphs
  import opened TopoSort

  // ----- the loop, on any input -----

  /** The units that can start at once, in input order and as often as they occur there. */
  function Ready(units: seq<UnitName>, indeg: map<UnitName, nat>): seq<UnitName> {
    if units == [] then []
    else (if units[0] in indeg && indeg[units[0]] == 0 then [units[0]] else []) + Ready(units[1..], indeg)
  }

  /** The state in which the loop starts on `units`. */
  ghost predicate IsStart(g: GraphView, units: seq<UnitName>, preds: map<UnitName, set<UnitName>>,
                          succs: map<UnitName, seq<UnitName>>, q: Queue) {
    && ArePredecessors(g, units, preds) && AreSuccessors(units, preds, succs)
    && q.indeg == (map u | u in preds :: |preds[u]|) && q.ready == Ready(units, q.indeg)
  }

  /** One turn of the loop, and `n` of them. */
  function Turn(succs: map<UnitName, seq<UnitName>>, q: Queue): Queue {
    if q.ready == [] then q
    else NotifyAll(if q.ready[0] in succs then succs[q.ready[0]] else [], Queue(q.indeg, q.ready[1..]))
  }

  function Turns(succs: map<UnitName, seq<UnitName>>, q: Queue, n: nat): Queue
    decreases n
  {
    if n == 0 then q else Turns(succs, Turn(succs, q), n - 1)
  }

  /** What `n` turns emit. */
  function Popped(succs: map<UnitName, seq<UnitName>>, q: Queue, n: nat): seq<UnitName>
    decreases n
  {
    if n == 0 || q.ready == [] then [] else [q.ready[0]] + Popped(succs, Turn(succs, q), n - 1)
  }

  // ----- on an acyclic input it stops -----

  /** An order of the members of `s` in which every ordering edge points forward. */
  ghost predicate Forward(g: GraphView, units: seq<UnitName>, order: seq<UnitName>) {
    && NoDuplicates(order)
    && forall i, j :: 0 <= i < |order| && 0 <= j < |order| && Precedes(g, units, order[i], order[j]) ==> i < j
  }

  lemma {:induction false} AcyclicOrder(g: GraphView, units: seq<UnitName>, s: set<UnitName>)
      returns (order: seq<UnitName>)
    requires !HasCycle(g, units) && forall u :: u in s ==> u in units
    ensures Forward(g, units, order) && forall u :: u in order <==> u in s
    decreases |s|
  {
    hide Precedes, HasCycle;
    if s == {} {
      order := [];
    } else {
      var u := Source(g, units, s);
      var rest := AcyclicOrder(g, units, s - {u});
      order := [u] + rest;
      forall i, j | 0 <= i < |order| && 0 <= j < |order| && Precedes(g, units, order[i], order[j]) ensures i < j {
        assert order[i] in order && order[i] in s;
      }
    }
  }

  /** Some member waits for no other member. */
  lemma Source(g: GraphView, units: seq<UnitName>, s: set<UnitName>) returns (u: UnitName)
    requires !HasCycle(g, units) && s != {} && forall x :: x in s ==> x in units
    ensures u in s && forall p :: p in s ==> !Precedes(g, units, p, u)
  {
    hide Precedes, HasCycle, Stuck;
    if PredecessorClosed(g, units, s) {
      var n :| n in s;
      PredecessorClosedIsStuck(g, units, s, n);
      StuckMeansCycle(g, units);
    }
    u :| u in s && !HasPredecessorIn(g, units, s, u);
  }

  type Weights = map<UnitName, nat>

  function Total(w: Weights, us: seq<UnitName>): nat {
    if us == [] then 0 else (if us[0] in w then w[us[0]] else 0) + Total(w, us[1..])
  }

  /** Each unit outweighs its successors together. */
  ghost predicate Outweighs(w: Weights, succs: map<UnitName, seq<UnitName>>, us: set<UnitName>) {
    forall u :: u in us ==> u in w && w[u] >= 1 + Total(w, if u in succs then succs[u] else [])
  }

  lemma {:induction false} TotalSame(w: Weights, w': Weights, us: seq<UnitName>)
    requires forall u :: u in us ==> u in w && u in w' && w[u] == w'[u]
    ensures Total(w, us) == Total(w', us)
  {
    if us != [] {
      assert us[0] in us && forall u :: u in us[1..] ==> u in us;
      TotalSame(w, w', us[1..]);
    }
  }

  lemma {:induction false} TotalAppend(w: Weights, a: seq<UnitName>, b: seq<UnitName>)
    ensures Total(w, a + b) == Total(w, a) + Total(w, b)
  {
    if a == [] {
      assert a + b == b;
    } else {
      assert (a + b)[0] == a[0] && (a + b)[1..] == a[1..] + b;
      TotalAppend(w, a[1..], b);
    }
  }

  /** Weights for a forward order, from its end. */
  lemma {:induction false} SomeWeights(g: GraphView, units: seq<UnitName>, preds: map<UnitName, set<UnitName>>,
                                       succs: map<UnitName, seq<UnitName>>, order: seq<UnitName>, from0: nat)
      returns (w: Weights)
    requires ArePredecessors(g, units, preds) && AreSuccessors(units, preds, succs)
    requires Forward(g, units, order) && (forall u :: u in units ==> u in order) && from0 <= |order|
    ensures w.Keys == set u | u in order[from0..]
    ensures Outweighs(w, succs, w.Keys)
    decreases |order| - from0
  {
    hide Precedes;
    if from0 == |order| {
      w := map[];
    } else {
      var u := order[from0];
      var w' := SomeWeights(g, units, preds, succs, order, from0 + 1);
      assert order[from0..] == [u] + order[from0 + 1..];
      var ss := if u in succs then succs[u] else [];
      w := w'[u := 1 + Total(w', ss)];
      SuccessorsLater(g, units, preds, succs, order, from0);
      TotalSame(w', w, ss);
      forall x | x in w.Keys ensures w[x] >= 1 + Total(w, if x in succs then succs[x] else []) {
        if x != u {
          var i :| from0 < i < |order| && order[i] == x;
          SuccessorsLater(g, units, preds, succs, order, i);
          TotalSame(w', w, if x in succs then succs[x] else []);
        }
      }
    }
  }

  /** Successors stand later in a forward order. */
  lemma SuccessorsLater(g: GraphView, units: seq<UnitName>, preds: map<UnitName, set<UnitName>>,
                        succs: map<UnitName, seq<UnitName>>, order: seq<UnitName>, i: nat)
    requires ArePredecessors(g, units, preds) && AreSuccessors(units, preds, succs)
    requires Forward(g, units, order) && (forall u :: u in units ==> u in order) && i < |order|
    ensures forall s :: order[i] in succs && s in succs[order[i]] ==> s in order[i + 1..]
  {
    forall s | order[i] in succs && s in succs[order[i]] ensures s in order[i + 1..] {
      assert order[i] in preds[s] && Precedes(g, units, order[i], s);
      var j :| 0 <= j < |order| && order[j] == s;
      assert order[i + 1..][j - i - 1] == s;
    }
  }

  lemma {:induction false} NotifyWeight(w: Weights, ss: seq<UnitName>, q: Queue)
    ensures Total(w, NotifyAll(ss, q).ready) <= Total(w, q.ready) + Total(w, ss)
    ensures forall u :: u in NotifyAll(ss, q).ready ==> u in q.ready || u in ss
    decreases |ss|
  {
    if ss != [] {
      if ss[0] !in q.indeg {
        NotifyWeight(w, ss[1..], q);
      } else {
        var d := if q.indeg[ss[0]] == 0 then 0 else q.indeg[ss[0]] - 1;
        var q' := Queue(q.indeg[ss[0] := d], if d == 0 then q.ready + [ss[0]] else q.ready);
        TotalAppend(w, q.ready, [ss[0]]);
        NotifyWeight(w, ss[1..], q');
      }
    }
  }

  /** The weight of the queue bounds the number of turns. */
  lemma {:induction false} WeightRunsOut(w: Weights, succs: map<UnitName, seq<UnitName>>, us: set<UnitName>, q: Queue)
      returns (n: nat)
    requires Outweighs(w, succs, us) && (forall u :: u in q.ready ==> u in us)
    requires forall u, s :: u in succs && s in succs[u] ==> s in us
    ensures Turns(succs, q, n).ready == []
    decreases Total(w, q.ready)
  {
    hide Total;
    if q.ready == [] {
      n := 0;
    } else {
      var u := q.ready[0];
      var ss := if u in succs then succs[u] else [];
      var popped := Queue(q.indeg, q.ready[1..]);
      assert u in q.ready && forall x :: x in q.ready[1..] ==> x in q.ready;
      TotalCons(w, q.ready);
      NotifyWeight(w, ss, popped);
      var m := WeightRunsOut(w, succs, us, Turn(succs, q));
      n := m + 1;
    }
  }

  lemma TotalCons(w: Weights, us: seq<UnitName>)
    requires us != []
    ensures Total(w, us) == (if us[0] in w then w[us[0]] else 0) + Total(w, us[1..])
  {
  }

  lemma {:induction false} ReadyAreUnits(units: seq<UnitName>, indeg: map<UnitName, nat>)
    ensures forall u :: u in Ready(units, indeg) ==> u in units
  {
    if units != [] {
      ReadyAreUnits(units[1..], indeg);
      assert forall u :: u in units[1..] ==> u in units;
    }
  }

  /** Repeated names or not, the loop stops on every input without an ordering cycle. */
  lemma AcyclicStops(g: GraphView, units: seq<UnitName>, preds: map<UnitName, set<UnitName>>,
                     succs: map<UnitName, seq<UnitName>>, q: Queue)
      returns (n: nat)
    requires IsStart(g, units, preds, succs, q) && !HasCycle(g, units)
    ensures Turns(succs, q, n).ready == []
  {
    hide HasCycle, Precedes, Ready, Outweighs;
    var us := set u | u in units;
    var order := AcyclicOrder(g, units, us);
    var w := SomeWeights(g, units, preds, succs, order, 0);
    assert order[0..] == order && w.Keys == us;
    ReadyAreUnits(units, q.indeg);
    n := WeightRunsOut(w, succs, us, q);
  }

  // ----- how often each unit is emitted -----

  /** How many elements of `us` are in `ps`. */
  function Told(us: seq<UnitName>, ps: set<UnitName>): nat {
    if us == [] then 0 else Told(us[..|us| - 1], ps) + if us[|us| - 1] in ps then 1 else 0
  }

  lemma ToldSnoc(us: seq<UnitName>, u: UnitName, ps: set<UnitName>)
    ensures Told(us + [u], ps) == Told(us, ps) + if u in ps then 1 else 0
  {
    assert (us + [u])[..|us|] == us;
  }

  lemma {:induction false} ToldSplits(us: seq<UnitName>, ps: set<UnitName>, p: UnitName)
    requires p in ps
    ensures Told(us, ps) == Told(us, ps - {p}) + multiset(us)[p]
  {
    if us != [] {
      var n := |us| - 1;
      ToldSplits(us[..n], ps, p);
      assert us == us[..n] + [us[n]];
    }
  }

  lemma {:induction false} ToldNobody(us: seq<UnitName>)
    ensures Told(us, {}) == 0
  {
    if us != [] {
      ToldNobody(us[..|us| - 1]);
    }
  }

  lemma {:induction false} ToldCounts(a: seq<UnitName>, b: seq<UnitName>, ps: set<UnitName>)
    requires forall p :: p in ps ==> multiset(a)[p] == multiset(b)[p]
    ensures Told(a, ps) == Told(b, ps)
    decreases |ps|
  {
    hide Told;
    if ps == {} {
      ToldNobody(a);
      ToldNobody(b);
    } else {
      var p :| p in ps;
      ToldSplits(a, ps, p);
      ToldSplits(b, ps, p);
      ToldCounts(a, b, ps - {p});
    }
  }

  /** How often a unit has been queued, after `told` of its `k` predecessors' emissions. */
  function Queuings(k: nat, told: nat, copies: nat): nat {
    if k == 0 then copies else if told + 1 >= k then told + 1 - k else 0
  }

  ghost predicate TalliedAt(units: seq<UnitName>, preds: map<UnitName, set<UnitName>>, q: Queue, out: seq<UnitName>,
                            s: UnitName)
    requires s in preds && s in q.indeg
  {
    var k, told := |preds[s]|, Told(out, preds[s]);
    && q.indeg[s] == (if told >= k then 0 else k - told)
    && multiset(out)[s] + multiset(q.ready)[s] == Queuings(k, told, multiset(units)[s])
  }

  /** Counts and queue are what the emissions so far determine. */
  ghost predicate Tallied(units: seq<UnitName>, preds: map<UnitName, set<UnitName>>, q: Queue, out: seq<UnitName>) {
    && (forall u :: u in units <==> u in preds)
    && (forall u :: u in units <==> u in q.indeg)
    && (forall u :: u in q.ready || u in out ==> u in units)
    && (forall s :: s in units ==> TalliedAt(units, preds, q, out, s))
  }

  lemma {:induction false} ReadyCounts(units: seq<UnitName>, indeg: map<UnitName, nat>, s: UnitName)
    requires s in indeg
    ensures multiset(Ready(units, indeg))[s] == if indeg[s] == 0 then multiset(units)[s] else 0
  {
    if units != [] {
      ReadyCounts(units[1..], indeg, s);
      assert units == [units[0]] + units[1..];
    }
  }

  lemma StartTallied(g: GraphView, units: seq<UnitName>, preds: map<UnitName, set<UnitName>>,
                     succs: map<UnitName, seq<UnitName>>, q: Queue)
    requires IsStart(g, units, preds, succs, q)
    ensures Tallied(units, preds, q, [])
  {
    hide Precedes, Ready;
    ReadyAreUnits(units, q.indeg);
    forall s | s in units ensures TalliedAt(units, preds, q, [], s) {
      ReadyCounts(units, q.indeg, s);
    }
  }

  lemma {:induction false} NotifyCounts(ss: seq<UnitName>, q: Queue, s: UnitName)
    requires NoDuplicates(ss) && s in q.indeg
    ensures var q' := NotifyAll(ss, q);
      && q'.indeg.Keys == q.indeg.Keys
      && q'.indeg[s] == (if s in ss && q.indeg[s] > 0 then q.indeg[s] - 1 else q.indeg[s])
      && multiset(q'.ready)[s] == multiset(q.ready)[s] + if s in ss && q.indeg[s] <= 1 then 1 else 0
    decreases |ss|
  {
    if ss != [] {
      assert s in ss <==> s == ss[0] || s in ss[1..];
      assert ss[0] !in ss[1..];
      if ss[0] !in q.indeg {
        NotifyCounts(ss[1..], q, s);
      } else {
        var d := if q.indeg[ss[0]] == 0 then 0 else q.indeg[ss[0]] - 1;
        NotifyCounts(ss[1..], Queue(q.indeg[ss[0] := d], if d == 0 then q.ready + [ss[0]] else q.ready), s);
      }
    }
  }

  lemma TurnTalliesAt(units: seq<UnitName>, preds: map<UnitName, set<UnitName>>, succs: map<UnitName, seq<UnitName>>,
                      q: Queue, out: seq<UnitName>, s: UnitName)
    requires (forall u :: u in units ==> u in preds) && AreSuccessors(units, preds, succs)
    requires q.ready != [] && s in units && s in q.indeg && TalliedAt(units, preds, q, out, s)
    ensures s in Turn(succs, q).indeg && TalliedAt(units, preds, Turn(succs, q), out + [q.ready[0]], s)
  {
    hide Told, NotifyAll;
    var u := q.ready[0];
    var ss := if u in succs then succs[u] else [];
    NotifyCounts(ss, Queue(q.indeg, q.ready[1..]), s);
    assert s in ss <==> u in preds[s];
    ToldSnoc(out, u, preds[s]);
    assert q.ready == [u] + q.ready[1..];
  }

  lemma SuccessorsAreUnits(units: seq<UnitName>, preds: map<UnitName, set<UnitName>>,
                           succs: map<UnitName, seq<UnitName>>, u: UnitName)
    requires (forall u :: u in units ==> u in preds) && AreSuccessors(units, preds, succs)
    ensures u in succs ==> NoDuplicates(succs[u]) && forall s :: s in succs[u] ==> s in units
  {
    hide NoDuplicates;
  }

  lemma {:induction false} NotifyKeys(ss: seq<UnitName>, q: Queue)
    ensures NotifyAll(ss, q).indeg.Keys == q.indeg.Keys
    decreases |ss|
  {
    if ss != [] {
      if ss[0] !in q.indeg {
        NotifyKeys(ss[1..], q);
      } else {
        var d := if q.indeg[ss[0]] == 0 then 0 else q.indeg[ss[0]] - 1;
        NotifyKeys(ss[1..], Queue(q.indeg[ss[0] := d], if d == 0 then q.ready + [ss[0]] else q.ready));
      }
    }
  }

  lemma TurnUnits(units: seq<UnitName>, preds: map<UnitName, set<UnitName>>, succs: map<UnitName, seq<UnitName>>,
                  q: Queue)
    requires (forall u :: u in units ==> u in preds) && AreSuccessors(units, preds, succs) && q.ready != []
    requires forall u :: u in q.ready ==> u in units
    ensures Turn(succs, q).indeg.Keys == q.indeg.Keys && forall u :: u in Turn(succs, q).ready ==> u in units
  {
    hide NotifyAll, AreSuccessors;
    var u := q.ready[0];
    var ss := if u in succs then succs[u] else [];
    SuccessorsAreUnits(units, preds, succs, u);
    NotifyWeight(map[], ss, Queue(q.indeg, q.ready[1..]));
    NotifyKeys(ss, Queue(q.indeg, q.ready[1..]));
    assert forall x :: x in q.ready[1..] ==> x in q.ready;
  }

  lemma TurnTallies(units: seq<UnitName>, preds: map<UnitName, set<UnitName>>, succs: map<UnitName, seq<UnitName>>,
                    q: Queue, out: seq<UnitName>)
    requires Tallied(units, preds, q, out) && AreSuccessors(units, preds, succs) && q.ready != []
    ensures Tallied(units, preds, Turn(succs, q), out + [q.ready[0]])
  {
    hide Turn, TalliedAt, AreSuccessors;
    var u, q' := q.ready[0], Turn(succs, q);
    TurnUnits(units, preds, succs, q);
    assert u in q.ready;
    assert forall s :: s in q'.indeg <==> s in q'.indeg.Keys;
    forall s | s in units ensures TalliedAt(units, preds, q', out + [u], s) {
      TurnTalliesAt(units, preds, succs, q, out, s);
    }
  }

  lemma {:induction false} TurnsTally(units: seq<UnitName>, preds: map<UnitName, set<UnitName>>,
                                      succs: map<UnitName, seq<UnitName>>, q: Queue, out: seq<UnitName>, n: nat)
    requires Tallied(units, preds, q, out) && AreSuccessors(units, preds, succs)
    ensures Tallied(units, preds, Turns(succs, q, n), out + Popped(succs, q, n))
    decreases n
  {
    hide Tallied, NotifyAll;
    if n == 0 {
      assert out + [] == out;
    } else if q.ready == [] {
      Idle(succs, q, n);
      assert out + [] == out;
    } else {
      TurnTallies(units, preds, succs, q, out);
      TurnsTally(units, preds, succs, Turn(succs, q), out + [q.ready[0]], n - 1);
      assert out + [q.ready[0]] + Popped(succs, Turn(succs, q), n - 1) == out + Popped(succs, q, n);
    }
  }

  lemma {:induction false} Idle(succs: map<UnitName, seq<UnitName>>, q: Queue, n: nat)
    requires q.ready == []
    ensures Turns(succs, q, n) == q
  {
    if n > 0 {
      Idle(succs, q, n - 1);
    }
  }

  // ----- when repeats are harmless -----

  /** Every unit with predecessors occurs as often too many as its predecessors do together. */
  ghost predicate SurplusFlows(units: seq<UnitName>, preds: map<UnitName, set<UnitName>>)
    requires forall u :: u in units ==> u in preds
  {
    forall s :: s in units && preds[s] != {} ==> multiset(units)[s] - 1 == Told(units, preds[s]) - |preds[s]|
  }

  /** Once the loop has stopped, a unit was emitted as its predecessors' emissions determine. */
  lemma EmittedCount(units: seq<UnitName>, preds: map<UnitName, set<UnitName>>, q: Queue, out: seq<UnitName>,
                     s: UnitName)
    requires Tallied(units, preds, q, out) && q.ready == [] && s in units
    ensures multiset(out)[s] == Queuings(|preds[s]|, Told(out, preds[s]), multiset(units)[s])
  {
    hide Told;
    assert TalliedAt(units, preds, q, out, s);
  }

  lemma {:induction false} FlowDecidesCounts(g: GraphView, units: seq<UnitName>, preds: map<UnitName, set<UnitName>>,
                                             q: Queue, out: seq<UnitName>, order: seq<UnitName>, i: nat)
    requires Tallied(units, preds, q, out) && q.ready == [] && ArePredecessors(g, units, preds)
    requires Forward(g, units, order) && (forall u :: u in units <==> u in order) && SurplusFlows(units, preds)
      && i < |order|
    ensures multiset(out)[order[i]] == multiset(units)[order[i]]
    decreases i
  {
    hide Told, Precedes, Tallied;
    var s := order[i];
    assert s in units;
    forall p | p in preds[s] ensures multiset(out)[p] == multiset(units)[p] {
      assert Precedes(g, units, p, s);
      PrecedesAreUnits(g, units, p, s);
      var j :| 0 <= j < |order| && order[j] == p;
      FlowDecidesCounts(g, units, preds, q, out, order, j);
    }
    ToldCounts(out, units, preds[s]);
    EmittedCount(units, preds, q, out, s);
    assert multiset(units)[s] > 0;
    if preds[s] != {} {
      NonEmpty(preds[s]);
    }
  }

  lemma PrecedesAreUnits(g: GraphView, units: seq<UnitName>, p: UnitName, u: UnitName)
    requires Precedes(g, units, p, u)
    ensures p in units && u in units
  {
  }

  lemma NonEmpty(s: set<UnitName>)
    requires s != {}
    ensures |s| > 0
  {
    var x :| x in s;
    assert s == {x} + (s - {x});
  }

  /** On an input without cycles, the loop emits a rearrangement of the input exactly when surplus
      copies flow along the ordering edges: each unit with predecessors is repeated as often as
      all of them together. So repeating a unit without predecessors or successors is harmless, and repeating
      just one unit that has either is not. */
  lemma RepeatsHarmlessExactly(g: GraphView, units: seq<UnitName>, preds: map<UnitName, set<UnitName>>,
                               succs: map<UnitName, seq<UnitName>>, q: Queue, n: nat)
    requires IsStart(g, units, preds, succs, q) && !HasCycle(g, units) && Turns(succs, q, n).ready == []
    ensures multiset(Popped(succs, q, n)) == multiset(units) <==> SurplusFlows(units, preds)
  {
    hide HasCycle, Precedes, Told, Ready, NotifyAll, Tallied;
    var out, last := Popped(succs, q, n), Turns(succs, q, n);
    StartTallied(g, units, preds, succs, q);
    TurnsTally(units, preds, succs, q, [], n);
    assert [] + out == out;
    if SurplusFlows(units, preds) {
      var us := set u | u in units;
      var order := AcyclicOrder(g, units, us);
      assert forall u :: u in units <==> u in order;
      OutAreUnits(units, preds, last, out);
      forall u ensures multiset(out)[u] == multiset(units)[u] {
        if u in units {
          var i :| 0 <= i < |order| && order[i] == u;
          FlowDecidesCounts(g, units, preds, last, out, order, i);
        } else {
          assert u !in out && u !in multiset(out) && u !in multiset(units);
        }
      }
    }
    if multiset(out) == multiset(units) {
      forall s | s in units && preds[s] != {} ensures multiset(units)[s] - 1 == Told(units, preds[s]) - |preds[s]| {
        ToldCounts(out, units, preds[s]);
        EmittedCount(units, preds, last, out, s);
        NonEmpty(preds[s]);
        assert s in multiset(units);
      }
    }
  }

  lemma OutAreUnits(units: seq<UnitName>, preds: map<UnitName, set<UnitName>>, q: Queue, out: seq<UnitName>)
    requires Tallied(units, preds, q, out)
    ensures forall u :: u in out ==> u in units
  {
    hide TalliedAt;
  }

  // ----- on a cyclic input it may not stop -----

  lemma OneSuccessor(succs: map<UnitName, seq<UnitName>>, q: Queue, u: UnitName, s: UnitName)
    requires q.ready != [] && q.ready[0] == u && u in succs && succs[u] == [s] && s in q.indeg
    ensures var d := if q.indeg[s] == 0 then 0 else q.indeg[s] - 1;
      Turn(succs, q) == Queue(q.indeg[s := d], if d == 0 then q.ready[1..] + [s] else q.ready[1..])
  {
    var d := if q.indeg[s] == 0 then 0 else q.indeg[s] - 1;
    var after := Queue(q.indeg[s := d], if d == 0 then q.ready[1..] + [s] else q.ready[1..]);
    assert [s][1..] == [];
    assert NotifyAll([], after) == after;
    assert NotifyAll([s], Queue(q.indeg, q.ready[1..])) == NotifyAll([s][1..], after);
  }

  lemma {:induction false} ForeverReady(succs: map<UnitName, seq<UnitName>>, b: UnitName, c: UnitName, q: Queue, n: nat)
    requires b in succs && c in succs && succs[b] == [c] && succs[c] == [b]
    requires b in q.indeg && c in q.indeg && q.indeg[b] == 0 && q.indeg[c] <= 1 && q.ready == [b]
    ensures Turns(succs, q, n).ready != []
    decreases n
  {
    if n > 0 {
      OneSuccessor(succs, q, b, c);
      var q1 := Turn(succs, q);
      if n > 1 {
        OneSuccessor(succs, q1, c, b);
        ForeverReady(succs, b, c, Turn(succs, q1), n - 2);
      }
    }
  }

  /** In `g`, `b` comes after `a` and `c`, `c` comes after `b`, and that is all. */
  ghost predicate LoopGraph(g: GraphView, a: UnitName, b: UnitName, c: UnitName) {
    && a != b && b != c && a != c
    && forall p, u :: p in {a, b, c} && u in {a, b, c} ==>
       (MustPrecede(g, p, u) <==> (u == b && p != b) || (u == c && p == b))
  }

  /** Its edges are those of a valid graph. */
  lemma LoopGraphExists(a: UnitName, b: UnitName, c: UnitName)
    requires a != b && b != c && a != c
    ensures var g := GraphOf([(b, After, a), (b, After, c), (c, After, b)]);
      g.Valid() && LoopGraph(g, a, b, c)
  {
    hide GraphView.Valid, GraphOf;
    var edges := [(b, After, a), (b, After, c), (c, After, b)];
    GraphOfHas(edges);
    assert edges[0] in edges && edges[1] in edges && edges[2] in edges;
  }

  lemma OnlySuccessor(ss: seq<UnitName>, s: UnitName)
    requires NoDuplicates(ss) && forall x :: x in ss <==> x == s
    ensures ss == [s]
  {
    NoDuplicatesBound(ss, {s});
    assert s in ss && ss[0] in ss;
  }

  lemma LoopPreds(g: GraphView, a: UnitName, b: UnitName, c: UnitName, preds: map<UnitName, set<UnitName>>)
    requires LoopGraph(g, a, b, c) && ArePredecessors(g, [a, a, b, c], preds)
    ensures preds.Keys == {a, b, c} && preds[a] == {} && preds[b] == {a, c} && preds[c] == {b}
  {
    var units := [a, a, b, c];
    assert forall u :: u in units <==> u in {a, b, c};
    forall p, u | u in units ensures p in preds[u] <==> p in units && ((u == b && p != b) || (u == c && p == b)) {
      assert p in preds[u] <==> Precedes(g, units, p, u);
    }
    assert preds.Keys == {a, b, c};
    hide MustPrecede;
    assert preds[a] == {};
    assert preds[b] == {a, c};
    assert preds[c] == {b};
  }

  lemma LoopSuccs(a: UnitName, b: UnitName, c: UnitName, preds: map<UnitName, set<UnitName>>,
                  succs: map<UnitName, seq<UnitName>>)
    requires a != b && b != c && a != c
    requires preds.Keys == {a, b, c} && preds[a] == {} && preds[b] == {a, c} && preds[c] == {b}
    requires AreSuccessors([a, a, b, c], preds, succs)
    ensures a in succs && succs[a] == [b] && b in succs && succs[b] == [c] && c in succs && succs[c] == [b]
  {
    var units := [a, a, b, c];
    assert forall u :: u in units <==> u in {a, b, c};
    assert b in units && c in units && a in preds[b] && c in preds[b] && b in preds[c];
    hide NoDuplicates;
    OnlySuccessor(succs[a], b);
    OnlySuccessor(succs[b], c);
    OnlySuccessor(succs[c], b);
  }

  lemma ReadyCons(u: UnitName, rest: seq<UnitName>, indeg: map<UnitName, nat>)
    requires u in indeg
    ensures Ready([u] + rest, indeg) == (if indeg[u] == 0 then [u] else []) + Ready(rest, indeg)
  {
    assert ([u] + rest)[1..] == rest;
  }

  lemma LoopReady(a: UnitName, b: UnitName, c: UnitName, indeg: map<UnitName, nat>)
    requires a in indeg && b in indeg && c in indeg && indeg[a] == 0 && indeg[b] > 0 && indeg[c] > 0
    ensures Ready([a, a, b, c], indeg) == [a, a]
  {
    assert [a, a, b, c] == [a] + ([a] + ([b] + ([c] + [])));
    ReadyCons(c, [], indeg);
    ReadyCons(b, [c] + [], indeg);
    ReadyCons(a, [b] + ([c] + []), indeg);
    ReadyCons(a, [a] + ([b] + ([c] + [])), indeg);
  }

  lemma LoopStart(g: GraphView, a: UnitName, b: UnitName, c: UnitName, preds: map<UnitName, set<UnitName>>,
                  succs: map<UnitName, seq<UnitName>>, q: Queue)
    requires LoopGraph(g, a, b, c) && IsStart(g, [a, a, b, c], preds, succs, q)
    ensures a in succs && succs[a] == [b] && b in succs && succs[b] == [c] && c in succs && succs[c] == [b]
    ensures q.indeg == map[a := 0, b := 2, c := 1] && q.ready == [a, a]
  {
    hide ArePredecessors, AreSuccessors, Ready;
    LoopPreds(g, a, b, c, preds);
    LoopSuccs(a, b, c, preds, succs);
    assert |{a, c}| == 2 && |{b}| == 1;
    LoopReady(a, b, c, q.indeg);
  }

  /** Why repeated names are excluded: on the input `[a, a, b, c]` with `b` after `a` and `c`, and `c`
      after `b`, the queue is never empty. `a` is emitted twice, counts `b` down to zero on its
      own, and from then on `b` and `c` queue each other for ever. */
  lemma DuplicatesDiverge(g: GraphView, a: UnitName, b: UnitName, c: UnitName,
                          preds: map<UnitName, set<UnitName>>, succs: map<UnitName, seq<UnitName>>, q: Queue, n: nat)
    requires a != b && b != c && a != c && g == GraphOf([(b, After, a), (b, After, c), (c, After, b)])
    requires IsStart(g, [a, a, b, c], preds, succs, q)
    ensures g.Valid() && Turns(succs, q, n).ready != []
  {
    hide GraphOf, GraphView.Valid, LoopGraph, IsStart, Turn;
    LoopGraphExists(a, b, c);
    LoopStart(g, a, b, c, preds, succs, q);
    if n > 0 {
      OneSuccessor(succs, q, a, b);
      var q1 := Turn(succs, q);
      if n > 1 {
        OneSuccessor(succs, q1, a, b);
        ForeverReady(succs, b, c, Turn(succs, q1), n - 2);
      }
    }
  }
}
