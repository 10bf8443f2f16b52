/** Merging the job kinds requested for one unit, and when the order of requests matters. */
module Merging {
  import opened Jobs

  /** Merges two kinds requested for the same unit; the earlier one is `a`. */
  function MergeKinds(a: JobType, b: JobType): JobType {
    if b == Nop then a
    else if a == Nop then b
    else if a == b then a
    else if (a == Stop && b == Start) || (a == Start && b == Stop) then Restart
    else if a == Restart || b == Restart then Restart
    else if (a == Reload && b == Start) || (a == Start && b == Reload) then ReloadOrStart
    else if a == VerifyActive && b.ResultsInActive() then b
    else if b == VerifyActive && a.ResultsInActive() then a
    else if a == TryRestart && b.ResultsInActive() then Restart
    else if b == TryRestart && a.ResultsInActive() then Restart
    else b
  }

  /** Merges a whole list of requests, oldest first. */
  function Fold(ks: seq<JobType>): JobType {
    if ks == [] then Nop else MergeKinds(Fold(ks[..|ks| - 1]), ks[|ks| - 1])
  }

  lemma FoldSnoc(ks: seq<JobType>, k: JobType)
    ensures Fold(ks + [k]) == MergeKinds(Fold(ks), k)
  {
    assert (ks + [k])[..|ks|] == ks;
  }

  /** Every pair of kinds, by the earlier one: unless stated otherwise the later one wins. */
  lemma MergeTable(k: JobType)
    ensures MergeKinds(Nop, k) == k
    ensures MergeKinds(Restart, k) == Restart
    ensures MergeKinds(Start, k) == if k in {Start, VerifyActive, Nop} then Start
      else if k in {Reload, ReloadOrStart} then ReloadOrStart else Restart
    ensures MergeKinds(Stop, k) == if k == Start then Restart else if k == Nop then Stop else k
    ensures MergeKinds(TryRestart, k) == if k == Stop then Stop
      else if k in {TryRestart, Nop} then TryRestart else Restart
    ensures MergeKinds(Reload, k) == if k == Start then ReloadOrStart else if k == TryRestart then Restart
      else if k in {VerifyActive, Nop} then Reload else k
    ensures MergeKinds(ReloadOrStart, k) == if k == TryRestart then Restart
      else if k in {VerifyActive, Nop} then ReloadOrStart else k
    ensures MergeKinds(VerifyActive, k) == if k == TryRestart then Restart else if k == Nop then VerifyActive else k
  {
  }

  predicate IsReload(k: JobType) {
    k == Reload || k == ReloadOrStart
  }

  /** No reload was requested, as in every transaction whose root is not a reload. */
  predicate NoReload(ks: seq<JobType>) {
    Reload !in ks && ReloadOrStart !in ks
  }

  /** Two different ways of bringing a unit up were asked for, other than one start and one
      reload: those make a reload-or-start whichever comes first. */
  predicate Clashing(ks: seq<JobType>) {
    && ((Start in ks && Reload in ks) || (Start in ks && ReloadOrStart in ks) || (Reload in ks && ReloadOrStart in ks))
    && !(multiset(ks)[Start] == 1 && multiset(ks)[Reload] == 1 && ReloadOrStart !in ks)
  }

  /** The requests for which the merged kind depends on their order. A restart settles
      everything. Otherwise a stop clashes with a reload, a verification, or a try-restart that no
      start turns into a restart; and without a stop, ways of bringing the unit up clash unless
      a try-restart turns them all into a restart. */
  predicate OrderSensitive(ks: seq<JobType>) {
    && Restart !in ks
    && (if Stop in ks then IsReloadIn(ks) || VerifyActive in ks || (TryRestart in ks && Start !in ks)
        else TryRestart !in ks && Clashing(ks))
  }

  predicate IsReloadIn(ks: seq<JobType>) { !NoReload(ks) }

  predicate ActiveIn(ks: seq<JobType>) { exists k :: k in ks && k.ResultsInActive() }

  /** The merged kind of an order-insensitive list, from which kinds occur in it alone. */
  function Settled(ks: seq<JobType>): JobType {
    if Restart in ks then Restart
    else if Stop in ks then if Start in ks then Restart else Stop
    else if TryRestart in ks then if ActiveIn(ks) then Restart else TryRestart
    else if ReloadOrStart in ks || (Start in ks && Reload in ks) then ReloadOrStart
    else if Start in ks then Start
    else if Reload in ks then Reload
    else if VerifyActive in ks then VerifyActive
    else Nop
  }

  /** A restart absorbs everything merged with it. */
  lemma {:induction false} RestartAbsorbs(ks: seq<JobType>)
    requires Restart in ks
    ensures Fold(ks) == Restart
  {
    var n := |ks| - 1;
    assert ks == ks[..n] + [ks[n]];
    if Restart in ks[..n] {
      RestartAbsorbs(ks[..n]);
    }
  }

  lemma LastCounts(ks: seq<JobType>)
    requires ks != []
    ensures var n := |ks| - 1; forall k :: multiset(ks)[k] == multiset(ks[..n])[k] + if k == ks[n] then 1 else 0
    ensures var n := |ks| - 1; forall k :: k in ks <==> k in ks[..n] || k == ks[n]
  {
    var n := |ks| - 1;
    assert ks == ks[..n] + [ks[n]];
  }

  lemma InCounts(ks: seq<JobType>, k: JobType)
    ensures k in ks <==> multiset(ks)[k] > 0
  {
    assert k in ks <==> k in multiset(ks);
  }

  lemma LastActive(ks: seq<JobType>)
    requires ks != []
    ensures ActiveIn(ks) <==> ActiveIn(ks[..|ks| - 1]) || ks[|ks| - 1].ResultsInActive()
  {
    hide JobType.ResultsInActive;
    LastCounts(ks);
  }

  /** Requests that only bring the unit up, or verify it. */
  lemma {:induction false} PullsOnly(ks: seq<JobType>)
    requires Stop !in ks && Restart !in ks && TryRestart !in ks
    ensures Fold(ks) in {Nop, VerifyActive, Start, Reload, ReloadOrStart}
    ensures Fold(ks) == Nop <==> !ActiveIn(ks)
  {
    if ks != [] {
      hide ActiveIn;
      LastCounts(ks);
      LastActive(ks);
      PullsOnly(ks[..|ks| - 1]);
    } else {
      assert !ActiveIn(ks);
    }
  }

  /** The last way of bringing the unit up does not clash with those before it. */
  lemma LastDoesNotClash(ks: seq<JobType>)
    requires ks != [] && !Clashing(ks)
    ensures var before, k := ks[..|ks| - 1], ks[|ks| - 1];
      && !Clashing(before)
      && (k in {Start, Reload} ==> ReloadOrStart !in before && !(Start in before && Reload in before))
      && (k == ReloadOrStart ==> Start !in before && Reload !in before)
  {
    var before := ks[..|ks| - 1];
    LastCounts(ks);
    InCounts(before, Start);
    InCounts(before, Reload);
  }

  lemma {:induction false} PullsSettle(ks: seq<JobType>)
    requires Stop !in ks && Restart !in ks && TryRestart !in ks && !Clashing(ks)
    ensures Fold(ks) == Settled(ks)
  {
    hide Clashing, ActiveIn;
    if ks != [] {
      LastCounts(ks);
      LastDoesNotClash(ks);
      PullsSettle(ks[..|ks| - 1]);
    }
  }

  /** A try-restart turns everything that brings the unit up into a restart. */
  lemma {:induction false} FoldWithoutStop(ks: seq<JobType>)
    requires Stop !in ks && Restart !in ks && TryRestart in ks
    ensures Fold(ks) == if ActiveIn(ks) then Restart else TryRestart
  {
    var n := |ks| - 1;
    LastCounts(ks);
    LastActive(ks);
    if TryRestart in ks[..n] {
      FoldWithoutStop(ks[..n]);
    } else {
      PullsOnly(ks[..n]);
    }
  }

  lemma {:induction false} FoldWithoutVerify(ks: seq<JobType>)
    requires NoReload(ks) && VerifyActive !in ks && Restart !in ks
    ensures Start in ks ==> Fold(ks) == if Stop in ks || TryRestart in ks then Restart else Start
    ensures Start !in ks ==> Fold(ks) in ks + [Nop] && (Fold(ks) == Nop ==> Stop !in ks && TryRestart !in ks)
  {
    if ks != [] {
      var n := |ks| - 1;
      assert ks == ks[..n] + [ks[n]];
      FoldWithoutVerify(ks[..n]);
    }
  }

  /** Requests that are not order-sensitive merge to a kind read off the set of their kinds. */
  lemma OrderInsensitiveSettles(ks: seq<JobType>)
    requires !OrderSensitive(ks)
    ensures Fold(ks) == Settled(ks)
  {
    if Restart in ks {
      RestartAbsorbs(ks);
    } else if Stop in ks {
      FoldWithoutVerify(ks);
    } else if TryRestart in ks {
      FoldWithoutStop(ks);
    } else {
      PullsSettle(ks);
    }
  }

  // ----- rearranging requests -----

  function Only(k: JobType, n: nat): (s: seq<JobType>) { seq(n, _ => k) }

  /** Merging `n` requests of one kind: after the second, nothing changes any more. */
  function Block(x: JobType, k: JobType, n: nat): JobType {
    if n == 0 then x else if n == 1 then MergeKinds(x, k) else MergeKinds(MergeKinds(x, k), k)
  }

  lemma ThirdChangesNothing(x: JobType, k: JobType)
    ensures MergeKinds(MergeKinds(MergeKinds(x, k), k), k) == MergeKinds(MergeKinds(x, k), k)
  {
  }

  lemma {:induction false} FoldBlock(ks: seq<JobType>, k: JobType, n: nat)
    ensures Fold(ks + Only(k, n)) == Block(Fold(ks), k, n)
  {
    hide Fold, MergeKinds;
    if n == 0 {
      assert ks + Only(k, 0) == ks;
    } else {
      assert ks + Only(k, n) == ks + Only(k, n - 1) + [k];
      FoldSnoc(ks + Only(k, n - 1), k);
      FoldBlock(ks, k, n - 1);
      ThirdChangesNothing(Fold(ks), k);
    }
  }

  /** The requests of `m`, restarts aside, grouped by kind in the order given. */
  function Arranged(m: multiset<JobType>, a: JobType, b: JobType, c: JobType, d: JobType, e: JobType,
                    f: JobType): seq<JobType> {
    Only(Nop, m[Nop]) + Only(a, m[a]) + Only(b, m[b]) + Only(c, m[c]) + Only(d, m[d]) + Only(e, m[e]) + Only(f, m[f])
  }

  predicate Among(k: JobType, a: JobType, b: JobType, c: JobType, d: JobType, e: JobType, f: JobType) {
    k == a || k == b || k == c || k == d || k == e || k == f
  }

  /** The six kinds are all but `Nop` and `Restart`, each once. */
  predicate Kinds(a: JobType, b: JobType, c: JobType, d: JobType, e: JobType, f: JobType) {
    && a != b && a != c && a != d && a != e && a != f && b != c && b != d && b != e && b != f
    && c != d && c != e && c != f && d != e && d != f && e != f
    && (forall k :: Among(k, a, b, c, d, e, f) <==> k != Nop && k != Restart)
  }

  lemma ArrangedFold(m: multiset<JobType>, a: JobType, b: JobType, c: JobType, d: JobType, e: JobType, f: JobType)
    ensures Fold(Arranged(m, a, b, c, d, e, f)) ==
      Block(Block(Block(Block(Block(Block(Nop, a, m[a]), b, m[b]), c, m[c]), d, m[d]), e, m[e]), f, m[f])
  {
    hide Fold, Only, Block;
    var s0 := Only(Nop, m[Nop]);
    assert [] + s0 == s0;
    NopBlock(m[Nop]);
    FoldBlock([], Nop, m[Nop]);
    var s1 := s0 + Only(a, m[a]);
    FoldBlock(s0, a, m[a]);
    var s2 := s1 + Only(b, m[b]);
    FoldBlock(s1, b, m[b]);
    var s3 := s2 + Only(c, m[c]);
    FoldBlock(s2, c, m[c]);
    var s4 := s3 + Only(d, m[d]);
    FoldBlock(s3, d, m[d]);
    var s5 := s4 + Only(e, m[e]);
    FoldBlock(s4, e, m[e]);
    FoldBlock(s5, f, m[f]);
  }

  lemma NopBlock(n: nat)
    ensures Block(Fold([]), Nop, n) == Nop
  {
  }

  lemma {:induction false} OnlyCounts(k: JobType, n: nat, j: JobType)
    ensures multiset(Only(k, n))[j] == if j == k then n else 0
  {
    if n > 0 {
      assert Only(k, n) == Only(k, n - 1) + [k];
      OnlyCounts(k, n - 1, j);
    }
  }

  lemma BlocksCount(a: seq<JobType>, b: seq<JobType>, c: seq<JobType>, d: seq<JobType>, e: seq<JobType>,
                    f: seq<JobType>, g: seq<JobType>, j: JobType)
    ensures multiset(a + b + c + d + e + f + g)[j] ==
      multiset(a)[j] + multiset(b)[j] + multiset(c)[j] + multiset(d)[j] + multiset(e)[j] + multiset(f)[j]
        + multiset(g)[j]
  {
  }

  lemma ArrangedCount(m: multiset<JobType>, a: JobType, b: JobType, c: JobType, d: JobType, e: JobType, f: JobType,
                      j: JobType)
    requires m[Restart] == 0 && Kinds(a, b, c, d, e, f)
    ensures multiset(Arranged(m, a, b, c, d, e, f))[j] == m[j]
  {
    hide Only;
    OnlyCounts(Nop, m[Nop], j);
    OnlyCounts(a, m[a], j);
    OnlyCounts(b, m[b], j);
    OnlyCounts(c, m[c], j);
    OnlyCounts(d, m[d], j);
    OnlyCounts(e, m[e], j);
    OnlyCounts(f, m[f], j);
    BlocksCount(Only(Nop, m[Nop]), Only(a, m[a]), Only(b, m[b]), Only(c, m[c]), Only(d, m[d]), Only(e, m[e]),
      Only(f, m[f]), j);
    assert Among(j, a, b, c, d, e, f) <==> j != Nop && j != Restart;
  }

  lemma ArrangedCounts(m: multiset<JobType>, a: JobType, b: JobType, c: JobType, d: JobType, e: JobType, f: JobType)
    requires m[Restart] == 0 && Kinds(a, b, c, d, e, f)
    ensures multiset(Arranged(m, a, b, c, d, e, f)) == m
  {
    hide Arranged, Kinds;
    forall j: JobType ensures multiset(Arranged(m, a, b, c, d, e, f))[j] == m[j] {
      ArrangedCount(m, a, b, c, d, e, f, j);
    }
  }

  /** Some order of the requests of `m` merges to `k`. */
  ghost predicate Reachable(m: multiset<JobType>, k: JobType) {
    exists ks :: multiset(ks) == m && Fold(ks) == k
  }

  lemma ArrangedReaches(m: multiset<JobType>, a: JobType, b: JobType, c: JobType, d: JobType, e: JobType, f: JobType)
      returns (k: JobType)
    requires m[Restart] == 0 && Kinds(a, b, c, d, e, f)
    ensures k == Block(Block(Block(Block(Block(Block(Nop, a, m[a]), b, m[b]), c, m[c]), d, m[d]), e, m[e]), f, m[f])
    ensures Reachable(m, k)
  {
    hide Fold, Arranged, Block, Kinds;
    ArrangedFold(m, a, b, c, d, e, f);
    ArrangedCounts(m, a, b, c, d, e, f);
    k := Fold(Arranged(m, a, b, c, d, e, f));
  }

  // ----- what a block does to a merged kind -----

  lemma NoBlock(x: JobType, k: JobType)
    ensures Block(x, k, 0) == x
  {
  }

  lemma StopBlock(x: JobType, n: nat)
    requires n > 0
    ensures Block(x, Stop, n) in {Stop, Restart}
    ensures x in {Nop, TryRestart} ==> Block(x, Stop, n) == Stop
    ensures x in {VerifyActive, Reload, ReloadOrStart} ==> Block(x, Stop, n) == Stop
  {
  }

  lemma TryBlock(x: JobType, n: nat)
    requires x in {Nop, Stop}
    ensures Block(x, TryRestart, n) in {x, TryRestart} && (n > 0 ==> Block(x, TryRestart, n) == TryRestart)
  {
  }

  lemma VerifyBlock(x: JobType, n: nat)
    requires x in {Nop, Stop}
    ensures Block(x, VerifyActive, n) == if n == 0 then x else VerifyActive
  {
  }

  /** Bringing a unit up after the kinds that neither stop nor restart it. */
  lemma PullBlock(x: JobType, k: JobType, n: nat)
    requires x in {Nop, Stop, VerifyActive, Start, Reload, ReloadOrStart} && k in {Start, Reload, ReloadOrStart}
    requires x == Stop ==> k != Start
    ensures Block(x, k, n) ==
      if n == 0 then x
      else if n == 1 && (x, k) in {(Start, Reload), (Reload, Start)} then ReloadOrStart
      else k
  {
  }

  /** With a stop among them, letting the stops act last leaves a stop or a restart, while
      letting something act after them leaves something else. */
  lemma StopsReachTwo(m: multiset<JobType>) returns (k: JobType, k': JobType)
    requires m[Restart] == 0 && m[Stop] > 0
    requires m[Reload] > 0 || m[ReloadOrStart] > 0 || m[VerifyActive] > 0 || (m[TryRestart] > 0 && m[Start] == 0)
    ensures Reachable(m, k) && Reachable(m, k') && k != k'
  {
    hide Reachable, Block;
    k := ArrangedReaches(m, VerifyActive, Start, Reload, ReloadOrStart, TryRestart, Stop);
    var x := Block(Block(Block(Block(Block(Nop, VerifyActive, m[VerifyActive]), Start, m[Start]), Reload, m[Reload]),
      ReloadOrStart, m[ReloadOrStart]), TryRestart, m[TryRestart]);
    StopBlock(x, m[Stop]);
    if m[Reload] == 0 && m[ReloadOrStart] == 0 && m[VerifyActive] == 0 {
      k' := TryRestartLast(m);
    } else {
      k' := StopsFirst(m);
    }
  }

  lemma TryRestartLast(m: multiset<JobType>) returns (k: JobType)
    requires m[Restart] == 0 && m[Reload] == 0 && m[ReloadOrStart] == 0 && m[VerifyActive] == 0 && m[Start] == 0
    requires m[Stop] > 0 && m[TryRestart] > 0
    ensures Reachable(m, k) && k == TryRestart
  {
    hide Reachable, Block;
    k := ArrangedReaches(m, VerifyActive, Start, Reload, ReloadOrStart, Stop, TryRestart);
    NoBlock(Nop, VerifyActive);
    NoBlock(Nop, Start);
    NoBlock(Nop, Reload);
    NoBlock(Nop, ReloadOrStart);
    StopBlock(Nop, m[Stop]);
    TryBlock(Stop, m[TryRestart]);
  }

  lemma StopsFirst(m: multiset<JobType>) returns (k: JobType)
    requires m[Restart] == 0 && m[Stop] > 0
    requires m[Reload] > 0 || m[ReloadOrStart] > 0 || m[VerifyActive] > 0
    ensures Reachable(m, k) && k !in {Stop, Restart}
  {
    hide Reachable, Block;
    k := ArrangedReaches(m, TryRestart, Stop, VerifyActive, Reload, ReloadOrStart, Start);
    TryBlock(Nop, m[TryRestart]);
    var x1 := Block(Nop, TryRestart, m[TryRestart]);
    StopBlock(x1, m[Stop]);
    VerifyBlock(Stop, m[VerifyActive]);
    var x2 := Block(Stop, VerifyActive, m[VerifyActive]);
    PullBlock(x2, Reload, m[Reload]);
    var x3 := Block(x2, Reload, m[Reload]);
    PullBlock(x3, ReloadOrStart, m[ReloadOrStart]);
    var x4 := Block(x3, ReloadOrStart, m[ReloadOrStart]);
    assert x4 in {VerifyActive, Reload, ReloadOrStart};
    PullBlock(x4, Start, m[Start]);
  }

  /** The pulls in one order, after any verifications, when nothing else was asked for. */
  lemma PullsReach(m: multiset<JobType>, a: JobType, b: JobType, c: JobType) returns (k: JobType)
    requires m[Restart] == 0 && m[Stop] == 0 && m[TryRestart] == 0
    requires (a, b, c) in {(Reload, Start, ReloadOrStart), (Reload, ReloadOrStart, Start),
      (Start, ReloadOrStart, Reload)}
    ensures Reachable(m, k)
    ensures var x := Block(Nop, VerifyActive, m[VerifyActive]);
      x in {Nop, VerifyActive} && k == Block(Block(Block(x, a, m[a]), b, m[b]), c, m[c])
  {
    hide Reachable, Block;
    k := ArrangedReaches(m, Stop, TryRestart, VerifyActive, a, b, c);
    NoBlock(Nop, Stop);
    NoBlock(Nop, TryRestart);
    VerifyBlock(Nop, m[VerifyActive]);
  }

  /** Ways of bringing a unit up that clash: whichever comes last shows. */
  lemma PullsReachTwo(m: multiset<JobType>) returns (k: JobType, k': JobType)
    requires m[Restart] == 0 && m[Stop] == 0 && m[TryRestart] == 0
    requires (m[Start] > 0 && m[Reload] > 0) || (m[Start] > 0 && m[ReloadOrStart] > 0)
      || (m[Reload] > 0 && m[ReloadOrStart] > 0)
    requires !(m[Start] == 1 && m[Reload] == 1 && m[ReloadOrStart] == 0)
    ensures Reachable(m, k) && Reachable(m, k') && k != k'
  {
    hide Reachable, Block;
    var x := Block(Nop, VerifyActive, m[VerifyActive]);
    k := PullsReach(m, Reload, Start, ReloadOrStart);
    PullBlock(x, Reload, m[Reload]);
    var y := Block(x, Reload, m[Reload]);
    PullBlock(y, Start, m[Start]);
    PullBlock(Block(y, Start, m[Start]), ReloadOrStart, m[ReloadOrStart]);
    if m[ReloadOrStart] > 0 && m[Start] > 0 {
      k' := PullsReach(m, Reload, ReloadOrStart, Start);
      PullBlock(y, ReloadOrStart, m[ReloadOrStart]);
      PullBlock(ReloadOrStart, Start, m[Start]);
    } else {
      k' := PullsReach(m, Start, ReloadOrStart, Reload);
      PullBlock(x, Start, m[Start]);
      var z := Block(x, Start, m[Start]);
      PullBlock(z, ReloadOrStart, m[ReloadOrStart]);
      PullBlock(Block(z, ReloadOrStart, m[ReloadOrStart]), Reload, m[Reload]);
    }
  }

  /** With a reload among them and no try-restart that could save the day, some order ends
      without activation. */
  lemma ReloadsLast(m: multiset<JobType>) returns (k: JobType)
    requires m[Restart] == 0 && (m[Reload] > 0 || m[ReloadOrStart] > 0) && (m[TryRestart] > 0 ==> m[Stop] > 0)
    ensures Reachable(m, k) && k !in {Start, Restart}
  {
    hide Reachable, Block;
    k := ArrangedReaches(m, VerifyActive, Start, Reload, ReloadOrStart, Stop, TryRestart);
    VerifyBlock(Nop, m[VerifyActive]);
    var x1 := Block(Nop, VerifyActive, m[VerifyActive]);
    PullBlock(x1, Start, m[Start]);
    var x2 := Block(x1, Start, m[Start]);
    PullBlock(x2, Reload, m[Reload]);
    var x3 := Block(x2, Reload, m[Reload]);
    PullBlock(x3, ReloadOrStart, m[ReloadOrStart]);
    var x4 := Block(x3, ReloadOrStart, m[ReloadOrStart]);
    assert x4 in {Reload, ReloadOrStart};
    if m[Stop] > 0 {
      StopBlock(x4, m[Stop]);
      TryBlock(Stop, m[TryRestart]);
    } else {
      NoBlock(x4, Stop);
      NoBlock(x4, TryRestart);
    }
  }

  lemma SameMembers(a: seq<JobType>, b: seq<JobType>)
    requires multiset(a) == multiset(b)
    ensures forall k :: k in a <==> k in b
  {
    assert forall k :: k in a <==> k in multiset(a);
  }

  lemma DifferentFrom(ks: seq<JobType>, k: JobType, k': JobType)
    requires Reachable(multiset(ks), k) && Reachable(multiset(ks), k') && k != k'
    ensures exists ks' :: multiset(ks') == multiset(ks) && Fold(ks') != Fold(ks)
  {
    hide Fold;
    var a :| multiset(a) == multiset(ks) && Fold(a) == k;
    var b :| multiset(b) == multiset(ks) && Fold(b) == k';
    assert Fold(a) != Fold(ks) || Fold(b) != Fold(ks);
  }

  /** The merged kind is the same for every order of the same requests exactly when the
      requests are not order-sensitive. */
  lemma OrderMattersExactly(ks: seq<JobType>)
    ensures (forall ks' :: multiset(ks') == multiset(ks) ==> Fold(ks') == Fold(ks)) <==> !OrderSensitive(ks)
  {
    hide Fold, Settled, Reachable;
    var m := multiset(ks);
    forall k ensures k in ks <==> m[k] > 0 {
      InCounts(ks, k);
    }
    if OrderSensitive(ks) {
      var k, k';
      if Stop in ks {
        k, k' := StopsReachTwo(m);
      } else {
        k, k' := PullsReachTwo(m);
      }
      DifferentFrom(ks, k, k');
    } else {
      forall ks' | multiset(ks') == m ensures Fold(ks') == Fold(ks) {
        SameRequests(ks, ks');
        OrderInsensitiveSettles(ks);
        OrderInsensitiveSettles(ks');
      }
    }
  }

  /** Sensitivity and the settled kind are read off the multiset of requests. */
  lemma SameRequests(a: seq<JobType>, b: seq<JobType>)
    requires multiset(a) == multiset(b)
    ensures OrderSensitive(a) == OrderSensitive(b) && Settled(a) == Settled(b)
  {
    SameMembers(a, b);
  }

  // ----- keeping a unit active -----

  /** When every order of the same requests, a start or restart among them, ends with one:
      a restart settles it, without reloads nothing takes it away, and a try-restart turns
      reloads into restarts if no stop can undo it first. */
  predicate StaysActivated(ks: seq<JobType>) {
    Restart in ks || NoReload(ks) || (TryRestart in ks && Stop !in ks)
  }

  /** Once a start or restart was requested, the unit ends with one whatever the order of the
      requests exactly in those cases. */
  lemma ActivationSurvivesExactly(ks: seq<JobType>)
    requires Start in ks || Restart in ks
    ensures (forall ks' :: multiset(ks') == multiset(ks) ==> Fold(ks') in {Start, Restart}) <==> StaysActivated(ks)
  {
    hide Fold;
    var m := multiset(ks);
    forall k ensures k in ks <==> m[k] > 0 {
      InCounts(ks, k);
    }
    if StaysActivated(ks) {
      forall ks' | multiset(ks') == m ensures Fold(ks') in {Start, Restart} {
        SameMembers(ks, ks');
        ActivationSurvives(ks');
      }
    } else {
      var k := ReloadsLast(m);
      var a :| multiset(a) == m && Fold(a) == k;
      assert multiset(a) == multiset(ks) && Fold(a) !in {Start, Restart};
    }
  }

  /** In those cases no later request takes the activation away. */
  lemma {:induction false} ActivationSurvives(ks: seq<JobType>)
    requires (Start in ks || Restart in ks) && StaysActivated(ks)
    ensures Fold(ks) in {Start, Restart}
  {
    if Restart in ks {
      RestartAbsorbs(ks);
    } else if NoReload(ks) {
      ActivationWithoutReloads(ks);
    } else {
      FoldWithoutStop(ks);
    }
  }

  /** Outside them it can be lost: a stop after a reload undoes a start. */
  lemma ReloadLosesActivation()
    ensures Fold([Start, Reload, Stop]) == Stop
  {
    assert [] + [Start] == [Start] && [Start] + [Reload] == [Start, Reload]
      && [Start, Reload] + [Stop] == [Start, Reload, Stop];
    FoldSnoc([], Start);
    FoldSnoc([Start], Reload);
    FoldSnoc([Start, Reload], Stop);
  }

  lemma {:induction false} ActivationWithoutReloads(ks: seq<JobType>)
    requires NoReload(ks) && Start in ks && Restart !in ks
    ensures Fold(ks) in {Start, Restart}
  {
    var n := |ks| - 1;
    assert ks == ks[..n] + [ks[n]];
    if Start in ks[..n] {
      ActivationWithoutReloads(ks[..n]);
    } else {
      FoldStaysInside(ks[..n]);
    }
  }

  lemma {:induction false} FoldStaysInside(ks: seq<JobType>)
    requires NoReload(ks)
    ensures !IsReload(Fold(ks))
  {
    if ks != [] {
      FoldStaysInside(ks[..|ks| - 1]);
    }
  }

  /** Requests that all agree are kept as they are. */
  lemma {:induction false} Unanimous(ks: seq<JobType>, k: JobType)
    requires ks != [] && forall j :: j in ks ==> j == k
    ensures Fold(ks) == k
  {
    var n := |ks| - 1;
    assert ks == ks[..n] + [ks[n]];
    assert ks[n] in ks;
    if n > 0 {
      forall j | j in ks[..n] ensures j == k {
        assert j in ks;
      }
      Unanimous(ks[..n], k);
    }
  }
}
