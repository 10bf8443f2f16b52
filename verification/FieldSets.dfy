/** The value sets of a calendar specification. */
module FieldSets {
  import opened Wrappers

  predicate Sorted(vs: seq<nat>) {
    forall i, j :: 0 <= i < j < |vs| ==> vs[i] < vs[j]
  }

  /** No list is a wildcard; a list is kept sorted and free of duplicates. */
  datatype FieldSet = FieldSet(values: Option<seq<nat>>)
  {
    /** The field admits `v`: the meaning every search below is held to. */
    predicate Admits(v: int) {
      values.None? || (v >= 0 && v in values.value)
    }

    /** The membership test the code runs: a binary search. */
    predicate Matches(v: nat) {
      values.None? || BinarySearch(values.value, v, 0, |values.value|)
    }

    predicate Valid(lo: nat, hi: nat) {
      values.Some? ==> Sorted(values.value) && forall v :: v in values.value ==> lo <= v <= hi
    }
  }

  function BinarySearch(vs: seq<nat>, v: nat, lo: nat, hi: nat): bool
    requires lo <= hi <= |vs|
    decreases hi - lo
  {
    if lo == hi then false else
      var mid := (lo + hi) / 2;
      if vs[mid] == v then true
      else if vs[mid] < v then BinarySearch(vs, v, mid + 1, hi)
      else BinarySearch(vs, v, lo, mid)
  }

  lemma {:induction false} BinarySearchFinds(vs: seq<nat>, v: nat, lo: nat, hi: nat)
    requires lo <= hi <= |vs| && Sorted(vs)
    ensures BinarySearch(vs, v, lo, hi) <==> exists k :: lo <= k < hi && vs[k] == v
    decreases hi - lo
  {
    if lo < hi {
      var mid := (lo + hi) / 2;
      BinarySearchFinds(vs, v, mid + 1, hi);
      BinarySearchFinds(vs, v, lo, mid);
    }
  }

  /** On a sorted list the binary search is membership. */
  lemma MatchesIsAdmits(fs: FieldSet, v: nat, lo: nat, hi: nat)
    requires fs.Valid(lo, hi)
    ensures fs.Matches(v) <==> fs.Admits(v)
  {
    if fs.values.Some? {
      var vs := fs.values.value;
      BinarySearchFinds(vs, v, 0, |vs|);
    }
  }

  /** The least listed value in `[lo, hi]` that is at least `after`. */
  method NextInSet(fs: FieldSet, after: nat, lo: nat, hi: nat) returns (r: Option<nat>)
    requires fs.values.Some? ==> Sorted(fs.values.value)
    ensures fs.values.None? ==> r == Some(if after > lo then after else lo)
    ensures fs.values.Some? && r.Some? ==> r.value in fs.values.value && lo <= r.value <= hi && after <= r.value
    ensures fs.values.Some? ==> forall v :: v in fs.values.value && lo <= v <= hi && after <= v ==>
      r.Some? && r.value <= v
  {
    if fs.values.None? {
      return Some(if after > lo then after else lo);
    }
    var vs := fs.values.value;
    for i := 0 to |vs|
      invariant forall j :: 0 <= j < i ==> !(lo <= vs[j] <= hi && after <= vs[j])
    {
      if vs[i] >= lo && vs[i] <= hi && vs[i] >= after {
        return Some(vs[i]);
      }
    }
    return None;
  }
}
