/** Unit names and the ordered collections keyed by them. */
module UnitNames {
  /** Names are only ever compared and used as keys, so their text is left abstract. */
  type UnitName(==,!new)

  predicate NoDuplicates<T(==)>(s: seq<T>) {
    forall i, j :: 0 <= i < j < |s| ==> s[i] != s[j]
  }

  /** The index-set `insert`: append unless already present. */
  function Insert<T(==,!new)>(s: seq<T>, x: T): (r: seq<T>)
    ensures NoDuplicates(s) ==> NoDuplicates(r)
    ensures forall y :: y in r <==> y in s || y == x
  {
    if x in s then s else s + [x]
  }

  lemma {:induction false} NoDuplicatesBound<T>(s: seq<T>, t: set<T>)
    requires NoDuplicates(s)
    requires forall x :: x in s ==> x in t
    ensures |s| <= |t|
  {
    if s == [] {
    } else {
      var x := s[0];
      assert x in s;
      forall y | y in s[1..] ensures y in t - {x} {
        assert y in s;
      }
      NoDuplicatesBound(s[1..], t - {x});
    }
  }
}
