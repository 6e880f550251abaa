/** Finite sets and sequences of numbers, as several parts of the model use them. */
module Collections {

  /** `a` has no repeated element. */
  ghost predicate Distinct(a: seq<nat>) {
    forall i, j :: 0 <= i < j < |a| ==> a[i] != a[j]
  }

  ghost function Elements(a: seq<nat>): set<nat> {
    set p | p in a
  }

  lemma {:induction false} DistinctSize(a: seq<nat>)
    requires Distinct(a)
    ensures |Elements(a)| == |a|
  {
    if a == [] {
      assert Elements(a) == {};
    } else {
      DistinctSize(a[1..]);
      assert Elements(a) == Elements(a[1..]) + {a[0]};
    }
  }

  /** The numbers from `lo` up to, not including, `hi`. */
  function Range(lo: nat, hi: nat): (s: set<nat>)
    ensures forall p :: p in s <==> lo <= p < hi
    ensures lo <= hi ==> |s| == hi - lo
    decreases hi
  {
    if lo >= hi then {} else Range(lo, hi - 1) + {hi - 1}
  }

  lemma SubsetSize<T>(a: set<T>, b: set<T>)
    requires a <= b
    ensures |b - a| == |b| - |a|
  {
    assert b == a + (b - a);
  }

  /** A set contained in another of the same size is that set. */
  lemma SameSizeSubset(s: set<nat>, t: set<nat>)
    requires s <= t && |s| == |t|
    ensures s == t
  {
    SubsetSize(s, t);
    assert |t - s| == 0;
    assert t == s + (t - s);
  }

  lemma FreshNumber(used: set<nat>) returns (p: nat)
    ensures p > 0 && p !in used
  {
    var candidates := Range(1, |used| + 2);
    if candidates <= used {
      SubsetSize(candidates, used);
    }
    p :| p in candidates && p !in used;
  }
}
