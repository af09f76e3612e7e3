/** Facts about finite sets and about sequences without repetition. */
module Collections {
  predicate Distinct<T(==)>(s: seq<T>) { forall i, j :: 0 <= i < j < |s| ==> s[i] != s[j] }

  function Members<T>(s: seq<T>): set<T> { set x | x in s }

  /** The numbers from `low` up to, and without, `high`. */
  function Range(low: nat, high: nat): (s: set<nat>)
    requires low <= high
    ensures |s| == high - low && forall m :: m in s <==> low <= m < high
    decreases high
  {
    if low == high then {} else Range(low, high - 1) + {high - 1}
  }

  lemma SubsetSize<T>(a: set<T>, b: set<T>)
    requires a <= b
    ensures |a| <= |b| && (|a| == |b| ==> a == b)
  {
    assert b == a + (b - a) && |b| == |a| + |b - a|;
  }

  lemma DistinctJoin<T>(s: seq<T>, t: seq<T>)
    requires Distinct(s) && Distinct(t) && forall x :: x in s ==> x !in t
    ensures Distinct(s + t)
  {
    forall i, j | 0 <= i < j < |s + t|
      ensures (s + t)[i] != (s + t)[j]
    {
      if i < |s| <= j { assert s[i] in s && t[j - |s|] in t; }
    }
  }

  lemma {:induction false} DistinctSize<T>(s: seq<T>)
    ensures |Members(s)| <= |s|
    ensures Distinct(s) <==> |Members(s)| == |s|
  {
    if s == [] {
      assert Members(s) == {};
    } else {
      var n := |s| - 1;
      DistinctSize(s[..n]);
      assert s == s[..n] + [s[n]];
      assert Members(s) == Members(s[..n]) + {s[n]};
      if s[n] in s[..n] { assert Members(s) == Members(s[..n]); }
    }
  }

  /** Distinct indices below `bound` are at most `bound` many. */
  lemma DistinctIndicesFit(s: seq<nat>, bound: nat)
    requires Distinct(s) && forall k :: 0 <= k < |s| ==> s[k] < bound
    ensures |s| <= bound
  {
    DistinctSize(s);
    SubsetSize(Members(s), Range(0, bound));
  }

  /** Distinct indices that include everything below `bound`, and nothing else, are
      exactly `bound` many. */
  lemma DistinctIndicesCover(s: seq<nat>, bound: nat)
    requires Distinct(s) && forall i: nat :: i in s <==> i < bound
    ensures |s| == bound
  {
    DistinctSize(s);
    assert Members(s) == Range(0, bound);
  }
}
