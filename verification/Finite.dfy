/** Counting with finite sequences and sets: a sequence without repetition fits into every set that
    holds its elements, and a subset as large as the whole is the whole.

    That is what bounds a walk through plugins or through message types by the number of names, what
    makes a stuck search repeat a name, and what turns a full one-to-one choice of indices into a
    permutation. */
module Finite {
  ghost predicate Distinct<T(!new)>(s: seq<T>) {
    forall i, j :: 0 <= i < j < |s| ==> s[i] != s[j]
  }

  ghost function Elements<T>(s: seq<T>): set<T> {
    set x | x in s
  }

  ghost function Indices(n: nat): (r: set<nat>)
    ensures |r| == n
    ensures forall i: nat :: i in r <==> i < n
  {
    if n == 0 then {} else Indices(n - 1) + {n - 1}
  }

  /** A sequence without repetition is no longer than any set that holds its elements. */
  lemma {:induction false} DistinctFits<T(!new)>(s: seq<T>, bound: set<T>)
    requires Distinct(s) && Elements(s) <= bound
    ensures |s| <= |bound|
    ensures |s| == |bound| ==> Elements(s) == bound
  {
    if s == [] {
      assert |bound| == 0 ==> bound == {};
    } else {
      assert s[0] in Elements(s);
      forall x | x in Elements(s[1..]) ensures x in bound - {s[0]} {
        assert x in Elements(s);
      }
      DistinctFits(s[1..], bound - {s[0]});
      assert Elements(s) == {s[0]} + Elements(s[1..]);
    }
  }

  lemma SubsetOfSameSize<T>(a: set<T>, b: set<T>)
    requires a <= b && |a| == |b|
    ensures a == b
  {
    assert |b - a| == |b| - |a|;
  }
}
