/** Sums of reals over sequences and over the values of a map, for scores.

    A map is summed by taking out keys in an arbitrary order, and the lemmas show that the order does
    not matter. So a loop over a Go map, whose order is random, has one value to be proved against.
    The bounds say how large a sum and an average can get when each item is bounded. */
module Sums {
  ghost function Sum(rs: seq<real>): real {
    if rs == [] then 0.0 else Sum(rs[..|rs| - 1]) + rs[|rs| - 1]
  }

  lemma {:induction false} SumUpdate(rs: seq<real>, j: nat, r: real)
    requires j < |rs|
    ensures Sum(rs[j := r]) == Sum(rs) - rs[j] + r
  {
    var n := |rs| - 1;
    if j == n {
      assert rs[j := r][..n] == rs[..n];
    } else {
      SumUpdate(rs[..n], j, r);
      assert rs[j := r][..n] == rs[..n][j := r];
    }
  }

  lemma {:induction false} SumZeros(rs: seq<real>)
    requires forall i :: 0 <= i < |rs| ==> rs[i] == 0.0
    ensures Sum(rs) == 0.0
  {
    if rs != [] {
      SumZeros(rs[..|rs| - 1]);
    }
  }

  lemma {:induction false} SumBound(rs: seq<real>, bound: real)
    requires bound >= 0.0 && forall i :: 0 <= i < |rs| ==> 0.0 <= rs[i] <= bound
    ensures 0.0 <= Sum(rs) <= bound * |rs| as real
  {
    if rs != [] {
      SumBound(rs[..|rs| - 1], bound);
      OneMore(rs[|rs| - 1], Sum(rs[..|rs| - 1]), bound, |rs| - 1);
    }
  }

  lemma OneMore(r: real, total: real, bound: real, n: nat)
    requires 0.0 <= r <= bound && 0.0 <= total <= bound * n as real
    ensures 0.0 <= r + total <= bound * (n + 1) as real
  {
    assert (n + 1) as real == n as real + 1.0;
    assert bound * (n as real + 1.0) == bound * n as real + bound;
  }

  lemma EmptySum<K(!new)>(m: map<K, real>)
    requires m == map[]
    ensures SumValues(m) == 0.0
  {
  }

  ghost function SumValues<K(!new)>(m: map<K, real>): real
    decreases |m|
  {
    if m == map[] then 0.0
    else
      var k :| k in m;
      m[k] + SumValues(m - {k})
  }

  /** The order in which keys are visited does not matter. */
  lemma {:induction false} SumValuesAny<K(!new)>(m: map<K, real>, k: K)
    requires k in m
    ensures SumValues(m) == m[k] + SumValues(m - {k})
    decreases |m|
  {
    var h :| h in m && SumValues(m) == m[h] + SumValues(m - {h});
    if h != k {
      SumValuesAny(m - {h}, k);
      SumValuesAny(m - {k}, h);
      assert m - {h} - {k} == m - {k} - {h};
    }
  }

  lemma {:induction false} SumValuesBound<K(!new)>(m: map<K, real>, bound: real)
    requires forall k :: k in m ==> 0.0 <= m[k] <= bound
    requires bound >= 0.0
    ensures 0.0 <= SumValues(m) <= bound * |m| as real
    decreases |m|
  {
    hide SumValues;
    if m == map[] {
      EmptySum(m);
    } else {
      var k :| k in m;
      var rest := m - {k};
      assert rest.Keys == m.Keys - {k} && |rest| == |m| - 1;
      SumValuesAny(m, k);
      SumValuesBound(rest, bound);
      OneMore(m[k], SumValues(rest), bound, |rest|);
    }
  }

  /** A total of at most `bound` per item stays within `bound` after dividing by at least as many. */
  lemma Averaged(total: real, bound: real, n: nat, over: nat)
    requires 0.0 <= total <= bound * n as real && 0 < over && n <= over && bound >= 0.0
    ensures 0.0 <= total / over as real <= bound
  {
    var d := over as real;
    var q := total / d;
    assert q * d == total;
    assert bound * n as real <= bound * d;
    Cancel(0.0, q, d);
    Cancel(q, bound, d);
  }

  lemma Cancel(x: real, y: real, d: real)
    requires d > 0.0 && x * d <= y * d
    ensures x <= y
  {
  }
}
