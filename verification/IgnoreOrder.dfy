/** Structural equality that disregards the order of arrays: `EqualsIgnoreArrayOrder` and the
    helpers it ties together (internal/infra/deeply: equals.go, compare_helpers.go, common.go). */
module IgnoreOrder {
  import opened Finite
  import opened Utf8
  import opened Json

  // The code pairs array elements greedily, first fit, marking what is taken. The reference says
  // that some one-to-one pairing exists at every array level. The two agree because the relation
  // being matched is an equivalence, which is proved first.

  /** Distinct indices below n. */
  ghost predicate Injection(p: seq<nat>, n: nat) {
    Distinct(p) && forall i :: 0 <= i < |p| ==> p[i] < n
  }

  /** Equality up to array order, at every depth: each element of an array goes with an element
      of the other that is its own and the same up to order. */
  ghost predicate Same(x: Json, y: Json)
    decreases x
  {
    match (x, y)
    case (Arr(xs), Arr(ys)) =>
      && |xs| == |ys|
      && exists p :: Injection(p, |ys|) && |p| == |xs| && forall i :: 0 <= i < |xs| ==> Same(xs[i], ys[p[i]])
    case (Obj(m), Obj(n)) => m.Keys == n.Keys && forall k :: k in m ==> Same(m[k], n[k])
    case _ => x == y
  }

  ghost predicate Pairing(xs: seq<Json>, ys: seq<Json>, p: seq<nat>) {
    Injection(p, |ys|) && |p| == |xs| && forall i :: 0 <= i < |xs| ==> Same(xs[i], ys[p[i]])
  }

  ghost predicate Pairable(xs: seq<Json>, ys: seq<Json>) {
    exists p :: Pairing(xs, ys, p)
  }

  lemma SameArrays(xs: seq<Json>, ys: seq<Json>)
    ensures Same(Arr(xs), Arr(ys)) <==> |xs| == |ys| && Pairable(xs, ys)
  {
    if Same(Arr(xs), Arr(ys)) {
      var p :| Injection(p, |ys|) && |p| == |xs| && forall i :: 0 <= i < |xs| ==> Same(xs[i], ys[p[i]]);
      assert Pairing(xs, ys, p);
    }
  }

  // ----- The relation is an equivalence

  lemma {:induction false} SameReflexive(x: Json)
    ensures Same(x, x)
  {
    match x
    case Arr(xs) =>
      var id := seq(|xs|, i requires 0 <= i < |xs| => i);
      forall i | 0 <= i < |xs| ensures Same(xs[i], xs[id[i]]) {
        SameReflexive(xs[i]);
      }
      assert Pairing(xs, xs, id);
    case Obj(m) =>
      forall k | k in m ensures Same(m[k], m[k]) {
        SameReflexive(m[k]);
      }
    case _ =>
  }

  lemma {:induction false} SameSymmetric(x: Json, y: Json)
    ensures Same(x, y) ==> Same(y, x)
    decreases x
  {
    match (x, y)
    case (Arr(xs), Arr(ys)) =>
      if !Same(x, y) {
        return;
      }
      SameArrays(xs, ys);
      var p :| Pairing(xs, ys, p);
      var q := Inverse(p);
      forall j | 0 <= j < |ys| ensures Same(ys[j], xs[q[j]]) {
        SameSymmetric(xs[q[j]], ys[p[q[j]]]);
      }
      assert Pairing(ys, xs, q);
    case (Obj(m), Obj(n)) =>
      forall k | k in m && k in n ensures Same(m[k], n[k]) ==> Same(n[k], m[k]) {
        SameSymmetric(m[k], n[k]);
      }
    case _ =>
  }

  lemma {:induction false} SameTransitive(x: Json, y: Json, z: Json)
    ensures Same(x, y) && Same(y, z) ==> Same(x, z)
    decreases x, 1
  {
    if !(Same(x, y) && Same(y, z)) {
      return;
    }
    match (x, y)
    case (Arr(xs), Arr(ys)) =>
      SameArrays(xs, ys);
      SameArrays(ys, z.items);
      PairableTransitive(xs, ys, z.items);
      SameArrays(xs, z.items);
    case (Obj(m), Obj(n)) =>
      forall k | k in m ensures Same(m[k], z.fields[k]) {
        SameTransitive(m[k], n[k], z.fields[k]);
      }
    case _ =>
  }

  lemma {:induction false} PairableTransitive(xs: seq<Json>, ys: seq<Json>, zs: seq<Json>)
    requires Pairable(xs, ys) && Pairable(ys, zs)
    ensures Pairable(xs, zs)
    decreases Arr(xs), 0
  {
    hide Same;
    var p :| Pairing(xs, ys, p);
    var q :| Pairing(ys, zs, q);
    var r := seq(|p|, i requires 0 <= i < |p| => q[p[i]]);
    forall i | 0 <= i < |xs| ensures Same(xs[i], zs[r[i]]) {
      SameTransitive(xs[i], ys[p[i]], zs[q[p[i]]]);
    }
    assert Pairing(xs, zs, r);
  }

  // ----- What it means without arrays, and for arrays of such values

  /** No array occurs in x, at any depth. */
  predicate Arrayless(x: Json)
    decreases x
  {
    match x
    case Arr(_) => false
    case Obj(m) => forall k :: k in m ==> Arrayless(m[k])
    case _ => true
  }

  lemma {:induction false} ArraylessExactly(x: Json, y: Json)
    requires Arrayless(x)
    ensures Same(x, y) <==> x == y
    decreases x
  {
    match (x, y)
    case (Obj(m), Obj(n)) =>
      forall k | k in m && k in n ensures Same(m[k], n[k]) <==> m[k] == n[k] {
        ArraylessExactly(m[k], n[k]);
      }
      assert Same(x, y) ==> m == n;
    case _ =>
  }

  /** Arrays of values without arrays are the same exactly if they hold the same values equally
      often. */
  lemma {:induction false} FlatArraysExactly(xs: seq<Json>, ys: seq<Json>)
    requires forall x :: x in xs ==> Arrayless(x)
    ensures Same(Arr(xs), Arr(ys)) <==> multiset(xs) == multiset(ys)
  {
    SameArrays(xs, ys);
    if |xs| == |ys| && Pairable(xs, ys) {
      var p :| Pairing(xs, ys, p);
      forall i | 0 <= i < |xs| ensures xs[i] == ys[p[i]] {
        ArraylessExactly(xs[i], ys[p[i]]);
      }
      PairedAlike(xs, ys, p);
    }
    if multiset(xs) == multiset(ys) {
      var p := PairAlike(xs, ys);
      forall i | 0 <= i < |xs| ensures Same(xs[i], ys[p[i]]) {
        SameReflexive(xs[i]);
      }
      assert |multiset(xs)| == |xs| && |multiset(ys)| == |ys|;
      assert Pairing(xs, ys, p);
    }
  }

  lemma {:induction false} PairedAlike<T(!new)>(xs: seq<T>, ys: seq<T>, p: seq<nat>)
    requires Injection(p, |ys|) && |p| == |xs| == |ys| && forall i :: 0 <= i < |xs| ==> xs[i] == ys[p[i]]
    ensures multiset(xs) == multiset(ys)
  {
    if xs == [] {
    } else {
      var n, j := |xs| - 1, p[|xs| - 1];
      var rest := ys[..j] + ys[j + 1..];
      var q := seq(n, i requires 0 <= i < n => if p[i] < j then p[i] else p[i] - 1);
      assert ys == ys[..j] + [ys[j]] + ys[j + 1..];
      assert xs == xs[..n] + [xs[n]];
      forall i | 0 <= i < n ensures p[i] != j && 0 <= q[i] < |rest| && rest[q[i]] == ys[p[i]] {
      }
      PairedAlike(xs[..n], rest, q);
      assert multiset(ys) == multiset(rest) + multiset{ys[j]};
    }
  }

  lemma {:induction false} PairAlike<T(!new)>(xs: seq<T>, ys: seq<T>) returns (p: seq<nat>)
    requires multiset(xs) <= multiset(ys)
    ensures Injection(p, |ys|) && |p| == |xs| && forall i :: 0 <= i < |xs| ==> xs[i] == ys[p[i]]
  {
    if xs == [] {
      p := [];
    } else {
      var before := xs[..|xs| - 1];
      var j, rest := TakeOut(xs, ys);
      var q := PairAlike(before, rest);
      p := seq(|q|, i requires 0 <= i < |q| => if q[i] < j then q[i] else q[i] + 1) + [j];
    }
  }

  /** A place in ys where the last of xs stands, and ys without it. */
  lemma TakeOut<T(!new)>(xs: seq<T>, ys: seq<T>) returns (j: nat, rest: seq<T>)
    requires xs != [] && multiset(xs) <= multiset(ys)
    ensures j < |ys| && ys[j] == xs[|xs| - 1] && rest == ys[..j] + ys[j + 1..]
    ensures multiset(xs[..|xs| - 1]) <= multiset(rest)
  {
    var x := xs[|xs| - 1];
    assert xs == xs[..|xs| - 1] + [x] && x in multiset(xs);
    assert x in multiset(ys);
    j :| j < |ys| && ys[j] == x;
    rest := ys[..j] + ys[j + 1..];
    assert ys == ys[..j] + [x] + ys[j + 1..];
    assert multiset(ys) == multiset(rest) + multiset{x};
    OneLess(multiset(xs[..|xs| - 1]), multiset(rest), x);
  }

  lemma OneLess<T>(a: multiset<T>, b: multiset<T>, x: T)
    requires a + multiset{x} <= b + multiset{x}
    ensures a <= b
  {
    forall e ensures a[e] <= b[e] {
      assert (a + multiset{x})[e] <= (b + multiset{x})[e];
    }
  }

  /** An injection of n indices into n is onto, so it can be turned round. */
  lemma Inverse(p: seq<nat>) returns (q: seq<nat>)
    requires Injection(p, |p|)
    ensures |q| == |p| && Injection(q, |p|)
    ensures forall j :: 0 <= j < |q| ==> p[q[j]] == j
  {
    DistinctFits(p, Indices(|p|));
    assert forall j: nat :: j in Indices(|p|) ==> j in p;
    q := seq(|p|, j requires 0 <= j < |p| => Position(p, j));
    assert forall j :: 0 <= j < |q| ==> p[q[j]] == j;
  }

  ghost function Position(p: seq<nat>, j: nat): (i: nat)
    requires j in p
    ensures i < |p| && p[i] == j
  {
    var i: nat :| i < |p| && p[i] == j;
    i
  }

  // ----- First fit never misses a pairing

  /** If a pairing extends the choices made so far, then after taking any free partner j of xs[i]
      one still does: whoever held j takes over the partner i gives up. */
  lemma Exchange(xs: seq<Json>, ys: seq<Json>, p: seq<nat>, i: nat, j: nat) returns (p': seq<nat>)
    requires Pairing(xs, ys, p) && i < |xs| && j < |ys|
    requires Same(xs[i], ys[j]) && forall k :: 0 <= k < i ==> p[k] != j
    ensures Pairing(xs, ys, p') && p'[..i] == p[..i] && p'[i] == j
  {
    hide Same;
    if j !in p {
      p' := p[i := j];
    } else {
      var h: nat :| h < |p| && p[h] == j;
      p' := p[i := j][h := p[i]];
      if h == i {
        p' := p;
      } else {
        SameSymmetric(xs[i], ys[j]);
        SameTransitive(xs[h], ys[j], xs[i]);
        SameTransitive(xs[h], xs[i], ys[p[i]]);
      }
    }
  }

  method EqualsIgnoreArrayOrder(want: Json, got: Json) returns (r: bool)
    ensures r == Same(want, got)
    decreases want, 3
  {
    r := MapDeepCompare(want, got);
    if !r {
      r := SlicesDeepCompare(want, got);
      if !r {
        r := !Structural(want) && want == got;
      }
    }
  }

  predicate Structural(x: Json) {
    x.Obj? || x.Arr?
  }

  /** Equality of dynamic types. */
  predicate SameType(x: Json, y: Json) {
    && x.Null? == y.Null? && x.Bool? == y.Bool? && x.Num? == y.Num?
    && x.Str? == y.Str? && x.Arr? == y.Arr? && x.Obj? == y.Obj?
  }

  method MapDeepCompare(want: Json, got: Json) returns (r: bool)
    ensures r <==> (want.Obj? || want.Null?) && Same(want, got)
    decreases want, 2
  {
    if want.Obj? {
      r := MapAnyCompare(want.fields, got);
    } else if !SameType(want, got) {
      r := false;
    } else {
      r := want.Null?;
    }
  }

  method MapAnyCompare(want: map<Bytes, Json>, got: Json) returns (r: bool)
    ensures r == Same(Obj(want), got)
    decreases Obj(want), 1
  {
    if !got.Obj? || |want| != |got.fields| {
      return false;
    }
    var right := got.fields;
    var todo := want.Keys;
    while todo != {}
      invariant todo <= want.Keys
      invariant forall k :: k in want && k !in todo ==> k in right && Same(want[k], right[k])
    {
      var k :| k in todo;
      if k !in right {
        return false;
      }
      var same := EqualsIgnoreArrayOrder(want[k], right[k]);
      if !same {
        return false;
      }
      todo := todo - {k};
    }
    SubsetOfSameSize(want.Keys, right.Keys);
    return true;
  }

  method SlicesDeepCompare(want: Json, got: Json) returns (r: bool)
    ensures r <==> (want.Arr? || want.Null?) && Same(want, got)
    decreases want, 2
  {
    if !SameType(want, got) {
      return false;
    }
    if want.Null? {
      return true;
    }
    if !want.Arr? || |want.items| != |got.items| {
      return false;
    }
    SameArrays(want.items, got.items);
    r := SlicesDeepEqualContains(want.items, got.items);
  }

  method SlicesDeepEqualContains(want: seq<Json>, got: seq<Json>) returns (r: bool)
    ensures r <==> Pairable(want, got)
    decreases Arr(want), 1
  {
    hide Same;
    var marks := new bool[|got|](_ => false);
    var res := 0;
    ghost var picks: seq<nat> := [];
    ghost var solvable := Pairable(want, got);
    ghost var p: seq<nat> := [];
    if solvable {
      p :| Pairing(want, got, p);
    }
    for i := 0 to |want|
      invariant res <= i
      invariant res == i ==> |picks| == i && Injection(picks, |got|)
      invariant res == i ==> forall k :: 0 <= k < i ==> Same(want[k], got[picks[k]])
      invariant res == i ==> forall j :: 0 <= j < marks.Length ==> (marks[j] <==> j in picks)
      invariant solvable ==> res == i && Pairing(want, got, p) && p[..i] == picks
    {
      if solvable {
        // The partner that the pairing gives to want[i] is still free.
        assert forall k :: 0 <= k < i ==> p[k] == picks[k];
        assert !marks[p[i]] && Same(want[i], got[p[i]]);
      }
      var j, found := 0, false;
      ghost var before := marks[..];
      while j < |got| && !found
        invariant j <= |got|
        invariant marks[..] == before
        invariant found ==> j < |got| && !marks[j] && Same(want[i], got[j])
        invariant !found ==> forall k :: 0 <= k < j && !marks[k] ==> !Same(want[i], got[k])
        decreases |got| - j, !found
      {
        var fits := false;
        if !marks[j] {
          fits := EqualsIgnoreArrayOrder(want[i], got[j]);
        }
        if fits {
          found := true;
        } else {
          j := j + 1;
        }
      }
      if found {
        if solvable {
          p := Exchange(want, got, p, i, j);
          assert p[..i + 1] == p[..i] + [j];
        }
        marks[j] := true;
        res := res + 1;
        picks := picks + [j];
      }
    }
    r := res == |want|;
    if r {
      assert Pairing(want, got, picks);
    }
  }
}
