/** Two ways to pair rows with columns of a score table, taking rows in order: the documented one
    and the one carried out (slicesRankMatch in internal/infra/deeply/ranker.go). */
module Pairing {
  import opened Wrappers

  // The comment there describes a pairing of each row with its best free column; the loop takes for
  // each row every free column that it scores with. A pairing maps columns to the rows that have
  // taken them.

  type Table = seq<seq<real>>

  ghost predicate HasWidth(t: Table, m: nat) {
    forall i :: 0 <= i < |t| ==> |t[i]| == m
  }

  /** The first of n rows that scores with column j at all. */
  function Scorer(t: Table, m: nat, j: nat, n: nat): (r: Option<nat>)
    requires HasWidth(t, m) && j < m && n <= |t|
    ensures r.Some? ==> r.value < n && t[r.value][j] != 0.0
  {
    if n == 0 then None
    else
      var earlier := Scorer(t, m, j, n - 1);
      if earlier.Some? then earlier else if t[n - 1][j] != 0.0 then Some(n - 1) else None
  }

  /** What the loop takes with n rows. */
  ghost function Consumed(t: Table, m: nat, n: nat): map<nat, nat>
    requires HasWidth(t, m) && n <= |t|
  {
    map j: nat | j < m && Scorer(t, m, j, n).Some? :: Scorer(t, m, j, n).value
  }

  /** The best of the first k columns that is free and scores with the row at all. */
  function Best(row: seq<real>, taken: set<nat>, k: nat): Option<nat>
    requires k <= |row|
  {
    if k == 0 then None
    else
      var before := Best(row, taken, k - 1);
      if k - 1 in taken || row[k - 1] == 0.0 then before
      else if before.None? || (before.value < |row| && row[before.value] < row[k - 1]) then Some(k - 1)
      else before
  }

  /** What the comment says, with n rows. */
  function Documented(t: Table, m: nat, n: nat): map<nat, nat>
    requires HasWidth(t, m) && n <= |t|
  {
    if n == 0 then map[]
    else
      var before := Documented(t, m, n - 1);
      match Best(t[n - 1], before.Keys, m)
      case None => before
      case Some(j) => before[j := n - 1]
  }

  /** The score of each column. */
  ghost function Gains(t: Table, m: nat, p: map<nat, nat>): seq<real>
    requires HasWidth(t, m)
  {
    seq(m, j requires 0 <= j < m => if j in p && p[j] < |t| then t[p[j]][j] else 0.0)
  }

  ghost predicate OneToOne(p: map<nat, nat>) {
    forall j, k :: j in p && k in p && p[j] == p[k] ==> j == k
  }

  ghost predicate IsFree(row: seq<real>, taken: set<nat>, j: nat) {
    j < |row| && j !in taken && row[j] != 0.0
  }

  lemma {:induction false} BestIsBest(row: seq<real>, taken: set<nat>, k: nat)
    requires k <= |row|
    ensures var b := Best(row, taken, k);
      && (b.Some? ==> b.value < k && IsFree(row, taken, b.value))
      && forall j: nat :: j < k && IsFree(row, taken, j) ==> b.Some? && row[j] <= row[b.value]
  {
    if k > 0 {
      BestIsBest(row, taken, k - 1);
    }
  }

  /** The documented pairing takes each row's best free column, and is one-to-one. */
  lemma {:induction false} DocumentedIsGreedy(t: Table, m: nat, n: nat)
    requires HasWidth(t, m) && n <= |t|
    ensures var p := Documented(t, m, n);
      OneToOne(p) && forall j :: j in p ==> j < m && p[j] < n && t[p[j]][j] != 0.0
  {
    if n > 0 {
      DocumentedIsGreedy(t, m, n - 1);
      BestIsBest(t[n - 1], Documented(t, m, n - 1).Keys, m);
    }
  }

  lemma {:induction false} ScorerStays(t: Table, m: nat, j: nat, n: nat, k: nat)
    requires HasWidth(t, m) && j < m && n <= k <= |t| && Scorer(t, m, j, n).Some?
    ensures Scorer(t, m, j, k) == Scorer(t, m, j, n)
  {
    if n < k {
      ScorerStays(t, m, j, n, k - 1);
    }
  }

  lemma ConsumedStep(t: Table, m: nat, n: nat)
    requires HasWidth(t, m) && 0 < n <= |t|
    ensures var before, now := Consumed(t, m, n - 1), Consumed(t, m, n);
      && (forall j :: j in before ==> j in now && now[j] == before[j])
      && (forall j :: j in now && j !in before ==> IsFree(t[n - 1], before.Keys, j) && now[j] == n - 1)
      && (forall j :: IsFree(t[n - 1], before.Keys, j) ==> j in now)
  {
  }

  lemma ConsumedWithin(t: Table, m: nat, n: nat)
    requires HasWidth(t, m) && n <= |t| && OneToOne(Consumed(t, m, |t|))
    ensures OneToOne(Consumed(t, m, n))
  {
    var now, all := Consumed(t, m, n), Consumed(t, m, |t|);
    forall j | j in now ensures j in all && all[j] == now[j] {
      ScorerStays(t, m, j, n, |t|);
    }
  }

  /** The loop does what the comment says exactly if no row takes two columns, that is, if no two
      columns share their first scorer. */
  lemma DocumentedExactly(t: Table, m: nat)
    requires HasWidth(t, m)
    ensures Consumed(t, m, |t|) == Documented(t, m, |t|) <==> OneToOne(Consumed(t, m, |t|))
  {
    DocumentedIsGreedy(t, m, |t|);
    if OneToOne(Consumed(t, m, |t|)) {
      DocumentedUpTo(t, m, |t|);
    }
  }

  lemma {:induction false} DocumentedUpTo(t: Table, m: nat, n: nat)
    requires HasWidth(t, m) && n <= |t| && OneToOne(Consumed(t, m, |t|))
    ensures Consumed(t, m, n) == Documented(t, m, n)
  {
    if n == 0 {
      assert Consumed(t, m, 0) == map[];
    } else {
      DocumentedUpTo(t, m, n - 1);
      ConsumedWithin(t, m, n);
      ConsumedStep(t, m, n);
      var before, now := Consumed(t, m, n - 1), Consumed(t, m, n);
      BestIsBest(t[n - 1], before.Keys, m);
      hide Consumed, Best, OneToOne;
      SameStep(before, now, t[n - 1], n - 1);
    }
  }

  /** At most one column is new, and it is the best because it is the only one. */
  lemma SameStep(before: map<nat, nat>, now: map<nat, nat>, row: seq<real>, i: nat)
    requires OneToOne(now) && forall j :: j in before ==> j in now && now[j] == before[j]
    requires forall j :: j in now && j !in before ==> IsFree(row, before.Keys, j) && now[j] == i
    requires forall j :: IsFree(row, before.Keys, j) ==> j in now
    requires Best(row, before.Keys, |row|).Some? ==> IsFree(row, before.Keys, Best(row, before.Keys, |row|).value)
    requires forall j: nat :: IsFree(row, before.Keys, j) ==> Best(row, before.Keys, |row|).Some?
    ensures now == match Best(row, before.Keys, |row|) case None => before case Some(j) => before[j := i]
  {
    hide Best;
  }

  ghost predicate ShareScorer(t: Table, m: nat, j: nat, k: nat)
    requires HasWidth(t, m)
  {
    j < k < m && Scorer(t, m, j, |t|).Some? && Scorer(t, m, j, |t|) == Scorer(t, m, k, |t|)
  }

  ghost predicate NoneShare(t: Table, m: nat)
    requires HasWidth(t, m)
  {
    forall j: nat, k: nat :: !ShareScorer(t, m, j, k)
  }

  lemma OneToOneExactly(t: Table, m: nat)
    requires HasWidth(t, m)
    ensures OneToOne(Consumed(t, m, |t|)) <==> NoneShare(t, m)
  {
    var p := Consumed(t, m, |t|);
    forall j: nat, k: nat | ShareScorer(t, m, j, k) ensures !OneToOne(p) {
      assert j in p && k in p && p[j] == p[k];
    }
    if !OneToOne(p) {
      var j, k :| j in p && k in p && p[j] == p[k] && j != k;
      assert ShareScorer(t, m, if j < k then j else k, if j < k then k else j);
    }
  }

  /** Different pairings can gain the same: with these scores the loop gives both columns to the first
      row, and the comment one to each. */
  lemma SameGains()
    ensures var t := [[1.0, 0.5], [0.0, 0.5]];
      && HasWidth(t, 2) && Consumed(t, 2, 2) != Documented(t, 2, 2)
      && Gains(t, 2, Consumed(t, 2, 2)) == Gains(t, 2, Documented(t, 2, 2))
  {
    var t := [[1.0, 0.5], [0.0, 0.5]];
    assert HasWidth(t, 2);
    assert Scorer(t, 2, 0, 0) == None && Scorer(t, 2, 1, 0) == None;
    assert Scorer(t, 2, 0, 1) == Some(0) && Scorer(t, 2, 1, 1) == Some(0);
    assert Consumed(t, 2, 2) == map[0 := 0, 1 := 0];
    var one, two := Best(t[0], {}, 2), Best(t[1], {0}, 2);
    assert Best(t[0], {}, 0) == None && Best(t[0], {}, 1) == Some(0) && one == Some(0);
    assert Best(t[1], {0}, 0) == None && Best(t[1], {0}, 1) == None && two == Some(1);
    assert Documented(t, 2, 0) == map[] && Documented(t, 2, 0).Keys == {};
    assert Documented(t, 2, 1) == map[0 := 0] && Documented(t, 2, 1).Keys == {0};
    assert Documented(t, 2, 2) == map[0 := 0, 1 := 1];
    assert Gains(t, 2, map[0 := 0, 1 := 0]) == [1.0, 0.5] == Gains(t, 2, map[0 := 0, 1 := 1]);
  }
}
