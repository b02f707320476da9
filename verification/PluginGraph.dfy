/** Plugin dependencies as a graph, and what it means to order them. */
module PluginGraph {
  import opened Utf8
  import opened Finite
  import Sorting

  // Only registered plugins count: a dependency on an unknown plugin is no edge. A plugin cannot be
  // ordered exactly when it reaches a dependency cycle, which is stated on walks.

  type Name = Bytes

  datatype Graph = Graph(names: set<Name>, deps: map<Name, seq<Name>>)

  function DepsOf(g: Graph, n: Name): seq<Name> {
    if n in g.deps then g.deps[n] else []
  }

  ghost predicate Edge(g: Graph, n: Name, d: Name) {
    n in g.names && d in g.names && d in DepsOf(g, n)
  }

  ghost predicate Step(g: Graph, p: seq<Name>, i: nat) {
    i + 1 < |p| && Edge(g, p[i], p[i + 1])
  }

  ghost predicate Walk(g: Graph, p: seq<Name>) {
    p != [] && forall i: nat :: i + 1 < |p| ==> Step(g, p, i)
  }

  /** A walk that ends where it has been before. */
  ghost predicate Lasso(g: Graph, p: seq<Name>, i: nat) {
    Walk(g, p) && i < |p| - 1 && p[i] == p[|p| - 1]
  }

  ghost predicate ReachesCycle(g: Graph, n: Name) {
    exists p, i: nat :: Lasso(g, p, i) && p[0] == n
  }

  ghost predicate LeadsInto(g: Graph, n: Name, targets: set<Name>) {
    exists d :: d in targets && Edge(g, n, d)
  }

  // ----- Orders

  ghost predicate DependenciesFirst(g: Graph, ordered: seq<Name>) {
    forall i, d :: 0 <= i < |ordered| && Edge(g, ordered[i], d) ==> d in ordered[..i]
  }

  /** Exactly the plugins that reach no cycle, each once, each after its dependencies. */
  ghost predicate IsOrder(g: Graph, ordered: seq<Name>) {
    && Distinct(ordered)
    && (forall n :: n in ordered <==> n in g.names && !ReachesCycle(g, n))
    && DependenciesFirst(g, ordered)
  }

  /** The other plugins, alphabetically. */
  ghost predicate IsSkipped(g: Graph, skipped: seq<Name>) {
    && Distinct(skipped)
    && (forall n :: n in skipped <==> n in g.names && ReachesCycle(g, n))
    && Alphabetical(skipped)
  }

  // ----- Why a stuck or finished search has found the cycles

  lemma WalkTail(g: Graph, p: seq<Name>)
    requires Walk(g, p) && |p| > 1
    ensures Walk(g, p[1..]) && Edge(g, p[0], p[1])
  {
    assert Step(g, p, 0);
    forall i: nat | i + 1 < |p[1..]| ensures Step(g, p[1..], i) {
      assert Step(g, p, i + 1);
    }
  }

  lemma WalkCons(g: Graph, n: Name, p: seq<Name>)
    requires Walk(g, p) && Edge(g, n, p[0])
    ensures Walk(g, [n] + p)
  {
    forall i: nat | i + 1 < |[n] + p| ensures Step(g, [n] + p, i) {
      assert i > 0 ==> Step(g, p, i - 1);
    }
  }

  lemma WalkTake(g: Graph, p: seq<Name>, k: nat)
    requires Walk(g, p) && 0 < k <= |p|
    ensures Walk(g, p[..k])
  {
    forall i: nat | i + 1 < k ensures Step(g, p[..k], i) {
      assert Step(g, p, i);
    }
  }

  /** In an order, walks only go backwards. */
  lemma {:induction false} OrderedWalk(g: Graph, ordered: seq<Name>, p: seq<Name>, k: nat)
    requires Distinct(ordered) && DependenciesFirst(g, ordered) && Walk(g, p)
    requires k < |ordered| && ordered[k] == p[0]
    ensures forall i :: 0 < i < |p| ==> p[i] in ordered[..k]
  {
    if |p| > 1 {
      WalkTail(g, p);
      var j :| 0 <= j < k && ordered[j] == p[1];
      var rest := p[1..];
      OrderedWalk(g, ordered, rest, j);
      forall i | 0 < i < |p| ensures p[i] in ordered[..k] {
        assert p[i] == rest[i - 1];
      }
    }
  }

  /** So they never come round. */
  lemma {:induction false} NoLasso(g: Graph, ordered: seq<Name>, p: seq<Name>, i: nat)
    requires Distinct(ordered) && DependenciesFirst(g, ordered) && p != [] && p[0] in ordered
    ensures !Lasso(g, p, i)
    decreases i
  {
    if Walk(g, p) && i + 1 < |p| {
      var k :| 0 <= k < |ordered| && ordered[k] == p[0];
      OrderedWalk(g, ordered, p, k);
      if i > 0 {
        WalkTail(g, p);
        assert p[1] in ordered[..k];
        NoLasso(g, ordered, p[1..], i - 1);
      }
    }
  }

  /** Where every node has a successor that is stuck too, walks go on until they come round. */
  lemma StuckReachesCycle(g: Graph, stuck: set<Name>, n: Name)
    requires n in stuck
    requires forall m :: m in stuck ==> LeadsInto(g, m, stuck)
    ensures ReachesCycle(g, n)
  {
    hide LeadsInto;
    var p := LongWalk(g, stuck, n, |stuck|);
    assert Elements(p) <= stuck;
    var i, j := Repetition(p, stuck);
    WalkTake(g, p, j + 1);
    assert Lasso(g, p[..j + 1], i);
  }

  lemma Repetition(p: seq<Name>, bound: set<Name>) returns (i: nat, j: nat)
    requires |p| > |bound| && Elements(p) <= bound
    ensures i < j < |p| && p[i] == p[j]
  {
    if Distinct(p) {
      DistinctFits(p, bound);
    }
    i, j :| 0 <= i < j < |p| && p[i] == p[j];
  }

  lemma {:induction false} LongWalk(g: Graph, stuck: set<Name>, n: Name, k: nat) returns (p: seq<Name>)
    requires n in stuck
    requires forall m :: m in stuck ==> LeadsInto(g, m, stuck)
    ensures Walk(g, p) && |p| == k + 1 && p[0] == n && forall x :: x in p ==> x in stuck
    decreases k
  {
    hide *;
    if k == 0 {
      p := [n];
      SingleWalk(g, n);
      assert n in stuck;
    } else {
      var d := Follow(g, n, stuck);
      var rest := LongWalk(g, stuck, d, k - 1);
      WalkCons(g, n, rest);
      p := [n] + rest;
    }
  }

  lemma SingleWalk(g: Graph, n: Name)
    ensures Walk(g, [n])
  {
  }

  lemma Follow(g: Graph, n: Name, targets: set<Name>) returns (d: Name)
    requires LeadsInto(g, n, targets)
    ensures d in targets && Edge(g, n, d)
  {
    d :| d in targets && Edge(g, n, d);
  }

  lemma ReachesThrough(g: Graph, n: Name, d: Name)
    requires Edge(g, n, d) && ReachesCycle(g, d)
    ensures ReachesCycle(g, n)
  {
    var p, i: nat :| Lasso(g, p, i) && p[0] == d;
    WalkCons(g, n, p);
    assert Lasso(g, [n] + p, i + 1);
  }

  lemma OrderedReachesNoCycle(g: Graph, ordered: seq<Name>, n: Name)
    requires Distinct(ordered) && DependenciesFirst(g, ordered) && n in ordered
    ensures !ReachesCycle(g, n)
  {
    forall p, i: nat | p != [] && p[0] == n ensures !Lasso(g, p, i) {
      NoLasso(g, ordered, p, i);
    }
  }

  lemma OneMoreInOrder(g: Graph, ordered: seq<Name>, n: Name)
    requires DependenciesFirst(g, ordered) && forall d :: Edge(g, n, d) ==> d in ordered
    ensures DependenciesFirst(g, ordered + [n])
  {
    var next := ordered + [n];
    forall i, d | 0 <= i < |next| && Edge(g, next[i], d) ensures d in next[..i] {
      if i < |ordered| {
        assert Edge(g, ordered[i], d) && next[..i] == ordered[..i];
      } else {
        assert next[..i] == ordered;
      }
    }
  }

  /** A walk whose last plugin depends on one the walk has passed: the last one reaches a cycle. */
  lemma BackEdge(g: Graph, p: seq<Name>, i: nat)
    requires Walk(g, p) && i < |p| && Edge(g, p[|p| - 1], p[i])
    ensures ReachesCycle(g, p[|p| - 1])
  {
    var tail := p[i..];
    forall k: nat | k + 1 < |tail| ensures Step(g, tail, k) {
      assert Step(g, p, i + k);
    }
    WalkCons(g, p[|p| - 1], tail);
    assert Lasso(g, [p[|p| - 1]] + tail, 0);
  }

  /** An order of a subset settles the question for every plugin, provided that each plugin left
      out depends on another one left out. */
  lemma OrderSettles(g: Graph, ordered: seq<Name>)
    requires Distinct(ordered) && DependenciesFirst(g, ordered) && Elements(ordered) <= g.names
    requires forall n :: n in g.names && n !in ordered ==> LeadsInto(g, n, g.names - Elements(ordered))
    ensures IsOrder(g, ordered)
  {
    var stuck := g.names - Elements(ordered);
    forall n | n in g.names ensures n in ordered <==> !ReachesCycle(g, n) {
      hide Edge, LeadsInto;
      if n in ordered {
        OrderedReachesNoCycle(g, ordered, n);
      } else {
        StuckReachesCycle(g, stuck, n);
      }
    }
    assert forall n :: n in ordered ==> n in Elements(ordered);
  }

  // ----- What the definitions pin down

  /** Two orders of the same graph hold the same plugins and skip the same list. */
  lemma OrdersAgree(g: Graph, o1: seq<Name>, s1: seq<Name>, o2: seq<Name>, s2: seq<Name>)
    requires IsOrder(g, o1) && IsSkipped(g, s1) && IsOrder(g, o2) && IsSkipped(g, s2)
    ensures multiset(o1) == multiset(o2)
    ensures s1 == s2
  {
    DistinctMultiset(o1, o2);
    DistinctMultiset(s1, s2);
    AlphabeticalUnique(s1, s2);
  }

  /** Nothing is skipped exactly when no walk in the graph comes round. */
  lemma AcyclicSkipsNothing(g: Graph, ordered: seq<Name>, skipped: seq<Name>)
    requires IsOrder(g, ordered) && IsSkipped(g, skipped)
    ensures skipped == [] <==> !exists p, i: nat :: Lasso(g, p, i)
    ensures skipped == [] ==> Elements(ordered) == g.names
  {
    if p, i: nat :| Lasso(g, p, i) {
      WalkTail(g, p);
      assert ReachesCycle(g, p[0]);
      assert p[0] in skipped;
    }
    if skipped != [] {
      assert skipped[0] in skipped;
    }
  }

  lemma {:induction false} DistinctMultiset(a: seq<Name>, b: seq<Name>)
    requires Distinct(a) && Distinct(b) && forall n :: n in a <==> n in b
    ensures multiset(a) == multiset(b)
  {
    forall n ensures multiset(a)[n] == multiset(b)[n] {
      DistinctCount(a, n);
      DistinctCount(b, n);
    }
  }

  /** A permutation of distinct names is distinct and holds the same names. */
  lemma PermutedDistinct(a: seq<Name>, b: seq<Name>)
    requires Distinct(a) && multiset(a) == multiset(b)
    ensures Distinct(b) && forall n :: n in a <==> n in b
  {
    forall i, j | 0 <= i < j < |b| ensures b[i] != b[j] {
      DistinctCount(a, b[i]);
      TwiceCounted(b, i, j);
    }
    assert forall n :: n in a <==> n in multiset(a);
    assert forall n :: n in b <==> n in multiset(b);
  }

  lemma TwiceCounted(b: seq<Name>, i: nat, j: nat)
    requires i < j < |b|
    ensures b[i] == b[j] ==> multiset(b)[b[i]] >= 2
  {
    assert b == b[..i] + [b[i]] + b[i + 1..j] + [b[j]] + b[j + 1..];
  }

  lemma {:induction false} DistinctCount(a: seq<Name>, n: Name)
    requires Distinct(a)
    ensures multiset(a)[n] == if n in a then 1 else 0
  {
    if a != [] {
      DistinctCount(a[1..], n);
      assert a == [a[0]] + a[1..];
    }
  }

  // ----- Alphabetical order

  predicate Before(a: Name, b: Name) {
    if a == [] then b != []
    else b != [] && (a[0] < b[0] || (a[0] == b[0] && Before(a[1..], b[1..])))
  }

  ghost predicate Alphabetical(s: seq<Name>) {
    forall i, j :: 0 <= i < j < |s| ==> !Before(s[j], s[i])
  }

  lemma {:induction false} BeforeTrichotomy(a: Name, b: Name)
    ensures !(Before(a, b) && Before(b, a))
    ensures a != b ==> Before(a, b) || Before(b, a)
    ensures !Before(a, a)
  {
    if a != [] && b != [] {
      BeforeTrichotomy(a[1..], b[1..]);
      BeforeTrichotomy(a[1..], a[1..]);
      assert a == [a[0]] + a[1..] && b == [b[0]] + b[1..];
    } else if a != [] {
      BeforeTrichotomy(a[1..], a[1..]);
    }
  }

  lemma {:induction false} BeforeSplits(a: Name, b: Name, c: Name)
    requires Before(a, c)
    ensures Before(a, b) || Before(b, c)
  {
    if a != [] && b != [] && a[0] == b[0] == c[0] {
      BeforeSplits(a[1..], b[1..], c[1..]);
    }
  }

  /** Go's sort.Strings. */
  function SortNames(s: seq<Name>): seq<Name> {
    Sorting.Sort(Before, s)
  }

  lemma SortNamesSorts(s: seq<Name>)
    ensures Alphabetical(SortNames(s)) && multiset(SortNames(s)) == multiset(s)
  {
    forall a: Name, b: Name | Before(a, b) ensures !Before(b, a) {
      BeforeTrichotomy(a, b);
    }
    forall a: Name, b: Name, c: Name | Before(a, c) ensures Before(a, b) || Before(b, c) {
      BeforeSplits(a, b, c);
    }
    Sorting.SortSorts(Before, s);
  }

  /** Sorting determines the list. */
  lemma {:induction false} AlphabeticalUnique(a: seq<Name>, b: seq<Name>)
    requires Alphabetical(a) && Alphabetical(b) && multiset(a) == multiset(b)
    ensures a == b
  {
    assert |a| == |multiset(a)| == |multiset(b)| == |b|;
    if a != [] {
      assert a[0] in multiset(b) && b[0] in multiset(a);
      SameHead(a, b);
      WithoutHead(a);
      WithoutHead(b);
      AlphabeticalUnique(a[1..], b[1..]);
    }
  }

  lemma WithoutHead(a: seq<Name>)
    requires a != []
    ensures a == [a[0]] + a[1..] && multiset(a[1..]) == multiset(a) - multiset{a[0]}
  {
  }

  lemma SameHead(a: seq<Name>, b: seq<Name>)
    requires Alphabetical(a) && Alphabetical(b) && a != [] && b != [] && a[0] in b && b[0] in a
    ensures a[0] == b[0]
  {
    BeforeTrichotomy(a[0], b[0]);
  }
}
