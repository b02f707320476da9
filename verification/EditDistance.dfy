/** The string similarity of internal/infra/deeply/ranker.go: a one-column dynamic program for the
    Levenshtein distance, normalised by the longer string. */
module EditDistance {
  import opened Utf8
  import opened Bounds

  // The reference notion is the rewriting one: `Reachable(s, t, k)` says that k single-character
  // insertions, deletions and substitutions, made anywhere and in any order, lead from s to t.

  // ----- Reference: rewriting by single edits

  predicate Insertion<T(==)>(s: seq<T>, t: seq<T>, i: nat) {
    i < |t| && |t| == |s| + 1 && t[..i] == s[..i] && t[i + 1..] == s[i..]
  }

  predicate Substitution<T(==)>(s: seq<T>, t: seq<T>, i: nat) {
    i < |s| && |t| == |s| && t[..i] == s[..i] && t[i + 1..] == s[i + 1..]
  }

  ghost predicate SingleEdit<T(!new)>(s: seq<T>, t: seq<T>) {
    exists i: nat :: Insertion(s, t, i) || Insertion(t, s, i) || Substitution(s, t, i)
  }

  ghost predicate EditChain<T(!new)>(c: seq<seq<T>>) {
    |c| > 0 && forall i :: 0 <= i < |c| - 1 ==> SingleEdit(c[i], c[i + 1])
  }

  ghost predicate Leads<T(!new)>(c: seq<seq<T>>, s: seq<T>, t: seq<T>, k: nat) {
    EditChain(c) && |c| == k + 1 && c[0] == s && c[k] == t
  }

  ghost predicate Reachable<T(!new)>(s: seq<T>, t: seq<T>, k: nat) {
    exists c :: Leads(c, s, t, k)
  }

  // ----- The recurrence the column program evaluates

  function Lev<T(==)>(s: seq<T>, t: seq<T>): nat {
    if s == [] then |t|
    else if t == [] then |s|
    else
      var s', t' := s[..|s| - 1], t[..|t| - 1];
      var cost := if s[|s| - 1] == t[|t| - 1] then 0 else 1;
      Min(Lev(s', t) + 1, Min(Lev(s, t') + 1, Lev(s', t') + cost))
  }

  lemma {:induction false} LevBounds<T>(s: seq<T>, t: seq<T>)
    ensures Lev(s, t) <= Max(|s|, |t|)
    ensures |s| - |t| <= Lev(s, t) && |t| - |s| <= Lev(s, t)
    decreases |s| + |t|
  {
    if s != [] && t != [] {
      var s', t' := s[..|s| - 1], t[..|t| - 1];
      LevBounds(s', t);
      LevBounds(s, t');
      LevBounds(s', t');
    }
  }

  lemma {:induction false} LevZero<T>(s: seq<T>, t: seq<T>)
    ensures Lev(s, t) == 0 <==> s == t
    decreases |s| + |t|
  {
    if s != [] && t != [] {
      var s', t' := s[..|s| - 1], t[..|t| - 1];
      LevZero(s', t');
      assert s == s' + [s[|s| - 1]] && t == t' + [t[|t| - 1]];
    }
  }

  lemma {:induction false} LevSymmetric<T>(s: seq<T>, t: seq<T>)
    ensures Lev(s, t) == Lev(t, s)
    decreases |s| + |t|
  {
    if s != [] && t != [] {
      var s', t' := s[..|s| - 1], t[..|t| - 1];
      LevSymmetric(s', t);
      LevSymmetric(s, t');
      LevSymmetric(s', t');
    }
  }

  /** Dropping the last character moves the distance by at most one. */
  lemma {:induction false} LevDropLast<T(!new)>(s: seq<T>, t: seq<T>)
    requires s != []
    ensures Lev(s[..|s| - 1], t) <= Lev(s, t) + 1
    ensures Lev(s, t) <= Lev(s[..|s| - 1], t) + 1
    decreases |s| + |t|
  {
    var s' := s[..|s| - 1];
    if t != [] {
      var t' := t[..|t| - 1];
      LevDropLast(s, t');
      if s' != [] {
        LevDropLast(s', t');
      } else {
        LevBounds(s, t);
      }
      assert Lev(s, t) <= Lev(s, t[..|t| - 1]) + 1;
    }
  }

  /** Inserting one character anywhere moves the distance to any third string by at most one. */
  lemma {:induction false} LevInsertion<T(!new)>(s: seq<T>, u: seq<T>, i: nat, t: seq<T>)
    requires Insertion(s, u, i)
    ensures Lev(u, t) <= Lev(s, t) + 1
    ensures Lev(s, t) <= Lev(u, t) + 1
    decreases |s| + |t|
  {
    if i == |s| {
      assert u[..|u| - 1] == s;
      LevDropLast(u, t);
    } else if t != [] {
      var s', u', t' := s[..|s| - 1], u[..|u| - 1], t[..|t| - 1];
      LastOfTail(s, i, u, i + 1);
      LevInsertion(s', u', i, t);
      LevInsertion(s, u, i, t');
      LevInsertion(s', u', i, t');
    }
  }

  /** Substituting one character anywhere moves the distance to any third string by at most one. */
  lemma {:induction false} LevSubstitution<T(!new)>(s: seq<T>, u: seq<T>, i: nat, t: seq<T>)
    requires Substitution(s, u, i)
    ensures Lev(u, t) <= Lev(s, t) + 1
    decreases |s| + |t|
  {
    if t == [] {
      LevBounds(s, t);
      LevBounds(u, t);
    } else {
      var s', u', t' := s[..|s| - 1], u[..|u| - 1], t[..|t| - 1];
      SubstitutionEnds(s, u, i);
      LevUnfolds(s, t);
      LevUnfolds(u, t);
      hide Lev, Substitution;
      LevSubstitution(s, u, i, t');
      if i < |s| - 1 {
        LevSubstitution(s', u', i, t);
        LevSubstitution(s', u', i, t');
      }
    }
  }

  lemma LevUnfolds<T>(s: seq<T>, t: seq<T>)
    requires s != [] && t != []
    ensures var s', t' := s[..|s| - 1], t[..|t| - 1];
      Lev(s, t) == Min(Lev(s, t') + 1,
                       Min(Lev(s', t) + 1, Lev(s', t') + (if s[|s| - 1] != t[|t| - 1] then 1 else 0)))
  {
  }

  /** Either the last character is the one substituted, or the substitution is in what precedes it. */
  lemma SubstitutionEnds<T(!new)>(s: seq<T>, u: seq<T>, i: nat)
    requires Substitution(s, u, i)
    ensures var s', u' := s[..|s| - 1], u[..|u| - 1];
      if i == |s| - 1 then s' == u' else s[|s| - 1] == u[|u| - 1] && Substitution(s', u', i)
  {
    if i < |s| - 1 {
      LastOfTail(s, i + 1, u, i + 1);
    }
  }

  /** Equal non-empty tails have equal last characters and equal remainders. */
  lemma LastOfTail<T(!new)>(s: seq<T>, i: nat, u: seq<T>, j: nat)
    requires i < |s| && j < |u| && s[i..] == u[j..]
    ensures s[|s| - 1] == u[|u| - 1]
    ensures s[..|s| - 1][i..] == u[..|u| - 1][j..]
  {
  }

  lemma {:induction false} LevLowerBound<T(!new)>(c: seq<seq<T>>, t: seq<T>)
    requires EditChain(c)
    ensures Lev(c[0], t) <= |c| - 1 + Lev(c[|c| - 1], t)
  {
    if |c| > 1 {
      var s, u := c[0], c[1];
      assert SingleEdit(s, u);
      var i: nat :| Insertion(s, u, i) || Insertion(u, s, i) || Substitution(s, u, i);
      if Insertion(s, u, i) {
        LevInsertion(s, u, i, t);
      } else if Insertion(u, s, i) {
        LevInsertion(u, s, i, t);
      } else {
        assert Substitution(u, s, i);
        LevSubstitution(u, s, i, t);
      }
      var d := c[1..];
      forall j | 0 <= j < |d| - 1 ensures SingleEdit(d[j], d[j + 1]) {
        assert SingleEdit(c[j + 1], c[(j + 1) + 1]);
      }
      LevLowerBound(d, t);
    }
  }

  /** One more edit at the end of a chain. */
  lemma Extend<T(!new)>(s: seq<T>, u: seq<T>, k: nat, t: seq<T>)
    requires Reachable(s, u, k) && SingleEdit(u, t)
    ensures Reachable(s, t, k + 1)
  {
    var c :| Leads(c, s, u, k);
    var d := c + [t];
    assert forall i :: 0 <= i < |d| - 1 ==> SingleEdit(d[i], d[i + 1]);
    assert Leads(d, s, t, k + 1);
  }

  /** A chain still works with the same character appended throughout. */
  lemma AppendThroughout<T(!new)>(s: seq<T>, t: seq<T>, k: nat, x: T)
    requires Reachable(s, t, k)
    ensures Reachable(s + [x], t + [x], k)
  {
    var c :| Leads(c, s, t, k);
    var d := seq(|c|, i requires 0 <= i < |c| => c[i] + [x]);
    forall i | 0 <= i < |d| - 1 ensures SingleEdit(d[i], d[i + 1]) {
      assert SingleEdit(c[i], c[i + 1]);
      AppendToEdit(c[i], c[i + 1], x);
    }
    assert Leads(d, s + [x], t + [x], k);
  }

  lemma AppendToEdit<T(!new)>(s: seq<T>, t: seq<T>, x: T)
    requires SingleEdit(s, t)
    ensures SingleEdit(s + [x], t + [x])
  {
    var i: nat :| Insertion(s, t, i) || Insertion(t, s, i) || Substitution(s, t, i);
    var s', t' := s + [x], t + [x];
    assert s'[..i] == s[..i] && t'[..i] == t[..i];
    if Insertion(s, t, i) {
      assert t'[i + 1..] == t[i + 1..] + [x] && s'[i..] == s[i..] + [x];
      assert Insertion(s', t', i);
    } else if Insertion(t, s, i) {
      assert s'[i + 1..] == s[i + 1..] + [x] && t'[i..] == t[i..] + [x];
      assert Insertion(t', s', i);
    } else {
      assert s'[i + 1..] == s[i + 1..] + [x] && t'[i + 1..] == t[i + 1..] + [x];
      assert Substitution(s', t', i);
    }
  }

  lemma {:induction false} LevReached<T(!new)>(s: seq<T>, t: seq<T>)
    ensures Reachable(s, t, Lev(s, t))
    decreases |s| + |t|
  {
    if s == [] && t == [] {
      assert Leads([s], s, t, 0);
    } else if s == [] || (t != [] && Lev(s, t) == Lev(s, t[..|t| - 1]) + 1) {
      var t' := t[..|t| - 1];
      LevReached(s, t');
      assert Insertion(t', t, |t'|);
      assert Lev(s, t) == Lev(s, t') + 1;
      Extend(s, t', Lev(s, t'), t);
    } else if t == [] || Lev(s, t) == Lev(s[..|s| - 1], t) + 1 {
      DropLastThenReach(s, t);
    } else {
      var s', t' := s[..|s| - 1], t[..|t| - 1];
      var x, y := s[|s| - 1], t[|t| - 1];
      LevReached(s', t');
      AppendThroughout(s', t', Lev(s', t'), x);
      assert s == s' + [x] && t == t' + [y];
      if x != y {
        assert Substitution(t' + [x], t, |t'|);
        Extend(s, t' + [x], Lev(s', t'), t);
      }
    }
  }

  lemma {:induction false} DropLastThenReach<T(!new)>(s: seq<T>, t: seq<T>)
    requires s != [] && Lev(s, t) == Lev(s[..|s| - 1], t) + 1
    ensures Reachable(s, t, Lev(s, t))
    decreases |s| + |t|, 0
  {
    var s' := s[..|s| - 1];
    LevReached(s', t);
    var k := Lev(s', t);
    var c :| Leads(c, s', t, k);
    assert Insertion(s', s, |s'|);
    var d := [s] + c;
    forall i | 0 <= i < |d| - 1 ensures SingleEdit(d[i], d[i + 1]) {
      if i > 0 {
        assert SingleEdit(c[i - 1], c[(i - 1) + 1]);
      }
    }
    assert Leads(d, s, t, k + 1);
  }

  /** The recurrence is the edit distance: some chain of that many single edits leads from s to t
      and no shorter one does. */
  lemma LevIsShortest<T(!new)>(s: seq<T>, t: seq<T>)
    ensures Reachable(s, t, Lev(s, t))
    ensures forall k: nat :: Reachable(s, t, k) ==> Lev(s, t) <= k
  {
    LevReached(s, t);
    forall k: nat | Reachable(s, t, k) ensures Lev(s, t) <= k {
      var c :| Leads(c, s, t, k);
      LevLowerBound(c, t);
      LevZero(t, t);
    }
  }

  /** k is the least number of single edits that leads from s to t. */
  ghost predicate Shortest<T(!new)>(s: seq<T>, t: seq<T>, k: nat) {
    Reachable(s, t, k) && forall j: nat :: Reachable(s, t, j) ==> k <= j
  }

  lemma OnlyShortest<T(!new)>(s: seq<T>, t: seq<T>, k: nat)
    ensures Shortest(s, t, k) <==> k == Lev(s, t)
  {
    LevIsShortest(s, t);
  }

  // ----- The column program

  /** Both loops of the source, the byte one and the rune one: `column[y]` walks from the distance
      between s[..y] and t[..x - 1] to the one between s[..y] and t[..x]. */
  method ColumnDistance<T(==)>(s: seq<T>, t: seq<T>) returns (d: nat)
    ensures d == Lev(s, t)
  {
    hide Lev, Min;
    var column := new nat[|s| + 1](y => y);
    forall y | 0 <= y <= |s| ensures column[y] == Lev(s[..y], t[..0]) {
      LevEdges(s, t, y, 0);
    }
    for x := 1 to |t| + 1
      invariant forall y :: 0 <= y <= |s| ==> column[y] == Lev(s[..y], t[..x - 1])
    {
      column[0] := x;
      var lastDiag := x - 1;
      LevEdges(s, t, 0, x);
      LevEdges(s, t, 0, x - 1);
      for y := 1 to |s| + 1
        invariant lastDiag == Lev(s[..y - 1], t[..x - 1])
        invariant forall z :: 0 <= z < y ==> column[z] == Lev(s[..z], t[..x])
        invariant forall z :: y <= z <= |s| ==> column[z] == Lev(s[..z], t[..x - 1])
      {
        var oldDiag := column[y];
        var cost := if s[y - 1] != t[x - 1] then 1 else 0;
        LevStep(s, t, y, x);
        column[y] := Min(column[y] + 1, Min(column[y - 1] + 1, lastDiag + cost));
        lastDiag := oldDiag;
      }
    }
    assert s[..|s|] == s && t[..|t|] == t;
    d := column[|s|];
  }

  lemma LevEdges<T>(s: seq<T>, t: seq<T>, y: nat, x: nat)
    requires y <= |s| && x <= |t|
    ensures x == 0 ==> Lev(s[..y], t[..x]) == y
    ensures y == 0 ==> Lev(s[..y], t[..x]) == x
  {
  }

  lemma LevStep<T>(s: seq<T>, t: seq<T>, y: nat, x: nat)
    requires 0 < y <= |s| && 0 < x <= |t|
    ensures Lev(s[..y], t[..x]) ==
            Min(Lev(s[..y], t[..x - 1]) + 1,
                Min(Lev(s[..y - 1], t[..x]) + 1,
                    Lev(s[..y - 1], t[..x - 1]) + (if s[y - 1] != t[x - 1] then 1 else 0)))
  {
    assert s[..y][..y - 1] == s[..y - 1];
    assert t[..x][..x - 1] == t[..x - 1];
  }

  predicate IsAscii(s: Bytes) {
    forall i :: 0 <= i < |s| ==> s[i] < 0x80
  }

  /** What `distance` promises: one minus the edit distance over the longer length, in runes. */
  function Similarity(s: Bytes, t: Bytes): real {
    if s == t then 1.0
    else if s == [] || t == [] then 0.0
    else SequenceSimilarity(Runes(s), Runes(t))
  }

  function SequenceSimilarity<T(==)>(a: seq<T>, b: seq<T>): real
    requires a != []
  {
    Normalised(Lev(a, b), Max(|a|, |b|))
  }

  function Normalised(d: nat, n: nat): real
    requires n > 0
  {
    (n as real - d as real) / n as real
  }

  /** r is the share of the longer sequence that a shortest rewriting does not touch. */
  ghost predicate IsShare<T(!new)>(a: seq<T>, b: seq<T>, r: real) {
    var n := if |a| < |b| then |b| else |a|;
    forall k: nat :: Shortest(a, b, k) ==> r * n as real == n as real - k as real
  }

  lemma ShareOfLonger<T(!new)>(a: seq<T>, b: seq<T>)
    requires a != []
    ensures IsShare(a, b, SequenceSimilarity(a, b))
  {
    forall k: nat ensures Shortest(a, b, k) <==> k == Lev(a, b) {
      OnlyShortest(a, b, k);
    }
    hide Shortest, Lev;
    Quotient(Lev(a, b), Max(|a|, |b|));
  }

  lemma Quotient(d: nat, n: nat)
    requires n > 0
    ensures Normalised(d, n) * n as real == n as real - d as real
  {
  }

  method Distance(s: Bytes, t: Bytes) returns (r: real)
    ensures r == Similarity(s, t)
    ensures s != t && s != [] && t != [] ==> IsShare(Runes(s), Runes(t), r)
    ensures s == t ==> r == 1.0
    ensures s != t && (s == [] || t == []) ==> r == 0.0
  {
    if s == t {
      return 1.0;
    }
    if |s| == 0 || |t| == 0 {
      return 0.0;
    }
    ShareOfLonger(Runes(s), Runes(t));
    hide IsShare;
    if IsAscii(s) && IsAscii(t) {
      AsciiPathAgrees(s, t);
      r := DistanceASCII(s, t);
    } else {
      var r1, r2 := Runes(s), Runes(t);
      var d := ColumnDistance(r1, r2);
      assert r1 != [];
      r := Normalised(d, Max(|r1|, |r2|));
    }
  }

  /** The byte path: on its own terms it knows nothing of runes. */
  method DistanceASCII(s: Bytes, t: Bytes) returns (r: real)
    requires s != [] && t != []
    ensures r == SequenceSimilarity(s, t) && IsShare(s, t, r)
  {
    ShareOfLonger(s, t);
    hide IsShare;
    var d := ColumnDistance(s, t);
    r := Normalised(d, Max(|s|, |t|));
  }

  /** The byte path and the rune path agree on ASCII input. */
  lemma AsciiPathAgrees(s: Bytes, t: Bytes)
    requires IsAscii(s) && IsAscii(t) && s != []
    ensures SequenceSimilarity(s, t) == SequenceSimilarity(Runes(s), Runes(t))
  {
    AsciiRunes(s);
    AsciiRunes(t);
    LevAlike(s, t, Widened(s), Widened(t));
  }

  ghost predicate Alike<T(!new), U(!new)>(s: seq<T>, t: seq<T>, a: seq<U>, b: seq<U>) {
    && |s| == |a| && |t| == |b|
    && forall i, j :: 0 <= i < |s| && 0 <= j < |t| ==> (s[i] == t[j] <==> a[i] == b[j])
  }

  /** The distance depends only on which elements are equal. */
  lemma {:induction false} LevAlike<T(!new), U(!new)>(s: seq<T>, t: seq<T>, a: seq<U>, b: seq<U>)
    requires Alike(s, t, a, b)
    ensures Lev(s, t) == Lev(a, b)
    decreases |s| + |t|
  {
    if s != [] && t != [] {
      var s', t', a', b' := s[..|s| - 1], t[..|t| - 1], a[..|a| - 1], b[..|b| - 1];
      assert Alike(s[..|s| - 1], t, a[..|a| - 1], b) && Alike(s, t[..|t| - 1], a, b[..|b| - 1]);
      assert Alike(s[..|s| - 1], t[..|t| - 1], a[..|a| - 1], b[..|b| - 1]);
      assert s[|s| - 1] == t[|t| - 1] <==> a[|a| - 1] == b[|b| - 1];
      assert |a'| == |s'| && |b'| == |t'|;
      LevUnfolds(s, t);
      LevUnfolds(a, b);
      hide *;
      LevAlike(s', t, a', b);
      LevAlike(s, t', a, b');
      LevAlike(s', t', a', b');
    }
  }

  lemma RealSelfQuotient(x: real)
    requires x != 0.0
    ensures x / x == 1.0
  {
  }

  lemma NormalisedRange(d: nat, n: nat)
    requires d <= n && n > 0
    ensures 0.0 <= Normalised(d, n) <= 1.0
    ensures Normalised(d, n) == 1.0 <==> d == 0
  {
    var r := Normalised(d, n);
    assert r * n as real == n as real - d as real;
    if d == 0 {
      RealSelfQuotient(n as real);
    }
  }

  lemma SimilarityLaws(s: Bytes, t: Bytes)
    ensures 0.0 <= Similarity(s, t) <= 1.0
    ensures Similarity(s, t) == Similarity(t, s)
    ensures Similarity(s, t) == 1.0 <==> s == t || (s != [] && t != [] && Runes(s) == Runes(t))
  {
    if s != t && s != [] && t != [] {
      var a, b := Runes(s), Runes(t);
      LevBounds(a, b);
      LevSymmetric(a, b);
      LevZero(a, b);
      NormalisedRange(Lev(a, b), Max(|a|, |b|));
    }
  }

  /** A full score is claimed for identical strings only. That holds against every counterpart of s
      exactly when U+FFFD does not occur in the decoding of s. */
  lemma FullScoreMeansEqual(s: Bytes)
    ensures (forall t: Bytes :: Similarity(s, t) == 1.0 <==> s == t) <==> RUNE_ERROR !in Runes(s)
  {
    if RUNE_ERROR in Runes(s) {
      var t, k := Respell(s, s);
      SimilarityLaws(s, t);
      assert Similarity(s, t) == 1.0 && s != t;
    } else {
      forall t: Bytes ensures Similarity(s, t) == 1.0 <==> s == t {
        SimilarityLaws(s, t);
        if Runes(s) == Runes(t) {
          DecodingInjective(s, t);
        }
      }
    }
  }

  lemma LettersDiffer()
    ensures Similarity([0x61], [0x62]) == 0.0
  {
    var s, t: Bytes := [0x61], [0x62];
    assert s[1..] == [] && t[1..] == [];
    assert Runes(s) == [0x61] && Runes(t) == [0x62];
    assert s[..0] == [];
    var a, b: seq<rune> := [0x61], [0x62];
    assert a[..0] == [] && b[..0] == [];
    assert Lev(a, b) == 1;
  }

  /** The smallest failing pair: two different stray bytes score as identical. */
  lemma StrayBytesScoreFull()
    ensures Similarity([0xFE], [0xFF]) == 1.0
  {
    var s, t: Bytes := [0xFE], [0xFF];
    assert Runes(s) == [RUNE_ERROR] && Runes(t) == [RUNE_ERROR] by {
      assert s[1..] == [] && t[1..] == [];
    }
    SimilarityLaws(s, t);
  }
}
