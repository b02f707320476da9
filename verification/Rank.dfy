/** The cumulative match score of internal/infra/deeply/ranker.go, over the reals. */
module Rank {
  import opened Utf8
  import opened Wrappers
  import opened Json
  import opened Sums
  import opened Bounds
  import opened Pairing
  import EditDistance
  import Prefilter

  // The array part is greedy without a break: an expected element keeps consuming actual elements,
  // and an actual element is consumed once. Read from the other side that is simple, and it is the
  // reference here: each actual element contributes what the first expected element that scores it
  // at all gives it. How that compares with pairing each expected element with its best unused
  // partner is worked out in Pairing.

  const MAX_RANK_DEPTH := 64

  /** regexp.Compile followed by FindStringIndex: None if the pattern does not compile or does not
      match, otherwise the span of the match in the subject. */
  type Finder = f: (Bytes, Bytes) -> Option<(nat, nat)>
    | forall p, s :: f(p, s).Some? ==> f(p, s).value.0 <= f(p, s).value.1 <= |s|
    witness (p, s) => None

  function RegexScore(find: Finder, pattern: Bytes, subject: Bytes): Option<real> {
    if !Prefilter.HasRegexMeta(pattern) || !Prefilter.CanMatch(pattern, subject) then None
    else match find(pattern, subject)
      case None => None
      case Some((lo, hi)) =>
        if subject == [] then None else Some((hi - lo) as real / |subject| as real)
  }

  /** Truth values have a text too, but are told apart before it matters. */
  function Stringify(x: Json): Option<Bytes> {
    match x
    case Str(s) => Some(s)
    case Null => Some([])
    case Num(t) => Some(t)
    case _ => None
  }

  /** The score of two values taken as wholes. */
  function Whole(find: Finder, want: Json, got: Json): real {
    if got.Bool? then 0.0
    else if !want.Str? || Stringify(got).None? then (if want == got then 1.0 else 0.0)
    else
      var text := Stringify(got).value;
      if want.s == text then 1.0
      else match RegexScore(find, want.s, text)
        case Some(r) => r
        case None => EditDistance.Similarity(want.s, text)
  }

  /** A pattern that finds `hit` scores the share of the subject that it covers. */
  lemma HitShare(find: Finder, pattern: Bytes, pre: Bytes, hit: Bytes, post: Bytes)
    requires var subject := pre + hit + post;
      && subject != pattern && subject != [] && Prefilter.HasRegexMeta(pattern) && Prefilter.CanMatch(pattern, subject)
      && find(pattern, subject) == Some((|pre|, |pre| + |hit|))
    ensures var subject := pre + hit + post;
      Whole(find, Str(pattern), Str(subject)) * |subject| as real == |hit| as real
  {
    hide Prefilter.HasRegexMeta, Prefilter.CanMatch;
  }

  /** Without a match texts score by their edit distance; a number counts as its text and nil as none;
      truth values score nothing; anything else is equal or not. */
  lemma WithoutHit(find: Finder, want: Bytes, text: Bytes, x: Json, y: Json)
    ensures RegexScore(find, want, text).None? ==>
      Whole(find, Str(want), Str(text)) == Whole(find, Str(want), Num(text)) == EditDistance.Similarity(want, text)
    ensures Whole(find, Str(text), Str(text)) == Whole(find, Str(text), Num(text)) == 1.0
    ensures Whole(find, Str([]), Null) == 1.0 && (want != [] ==> Whole(find, Str(want), Null) == 0.0)
    ensures y.Bool? ==> Whole(find, x, y) == 0.0
    ensures !x.Str? && !y.Bool? ==> Whole(find, x, y) == if x == y then 1.0 else 0.0
    ensures y.Arr? || y.Obj? ==> Whole(find, Str(want), y) == 0.0
  {
    hide Prefilter.HasRegexMeta, Prefilter.CanMatch, EditDistance.SequenceSimilarity;
  }

  function Levels(depth: nat): nat { if depth > MAX_RANK_DEPTH then 0 else MAX_RANK_DEPTH + 1 - depth }

  ghost function Score(find: Finder, want: Json, got: Json, depth: nat): real
    decreases Levels(depth), 1
  {
    if depth > MAX_RANK_DEPTH then 0.0
    else if want == Obj(map[]) then 0.1
    else Whole(find, want, got) + ArrayScore(find, want, got, depth) + ObjectScore(find, want, got, depth)
  }

  ghost function ArrayScore(find: Finder, want: Json, got: Json, depth: nat): real
    requires depth <= MAX_RANK_DEPTH
    decreases Levels(depth), 0
  {
    match (want, got)
    case (Null, Null) => 1.0
    case (Arr(xs), Arr(ys)) =>
      if xs == ys == [] then 1.0
      else Sum(Credits(find, xs, ys, depth + 1)) / Max(|xs|, |ys|) as real
    case _ => 0.0
  }

  ghost function Credits(find: Finder, xs: seq<Json>, ys: seq<Json>, depth: nat): seq<real>
    decreases Levels(depth), 3
  {
    seq(|ys|, j requires 0 <= j < |ys| => Credit(find, xs, ys[j], depth))
  }

  /** What the first of xs to score y at all gives it. */
  ghost function Credit(find: Finder, xs: seq<Json>, y: Json, depth: nat): real
    decreases Levels(depth), 2, |xs|
  {
    if xs == [] then 0.0
    else
      var earlier := Credit(find, xs[..|xs| - 1], y, depth);
      if earlier != 0.0 then earlier else Score(find, xs[|xs| - 1], y, depth)
  }

  ghost function ObjectScore(find: Finder, want: Json, got: Json, depth: nat): real
    requires depth <= MAX_RANK_DEPTH
    decreases Levels(depth), 0
  {
    match (want, got)
    case (Null, Null) => 1.0
    case (Obj(m), Obj(n)) =>
      if m == map[] && n == map[] then 1.0
      else SumValues(FieldScores(find, m, n, depth + 1)) / Max(|m|, |n|) as real
    case _ => 0.0
  }

  ghost function FieldScores(find: Finder, m: map<Bytes, Json>, n: map<Bytes, Json>, depth: nat): map<Bytes, real>
    decreases Levels(depth), 3
  {
    map k | k in m && k in n :: Score(find, m[k], n[k], depth)
  }

  // ----- Who takes whom

  ghost function Scores(find: Finder, xs: seq<Json>, ys: seq<Json>, depth: nat): (t: Table)
    ensures HasWidth(t, |ys|) && |t| == |xs|
  {
    seq(|xs|, i requires 0 <= i < |xs| =>
      seq(|ys|, j requires 0 <= j < |ys| => Score(find, xs[i], ys[j], depth)))
  }

  /** Each actual element goes to the first expected element that scores it. */
  ghost function Consumption(find: Finder, xs: seq<Json>, ys: seq<Json>, depth: nat): map<nat, nat> {
    Consumed(Scores(find, xs, ys, depth), |ys|, |xs|)
  }

  lemma {:induction false} CreditIsScorers(find: Finder, xs: seq<Json>, ys: seq<Json>, depth: nat, j: nat, n: nat)
    requires j < |ys| && n <= |xs|
    ensures var t := Scores(find, xs, ys, depth); var i := Scorer(t, |ys|, j, n);
      Credit(find, xs[..n], ys[j], depth) == if i.Some? then t[i.value][j] else 0.0
  {
    hide Score;
    if n > 0 {
      CreditIsScorers(find, xs, ys, depth, j, n - 1);
      assert xs[..n][..n - 1] == xs[..n - 1];
    }
  }

  /** Column j after n rows. */
  ghost predicate Settled(t: Table, m: nat, credits: seq<real>, eaten: map<nat, nat>, j: nat, n: nat)
    requires HasWidth(t, m) && |credits| == m && j < m
  {
    && n <= |t|
    && var r := Scorer(t, m, j, n);
       && (j in eaten <==> r.Some?)
       && (r.Some? ==> eaten[j] == r.value)
       && credits[j] == if r.Some? then t[r.value][j] else 0.0
  }

  function Rounds(i: nat, j: nat, k: nat): nat { if k < j then i + 1 else i }

  /** The state of the loops in row i at column j. */
  ghost predicate Underway(t: Table, m: nat, credits: seq<real>, eaten: map<nat, nat>, i: nat, j: nat) {
    && HasWidth(t, m) && |credits| == m
    && (forall k :: k in eaten ==> k < m)
    && forall k: nat :: k < m ==> Settled(t, m, credits, eaten, k, Rounds(i, j, k))
  }

  lemma NextRow(t: Table, m: nat, credits: seq<real>, eaten: map<nat, nat>, i: nat)
    requires Underway(t, m, credits, eaten, i, m)
    ensures Underway(t, m, credits, eaten, i + 1, 0)
  {
    hide Settled;
    var i' := i + 1;
    forall k: nat | k < m ensures Settled(t, m, credits, eaten, k, Rounds(i', 0, k)) {
      assert Rounds(i, m, k) == Rounds(i', 0, k);
    }
  }

  /** A taken column stays as it is; a free one gets its score, and is taken if that is not zero. */
  lemma NextColumn(t: Table, m: nat, credits: seq<real>, eaten: map<nat, nat>, i: nat, j: nat)
    requires Underway(t, m, credits, eaten, i, j) && j < m && i < |t|
    ensures var x := t[i][j];
      && (j in eaten ==> Underway(t, m, credits, eaten, i, j + 1))
      && (j !in eaten ==> credits[j] == 0.0)
      && (j !in eaten ==> Underway(t, m, credits[j := x], if x != 0.0 then eaten[j := i] else eaten, i, j + 1))
  {
    var x := t[i][j];
    var c', e' := if j in eaten then credits else credits[j := x],
                  if j in eaten || x == 0.0 then eaten else eaten[j := i];
    assert Settled(t, m, credits, eaten, j, Rounds(i, j, j));
    var j' := j + 1;
    forall k: nat | k < m ensures Settled(t, m, c', e', k, Rounds(i, j', k)) {
      assert Settled(t, m, credits, eaten, k, Rounds(i, j, k));
    }
  }

  lemma AllSettled(find: Finder, xs: seq<Json>, ys: seq<Json>, depth: nat, credits: seq<real>, eaten: map<nat, nat>)
    requires 0 < depth <= MAX_RANK_DEPTH + 1
    requires Underway(Scores(find, xs, ys, depth), |ys|, credits, eaten, |xs|, 0)
    ensures credits == Credits(find, xs, ys, depth) && eaten == Consumption(find, xs, ys, depth)
    ensures ArrayScore(find, Arr(xs), Arr(ys), depth - 1) ==
            if Sum(credits) == 0.0 && Max(|xs|, |ys|) == 0 then 1.0 else Sum(credits) / Max(|xs|, |ys|) as real
  {
    hide Score, Credit, Scores, Scorer;
    var t, m := Scores(find, xs, ys, depth), |ys|;
    assert xs[..|xs|] == xs;
    forall j: nat | j < m
      ensures credits[j] == Credit(find, xs, ys[j], depth) && (j in eaten <==> Scorer(t, m, j, |xs|).Some?)
      ensures j in eaten ==> eaten[j] == Scorer(t, m, j, |xs|).value
    {
      assert Settled(t, m, credits, eaten, j, Rounds(|xs|, 0, j));
      CreditIsScorers(find, xs, ys, depth, j, |xs|);
    }
  }

  // ----- The code

  method RankMatch(find: Finder, want: Json, got: Json) returns (score: real)
    ensures score == Score(find, want, got, 0)
    ensures 0.0 <= score <= 67.0
  {
    score := RankMatchWithDepth(find, want, got, 0);
    ScoreBound(find, want, got, 0);
  }

  method RankMatchWithDepth(find: Finder, want: Json, got: Json, depth: nat) returns (score: real)
    ensures score == Score(find, want, got, depth)
    decreases Levels(depth), 1
  {
    if depth > MAX_RANK_DEPTH {
      return 0.0;
    }
    if want.Obj? && |want.fields| == 0 {
      return 0.1;
    }
    score := Whole(find, want, got);
    var arrays;
    ghost var eaten;
    arrays, eaten := SlicesRankMatch(find, want, got, depth);
    var objects := MapRankMatch(find, want, got, depth);
    score := score + arrays + objects;
  }

  /** `eaten` is what the marks say and by whom: actual element to expected element. */
  method SlicesRankMatch(find: Finder, want: Json, got: Json, depth: nat)
    returns (score: real, ghost eaten: map<nat, nat>)
    requires depth <= MAX_RANK_DEPTH
    ensures score == ArrayScore(find, want, got, depth)
    ensures want.Arr? && got.Arr? ==> eaten == Consumption(find, want.items, got.items, depth + 1)
    decreases Levels(depth), 0
  {
    eaten := map[];
    if want.Null? && got.Null? {
      return 1.0, eaten;
    }
    if !want.Arr? || !got.Arr? {
      return 0.0, eaten;
    }
    var a, b := want.items, got.items;
    var res := 0.0;
    var marked := {};
    ghost var t, m := Scores(find, a, b, depth + 1), |b|;
    ghost var credits := seq(m, j requires 0 <= j < m => 0.0);
    SumZeros(credits);
    assert Underway(t, m, credits, map[], 0, 0);
    hide *;
    for i := 0 to |a|
      invariant Underway(t, m, credits, eaten, i, 0)
      invariant |credits| == m && res == Sum(credits) && marked == eaten.Keys
    {
      for j := 0 to |b|
        invariant Underway(t, m, credits, eaten, i, j)
        invariant |credits| == m && res == Sum(credits) && marked == eaten.Keys
      {
        NextColumn(t, m, credits, eaten, i, j);
        if j !in marked {
          var result := RankMatchWithDepth(find, a[i], b[j], depth + 1);
          assert Scores(find, a, b, depth + 1)[i][j] == Score(find, a[i], b[j], depth + 1);
          SumUpdate(credits, j, result);
          credits := credits[j := result];
          if result != 0.0 {
            res := res + result;
            marked := marked + {j};
            eaten := eaten[j := i];
          }
        }
      }
      NextRow(t, m, credits, eaten, i);
    }
    AllSettled(find, a, b, depth + 1, credits, eaten);
    var total := Max(|a|, |b|);
    if res == 0.0 && total == 0 {
      return 1.0, eaten;
    }
    return res / total as real, eaten;
  }

  method MapRankMatch(find: Finder, want: Json, got: Json, depth: nat) returns (score: real)
    requires depth <= MAX_RANK_DEPTH
    ensures score == ObjectScore(find, want, got, depth)
    decreases Levels(depth), 0
  {
    if !want.Obj? || !got.Obj? {
      return if want.Null? && got.Null? then 1.0 else 0.0;
    }
    var left, right := want.fields, got.fields;
    ghost var scores := FieldScores(find, left, right, depth + 1);
    assert ObjectScore(find, want, got, depth) == NormalizeRank(SumValues(scores), Max(|left|, |right|));
    assert forall k :: k in scores <==> k in left && k in right;
    assert forall k :: k in scores ==> scores[k] == Score(find, left[k], right[k], depth + 1);
    hide *;
    var res := 0.0;
    var todo := left.Keys;
    ghost var open := scores;
    while todo != {}
      invariant todo <= left.Keys
      invariant open.Keys == todo * right.Keys && forall k :: k in open ==> open[k] == scores[k]
      invariant res + SumValues(open) == SumValues(scores)
    {
      var key :| key in todo;
      if key in right {
        SumValuesAny(open, key);
        var r := RankMatchWithDepth(find, left[key], right[key], depth + 1);
        res := res + r;
        open := open - {key};
      }
      todo := todo - {key};
    }
    EmptySum(open);
    score := NormalizeRank(res, Max(|left|, |right|));
  }

  function NormalizeRank(score: real, total: nat): real {
    if total == 0 then 1.0 else score / total as real
  }

  // ----- What each field and each element adds

  function Times(x: real, n: nat): real { x * n as real }

  /** The object part before it is divided by the larger number of fields. */
  ghost function ObjectSum(find: Finder, m: map<Bytes, Json>, n: map<Bytes, Json>, depth: nat): real
    requires depth <= MAX_RANK_DEPTH
  {
    Times(ObjectScore(find, Obj(m), Obj(n), depth), Max(|m|, |n|))
  }

  lemma ObjectSumOfFields(find: Finder, m: map<Bytes, Json>, n: map<Bytes, Json>, depth: nat)
    requires depth <= MAX_RANK_DEPTH
    ensures ObjectSum(find, m, n, depth) == SumValues(FieldScores(find, m, n, depth + 1))
  {
    ScoreOfFields(find, m, n, depth);
    Undivided(SumValues(FieldScores(find, m, n, depth + 1)), Max(|m|, |n|));
    hide ObjectScore, FieldScores, SumValues, NormalizeRank, Times, Max;
  }

  lemma ScoreOfFields(find: Finder, m: map<Bytes, Json>, n: map<Bytes, Json>, depth: nat)
    requires depth <= MAX_RANK_DEPTH
    ensures var x, d := SumValues(FieldScores(find, m, n, depth + 1)), Max(|m|, |n|);
      ObjectScore(find, Obj(m), Obj(n), depth) == NormalizeRank(x, d) && (d == 0 ==> x == 0.0)
  {
    hide Score, SumValues;
    if Max(|m|, |n|) == 0 {
      assert FieldScores(find, m, n, depth + 1) == map[];
      EmptySum(FieldScores(find, m, n, depth + 1));
    }
  }

  lemma Undivided(x: real, n: nat)
    requires n == 0 ==> x == 0.0
    ensures Times(NormalizeRank(x, n), n) == x
  {
  }

  /** One more key in both objects adds exactly the score of its two values, one level down. */
  lemma SharedField(find: Finder, m: map<Bytes, Json>, n: map<Bytes, Json>, depth: nat, k: Bytes, a: Json, b: Json)
    requires depth <= MAX_RANK_DEPTH && k !in m && k !in n
    ensures ObjectSum(find, m[k := a], n[k := b], depth) == ObjectSum(find, m, n, depth) + Score(find, a, b, depth + 1)
  {
    ObjectSumOfFields(find, m, n, depth);
    ObjectSumOfFields(find, m[k := a], n[k := b], depth);
    hide *;
    SharedScored(find, m, n, depth + 1, k, a, b);
    SumValuesAny(FieldScores(find, m[k := a], n[k := b], depth + 1), k);
  }

  lemma SharedScored(find: Finder, m: map<Bytes, Json>, n: map<Bytes, Json>, depth: nat, k: Bytes, a: Json, b: Json)
    requires k !in m && k !in n
    ensures var scores := FieldScores(find, m[k := a], n[k := b], depth);
      k in scores && scores[k] == Score(find, a, b, depth) && scores - {k} == FieldScores(find, m, n, depth)
  {
    hide Score;
  }

  /** A key in one of them only counts for nothing but the number of fields. */
  lemma LoneField(find: Finder, m: map<Bytes, Json>, n: map<Bytes, Json>, depth: nat, k: Bytes, a: Json)
    requires depth <= MAX_RANK_DEPTH && k !in m && k !in n
    ensures ObjectSum(find, m[k := a], n, depth) == ObjectSum(find, m, n, depth) == ObjectSum(find, m, n[k := a], depth)
  {
    ObjectSumOfFields(find, m, n, depth);
    ObjectSumOfFields(find, m[k := a], n, depth);
    ObjectSumOfFields(find, m, n[k := a], depth);
    LoneUnscored(find, m, n, depth + 1, k, a);
    hide *;
  }

  lemma LoneUnscored(find: Finder, m: map<Bytes, Json>, n: map<Bytes, Json>, depth: nat, k: Bytes, a: Json)
    requires k !in m && k !in n
    ensures FieldScores(find, m[k := a], n, depth) == FieldScores(find, m, n, depth)
    ensures FieldScores(find, m, n[k := a], depth) == FieldScores(find, m, n, depth)
  {
    hide Score;
  }

  /** Expecting an empty object matches everything weakly, down to the depth limit. */
  lemma EmptyObject(find: Finder, got: Json, depth: nat)
    ensures Score(find, Obj(map[]), got, depth) == if depth <= 64 then 0.1 else 0.0
  {
  }

  /** Objects with one key, the same one, whose values have nothing in common, have nothing in
      common. */
  lemma DifferentFields(find: Finder)
    ensures ObjectScore(find, Obj(map[[0x6B] := Str([0x61])]), Obj(map[[0x6B] := Str([0x62])]), 0) == 0.0
  {
    var k, a, b := [0x6B], Str([0x61]), Str([0x62]);
    SharedField(find, map[], map[], 0, k, a, b);
    assert |map[k := a]| == 1 && |map[k := b]| == 1;
    LettersDiffer(find);
    assert Score(find, a, b, 1) == 0.0;
  }

  lemma LettersDiffer(find: Finder)
    ensures Whole(find, Str([0x61]), Str([0x62])) == 0.0
  {
    var s, t: Bytes := [0x61], [0x62];
    EditDistance.LettersDiffer();
    assert !Prefilter.HasRegexMeta(s);
  }

  /** The array part before it is divided by the larger length. */
  ghost function ArraySum(find: Finder, xs: seq<Json>, ys: seq<Json>, depth: nat): real
    requires depth <= MAX_RANK_DEPTH
  {
    Times(ArrayScore(find, Arr(xs), Arr(ys), depth), Max(|xs|, |ys|))
  }

  /** xs[i] is the first of xs to score y at all. */
  ghost predicate ScoresFirst(find: Finder, xs: seq<Json>, y: Json, depth: nat, i: nat) {
    && i < |xs| && Score(find, xs[i], y, depth) != 0.0
    && forall h :: 0 <= h < i ==> Score(find, xs[h], y, depth) == 0.0
  }

  /** One more actual element adds exactly what the first expected element to score it at all scores
      it, one level down, and nothing if none does. */
  lemma OneMoreActual(find: Finder, xs: seq<Json>, ys: seq<Json>, depth: nat, y: Json, i: nat)
    requires depth <= MAX_RANK_DEPTH
    ensures var more := ArraySum(find, xs, ys + [y], depth) - ArraySum(find, xs, ys, depth);
      && (ScoresFirst(find, xs, y, depth + 1, i) ==> more == Score(find, xs[i], y, depth + 1))
      && ((forall x :: x in xs ==> Score(find, x, y, depth + 1) == 0.0) ==> more == 0.0)
    ensures ArraySum(find, xs, [], depth) == 0.0
  {
    ArraySumOfCredits(find, xs, ys, depth);
    ArraySumOfCredits(find, xs, ys + [y], depth);
    ArraySumOfCredits(find, xs, [], depth);
    CreditOfFirst(find, xs, y, depth + 1, i);
    CreditOfNone(find, xs, y, depth + 1);
    hide Score, ArraySum, Credit, ScoresFirst;
    assert Credits(find, xs, [], depth + 1) == [];
    var credits := Credits(find, xs, ys + [y], depth + 1);
    assert credits[..|ys|] == Credits(find, xs, ys, depth + 1);
  }

  lemma ArraySumOfCredits(find: Finder, xs: seq<Json>, ys: seq<Json>, depth: nat)
    requires depth <= MAX_RANK_DEPTH
    ensures ArraySum(find, xs, ys, depth) == Sum(Credits(find, xs, ys, depth + 1))
  {
    hide Score, Credit;
    assert xs == ys == [] ==> Credits(find, xs, ys, depth + 1) == [];
    Undivided(Sum(Credits(find, xs, ys, depth + 1)), Max(|xs|, |ys|));
  }

  lemma {:induction false} CreditOfFirst(find: Finder, xs: seq<Json>, y: Json, depth: nat, i: nat)
    ensures ScoresFirst(find, xs, y, depth, i) ==> Credit(find, xs, y, depth) == Score(find, xs[i], y, depth)
  {
    hide Score;
    if ScoresFirst(find, xs, y, depth, i) {
      var before := xs[..|xs| - 1];
      if i < |before| {
        CreditOfFirst(find, before, y, depth, i);
      } else {
        CreditOfNone(find, before, y, depth);
      }
    }
  }

  lemma {:induction false} CreditOfNone(find: Finder, xs: seq<Json>, y: Json, depth: nat)
    ensures (forall x :: x in xs ==> Score(find, x, y, depth) == 0.0) ==> Credit(find, xs, y, depth) == 0.0
  {
    hide Score;
    if xs != [] {
      CreditOfNone(find, xs[..|xs| - 1], y, depth);
    }
  }

  // ----- The documented pairing, and when it is the one carried out

  /** Each expected element in turn takes the best unused actual element that it scores with. */
  ghost function DocumentedPairing(find: Finder, xs: seq<Json>, ys: seq<Json>, depth: nat): map<nat, nat> {
    Documented(Scores(find, xs, ys, depth), |ys|, |xs|)
  }

  ghost function PairingScore(find: Finder, xs: seq<Json>, ys: seq<Json>, depth: nat, p: map<nat, nat>): real {
    if xs == ys == [] then 1.0
    else Sum(Gains(Scores(find, xs, ys, depth), |ys|, p)) / Max(|xs|, |ys|) as real
  }

  /** The score is that of the consumption; and the consumption is the documented pairing exactly
      if no two actual elements share their first scorer. */
  lemma DocumentedScoreExactly(find: Finder, xs: seq<Json>, ys: seq<Json>, depth: nat)
    requires depth <= MAX_RANK_DEPTH
    ensures var taken, said := Consumption(find, xs, ys, depth + 1), DocumentedPairing(find, xs, ys, depth + 1);
      && ArrayScore(find, Arr(xs), Arr(ys), depth) == PairingScore(find, xs, ys, depth + 1, taken)
      && (taken == said <==> NoneShare(Scores(find, xs, ys, depth + 1), |ys|))
      && (NoneShare(Scores(find, xs, ys, depth + 1), |ys|) ==>
            ArrayScore(find, Arr(xs), Arr(ys), depth) == PairingScore(find, xs, ys, depth + 1, said))
  {
    var t, m := Scores(find, xs, ys, depth + 1), |ys|;
    DocumentedExactly(t, m);
    OneToOneExactly(t, m);
    hide Score, Credit, Scores, Documented, NoneShare;
    var gains := Gains(t, m, Consumption(find, xs, ys, depth + 1));
    assert xs[..|xs|] == xs;
    forall j | 0 <= j < m ensures gains[j] == Credit(find, xs, ys[j], depth + 1) {
      CreditIsScorers(find, xs, ys, depth + 1, j, |xs|);
    }
    assert gains == Credits(find, xs, ys, depth + 1);
  }

  /** The smallest difference: one expected string takes both of two equal actual ones. */
  lemma TakesBoth(find: Finder)
    ensures var xs, ys := [Str([0x61])], [Str([0x61]), Str([0x61])];
      && ArrayScore(find, Arr(xs), Arr(ys), 0) == 1.0
      && PairingScore(find, xs, ys, 1, DocumentedPairing(find, xs, ys, 1)) == 0.5
  {
    var x := Str([0x61]);
    var xs, ys := [x], [x, x];
    assert Score(find, x, x, 1) == 1.0;
    hide Score;
    var t, row := Scores(find, xs, ys, 1), [1.0, 1.0];
    assert t[0] == row;
    var credits := Credits(find, xs, ys, 1);
    assert xs[..0] == [] && Credit(find, xs, x, 1) == 1.0;
    assert credits == row && row[..1] == [1.0] && [1.0][..0] == [];
    BestOfTwo();
    assert Documented(t, 2, 0) == map[] && Documented(t, 2, 0).Keys == {};
    assert Documented(t, 2, 1) == map[0 := 0];
    var gains := Gains(t, 2, map[0 := 0]);
    assert gains == [1.0, 0.0] && gains[..1] == [1.0];
  }

  lemma BestOfTwo()
    ensures Best([1.0, 1.0], {}, 2) == Some(0)
  {
    assert Best([1.0, 1.0], {}, 0) == None;
    assert Best([1.0, 1.0], {}, 1) == Some(0);
  }

  // ----- The bound, and that it is reached

  lemma WholeRange(find: Finder, want: Json, got: Json)
    ensures 0.0 <= Whole(find, want, got) <= 1.0
  {
    if want.Str? && Stringify(got).Some? {
      RegexRange(find, want.s, Stringify(got).value);
      EditDistance.SimilarityLaws(want.s, Stringify(got).value);
      hide RegexScore, EditDistance.Similarity;
    }
  }

  lemma RegexRange(find: Finder, pattern: Bytes, subject: Bytes)
    ensures var r := RegexScore(find, pattern, subject); r.Some? ==> 0.0 <= r.value <= 1.0
  {
    hide Prefilter.HasRegexMeta, Prefilter.CanMatch;
    match find(pattern, subject)
    case None =>
    case Some((lo, hi)) =>
      if subject != [] {
        Averaged((hi - lo) as real, 1.0, hi - lo, |subject|);
      }
  }

  /** Each level adds at most one point to what the levels below it can give, on top of the three
      points of a pair of nulls. */
  function Ceiling(depth: nat): real {
    if depth > MAX_RANK_DEPTH then 0.0 else (MAX_RANK_DEPTH - depth) as real + 3.0
  }

  lemma {:induction false} ScoreBound(find: Finder, want: Json, got: Json, depth: nat)
    ensures 0.0 <= Score(find, want, got, depth) <= Ceiling(depth)
    decreases Levels(depth), 4
  {
    if depth <= MAX_RANK_DEPTH && want != Obj(map[]) {
      WholeRange(find, want, got);
      match (want, got) {
        case (Arr(xs), Arr(ys)) => ArrayBound(find, xs, ys, depth);
        case (Obj(m), Obj(n)) => ObjectBound(find, m, n, depth);
        case _ =>
      }
    }
  }

  lemma {:induction false} ArrayBound(find: Finder, xs: seq<Json>, ys: seq<Json>, depth: nat)
    requires depth <= MAX_RANK_DEPTH
    ensures 0.0 <= ArrayScore(find, Arr(xs), Arr(ys), depth) <= (if xs == ys == [] then 1.0 else Ceiling(depth + 1))
    decreases Levels(depth), 3
  {
    hide Score;
    var credits := Credits(find, xs, ys, depth + 1);
    forall j | 0 <= j < |ys| ensures 0.0 <= credits[j] <= Ceiling(depth + 1) {
      CreditBound(find, xs, ys[j], depth + 1);
    }
    if xs != [] || ys != [] {
      SumBound(credits, Ceiling(depth + 1));
      Averaged(Sum(credits), Ceiling(depth + 1), |ys|, Max(|xs|, |ys|));
    }
  }

  lemma {:induction false} ObjectBound(find: Finder, m: map<Bytes, Json>, n: map<Bytes, Json>, depth: nat)
    requires depth <= MAX_RANK_DEPTH && m != map[]
    ensures 0.0 <= ObjectScore(find, Obj(m), Obj(n), depth) <= Ceiling(depth + 1)
    decreases Levels(depth), 3
  {
    FieldBounds(find, m, n, depth + 1);
    FieldCount(find, m, n, depth + 1);
    ScoreOfFields(find, m, n, depth);
    hide *;
    var scores := FieldScores(find, m, n, depth + 1);
    AveragedRank(SumValues(scores), Ceiling(depth + 1), |scores|, Max(|m|, |n|));
  }

  /** A total of at most `bound` for each of n. */
  ghost predicate Within(total: real, bound: real, n: nat) {
    0.0 <= total <= bound * n as real && bound >= 0.0
  }

  lemma {:induction false} FieldBounds(find: Finder, m: map<Bytes, Json>, n: map<Bytes, Json>, depth: nat)
    ensures var scores := FieldScores(find, m, n, depth);
      Within(SumValues(scores), Ceiling(depth), |scores|)
    decreases Levels(depth), 5
  {
    hide Score, SumValues;
    var scores := FieldScores(find, m, n, depth);
    forall k | k in scores ensures 0.0 <= scores[k] <= Ceiling(depth) {
      ScoreBound(find, m[k], n[k], depth);
    }
    SumValuesBound(scores, Ceiling(depth));
  }

  lemma FieldCount(find: Finder, m: map<Bytes, Json>, n: map<Bytes, Json>, depth: nat)
    requires m != map[]
    ensures |FieldScores(find, m, n, depth)| <= Max(|m|, |n|) && Max(|m|, |n|) > 0
  {
    hide Score;
    SubsetSize(FieldScores(find, m, n, depth).Keys, n.Keys);
  }

  lemma AveragedRank(total: real, bound: real, n: nat, over: nat)
    requires Within(total, bound, n) && 0 < over && n <= over
    ensures 0.0 <= NormalizeRank(total, over) <= bound
  {
    Averaged(total, bound, n, over);
  }

  lemma {:induction false} CreditBound(find: Finder, xs: seq<Json>, y: Json, depth: nat)
    ensures 0.0 <= Credit(find, xs, y, depth) <= Ceiling(depth)
    decreases Levels(depth), 5, |xs|
  {
    if xs != [] {
      CreditBound(find, xs[..|xs| - 1], y, depth);
      ScoreBound(find, xs[|xs| - 1], y, depth);
    }
  }

  lemma {:induction false} SubsetSize<T>(a: set<T>, b: set<T>)
    requires a <= b
    ensures |a| <= |b|
  {
    if a != {} {
      var x :| x in a;
      SubsetSize(a - {x}, b - {x});
    }
  }

  /** n arrays around null. */
  function Nested(n: nat): Json {
    if n == 0 then Null else Arr([Nested(n - 1)])
  }

  lemma {:induction false} NestedScore(find: Finder, n: nat, depth: nat)
    requires n + depth <= MAX_RANK_DEPTH
    ensures Score(find, Nested(n), Nested(n), depth) == n as real + 3.0
  {
    if n > 0 {
      NestedScore(find, n - 1, depth + 1);
      Singleton(find, Nested(n - 1), Nested(n - 1), depth);
      hide ArrayScore;
      assert Whole(find, Nested(n), Nested(n)) == 1.0;
    }
  }

  lemma Singleton(find: Finder, x: Json, y: Json, depth: nat)
    requires depth <= MAX_RANK_DEPTH
    ensures ArrayScore(find, Arr([x]), Arr([y]), depth) == Score(find, x, y, depth + 1)
  {
    hide Score;
    var xs, ys := [x], [y];
    var c := Credit(find, xs, y, depth + 1);
    assert xs[..|xs| - 1] == [] && Credit(find, [], y, depth + 1) == 0.0;
    var credits := Credits(find, xs, ys, depth + 1);
    assert credits == [c] && [c][..0] == [] && Sum([c]) == c;
  }

  /** The bound of RankMatch is met by null under 64 arrays, compared with itself. */
  lemma BoundReached(find: Finder)
    ensures Score(find, Nested(64), Nested(64), 0) == 67.0
  {
    NestedScore(find, 64, 0);
  }
}
