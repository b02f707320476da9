/** The literal-prefix prescreen of internal/infra/deeply/regex_cache.go, which may only turn away
    subjects that the real engine would turn away too. */
module Prefilter {
  import opened Utf8
  import opened Wrappers

  // Patterns are syntax trees of a grammar covering literals, classes and escapes, anchors, groups,
  // alternation and every repetition operator; `Text` is their concrete spelling, and `Match` their
  // language, over runes as the engine reads them.

  // ----- The code: bytes in, bytes out

  const BACKSLASH: byte := 0x5C
  const CARET: byte := 0x5E
  const DOLLAR: byte := 0x24
  const DOT: byte := 0x2E
  const PLUS: byte := 0x2B
  const STAR: byte := 0x2A
  const QUESTION: byte := 0x3F
  const OPEN: byte := 0x28
  const CLOSE: byte := 0x29
  const PIPE: byte := 0x7C
  const OPEN_CLASS: byte := 0x5B
  const CLOSE_CLASS: byte := 0x5D
  const OPEN_BRACE: byte := 0x7B
  const CLOSE_BRACE: byte := 0x7D

  predicate IsMeta(b: byte) {
    || b == BACKSLASH || b == CARET || b == DOLLAR || b == DOT || b == PLUS || b == STAR
    || b == QUESTION || b == OPEN || b == CLOSE || b == PIPE || b == OPEN_CLASS
    || b == CLOSE_CLASS || b == OPEN_BRACE || b == CLOSE_BRACE
  }

  predicate HasRegexMeta(pattern: Bytes) {
    exists i :: 0 <= i < |pattern| && IsMeta(pattern[i])
  }

  /** Operators that may repeat the preceding rune zero times. */
  predicate MayErase(b: byte) {
    b == STAR || b == QUESTION || b == OPEN_BRACE
  }

  /** First metacharacter at or after `from`, or the end. */
  function MetaFree(p: Bytes, from: nat): (e: nat)
    requires from <= |p|
    ensures from <= e <= |p|
    ensures e < |p| ==> IsMeta(p[e])
    ensures forall i :: from <= i < e ==> !IsMeta(p[i])
    decreases |p| - from
  {
    if from < |p| && !IsMeta(p[from]) then MetaFree(p, from + 1) else from
  }

  function Trimmed(p: Bytes, end: nat): Bytes
    requires 1 <= end <= |p|
  {
    if end < |p| && MayErase(p[end]) then p[1..end - LastRuneSize(p[1..end])] else p[1..end]
  }

  function AnchoredPrefixOf(p: Bytes): Bytes {
    if p == [] || p[0] != CARET then [] else Trimmed(p, MetaFree(p, 1))
  }

  method AnchoredPrefix(pattern: Bytes) returns (prefix: Bytes)
    ensures prefix == AnchoredPrefixOf(pattern)
  {
    if pattern == [] || pattern[0] != CARET {
      return [];
    }
    var end := 1;
    while end < |pattern| && !IsMeta(pattern[end])
      invariant 1 <= end <= |pattern|
      invariant MetaFree(pattern, end) == MetaFree(pattern, 1)
    {
      end := end + 1;
    }
    if end < |pattern| && MayErase(pattern[end]) {
      var size := LastRuneSize(pattern[1..end]);
      end := end - size;
    }
    if end <= 1 {
      return [];
    }
    return pattern[1..end];
  }

  predicate CanMatch(pattern: Bytes, subject: Bytes) {
    var prefix := AnchoredPrefixOf(pattern);
    prefix == [] || prefix <= subject
  }

  // ----- Patterns: syntax and language

  datatype Quantifier = Star | Plus | Opt | Times(lo: nat, hi: Option<nat>)

  datatype Regex =
    | Lit(rune: Bytes)                                             // a rune standing for itself
    | Raw(brace: byte)                                             // a brace or bracket read literally
    | Class(spelling: Bytes, members: set<rune>, negated: bool)     // . [..] \d \^ and the like
    | Bol
    | Eol
    | Group(intro: Bytes, body: Regex)                             // intro holds the text after "("
    | Rep(item: Regex, quantifier: Quantifier, lazy: bool)
    | Cat(items: seq<Regex>)
    | Alt(branches: seq<Regex>)

  predicate WellFormed(r: Regex)
    decreases r
  {
    match r
    case Lit(u) => IsUnit(u) && !IsMeta(u[0])
    case Raw(b) => b in [OPEN_BRACE, CLOSE_BRACE, CLOSE_CLASS]
    case Class(t, _, _) => t != [] && t[0] in [DOT, OPEN_CLASS, BACKSLASH]
    case Bol | Eol => true
    case Group(_, body) => WellFormed(body)
    case Rep(item, _, _) => !item.Rep? && !item.Cat? && !item.Alt? && WellFormed(item)
    case Cat(items) => forall x :: x in items ==> !x.Cat? && !x.Alt? && WellFormed(x)
    case Alt(branches) => forall x :: x in branches ==> !x.Alt? && WellFormed(x)
  }

  function Decimal(n: nat): (d: Bytes) {
    if n < 10 then [0x30 + n as byte] else Decimal(n / 10) + [0x30 + (n % 10) as byte]
  }

  function QuantifierText(q: Quantifier): (t: Bytes)
    ensures t != []
  {
    match q
    case Star => [STAR]
    case Plus => [PLUS]
    case Opt => [QUESTION]
    case Times(lo, hi) =>
      [OPEN_BRACE] + Decimal(lo)
      + (match hi case None => [0x2C] case Some(h) => if h == lo then [] else [0x2C] + Decimal(h))
      + [CLOSE_BRACE]
  }

  function Text(r: Regex): Bytes
    decreases r
  {
    match r
    case Lit(u) => u
    case Raw(b) => [b]
    case Class(t, _, _) => t
    case Bol => [CARET]
    case Eol => [DOLLAR]
    case Group(intro, body) => [OPEN] + intro + Text(body) + [CLOSE]
    case Rep(item, q, lazy) => Text(item) + QuantifierText(q) + (if lazy then [QUESTION] else [])
    case Cat(items) => TextAll(items)
    case Alt(branches) => TextJoined(branches)
  }

  function TextAll(items: seq<Regex>): Bytes
    decreases items
  {
    if items == [] then [] else Text(items[0]) + TextAll(items[1..])
  }

  function TextJoined(branches: seq<Regex>): Bytes
    decreases branches
  {
    if branches == [] then []
    else if |branches| == 1 then Text(branches[0])
    else Text(branches[0]) + [PIPE] + TextJoined(branches[1..])
  }

  function Least(q: Quantifier): nat {
    match q case Plus => 1 case Times(lo, _) => lo case _ => 0
  }

  predicate Permits(q: Quantifier, n: nat) {
    && Least(q) <= n
    && (q.Opt? ==> n <= 1)
    && (q.Times? && q.hi.Some? ==> n <= q.hi.value)
  }

  /** r matches the runes u[i..j], which stand in the subject u. */
  ghost predicate Match(r: Regex, u: seq<rune>, i: nat, j: nat)
    requires i <= j <= |u|
    decreases r, 0
  {
    match r
    case Lit(c) => j == i + 1 && c != [] && u[i] == FirstRune(c)
    case Raw(b) => j == i + 1 && u[i] == b as rune
    case Class(_, members, negated) => j == i + 1 && (u[i] in members) != negated
    case Bol => i == j == 0
    case Eol => i == j == |u|
    case Group(_, body) => Match(body, u, i, j)
    case Rep(item, q, _) => exists n: nat :: Permits(q, n) && MatchTimes(item, n, u, i, j)
    case Cat(items) => MatchAll(items, u, i, j)
    case Alt(branches) => exists b :: b in branches && Match(b, u, i, j)
  }

  ghost predicate MatchAll(items: seq<Regex>, u: seq<rune>, i: nat, j: nat)
    requires i <= j <= |u|
    decreases items, 0
  {
    if items == [] then i == j
    else exists k :: i <= k <= j && Match(items[0], u, i, k) && MatchAll(items[1..], u, k, j)
  }

  ghost predicate MatchTimes(item: Regex, n: nat, u: seq<rune>, i: nat, j: nat)
    requires i <= j <= |u|
    decreases item, n + 1
  {
    if n == 0 then i == j
    else exists k :: i <= k <= j && Match(item, u, i, k) && MatchTimes(item, n - 1, u, k, j)
  }

  /** The engine's MatchString: some part of the decoded subject matches. */
  ghost predicate Matches(r: Regex, subject: Bytes) {
    var u := Runes(subject);
    exists i, j :: 0 <= i <= j <= |u| && Match(r, u, i, j)
  }

  // ----- What the scan keeps, read off the syntax

  predicate StartsErasing(t: Bytes) {
    t != [] && MayErase(t[0])
  }

  /** Literal runes right after the anchor that every match starts with. A rune with a counted
      repetition is dropped even if it must occur. */
  function Kept(items: seq<Regex>): Bytes {
    if items == [] then []
    else match items[0]
      case Lit(u) => if StartsErasing(TextAll(items[1..])) then [] else u + Kept(items[1..])
      case Rep(Lit(u), Plus, _) => u
      case _ => []
  }

  /** How far the scan runs before it meets a metacharacter, and what is left from there. */
  function Run(items: seq<Regex>): Bytes {
    if items == [] then []
    else match items[0]
      case Lit(u) => u + Run(items[1..])
      case Rep(Lit(u), _, _) => u
      case _ => []
  }

  function Rest(items: seq<Regex>): Bytes {
    if items == [] then []
    else match items[0]
      case Lit(_) => Rest(items[1..])
      case Rep(Lit(_), q, lazy) => QuantifierText(q) + (if lazy then [QUESTION] else []) + TextAll(items[1..])
      case _ => TextAll(items)
  }

  predicate Plain(t: Bytes) {
    forall i :: 0 <= i < |t| ==> !IsMeta(t[i])
  }

  predicate StartsMeta(t: Bytes) {
    t == [] || IsMeta(t[0])
  }

  lemma UnitShape(u: Bytes)
    requires IsUnit(u)
    ensures 1 <= |u| <= 4 && Width(u) == |u| && !Continuation(u[0])
    ensures !IsMeta(u[0]) ==> Plain(u)
    ensures |u| == 1 ==> u[0] < 0x80
    ensures forall i :: 1 <= i < |u| ==> Continuation(u[i])
  {
  }

  /** Only a literal rune starts with something other than a metacharacter. */
  lemma {:induction false} HeadIsMeta(r: Regex)
    requires WellFormed(r) && !r.Cat? && !r.Alt?
    ensures r.Lit? || (r.Rep? && r.item.Lit?) || (Text(r) != [] && IsMeta(Text(r)[0]))
    ensures r.Lit? ==> IsUnit(r.rune) && Plain(r.rune)
  {
  }

  lemma MetaFreeRun(pre: Bytes, run: Bytes, rest: Bytes)
    requires Plain(run) && StartsMeta(rest)
    ensures MetaFree(pre + run + rest, |pre|) == |pre| + |run|
  {
    hide IsMeta;
    var p := pre + run + rest;
    assert forall i :: 0 <= i < |run| ==> p[|pre| + i] == run[i];
    assert forall i :: |pre| <= i < |pre| + |run| ==> !IsMeta(p[i]);
    assert rest != [] ==> p[|pre| + |run|] == rest[0];
  }

  lemma Uncons(items: seq<Regex>)
    requires items != [] && WellFormed(Cat(items))
    ensures WellFormed(items[0]) && !items[0].Cat? && !items[0].Alt? && WellFormed(Cat(items[1..]))
  {
  }

  /** How the views of a list that starts with a literal rune depend on the remaining list. */
  lemma LiteralHead(items: seq<Regex>)
    requires items != [] && items[0].Lit? && WellFormed(Cat(items))
    ensures var u, more := items[0].rune, items[1..];
      && IsUnit(u) && Plain(u)
      && TextAll(items) == u + TextAll(more)
      && Run(items) == u + Run(more) && Rest(items) == Rest(more)
      && Kept(items) == if StartsErasing(TextAll(more)) then [] else u + Kept(more)
  {
    Uncons(items);
    HeadIsMeta(items[0]);
  }

  /** The views of a list that starts with anything else. */
  lemma OtherHead(items: seq<Regex>)
    requires WellFormed(Cat(items)) && (items != [] ==> !items[0].Lit?)
    ensures TextAll(items) == Run(items) + Rest(items)
    ensures Plain(Run(items)) && StartsMeta(Rest(items))
    ensures (Run(items) == Kept(items) == [] && Rest(items) == TextAll(items))
         || (IsUnit(Run(items)) && Kept(items) == if StartsErasing(Rest(items)) then [] else Run(items))
  {
    if items != [] {
      Uncons(items);
      HeadIsMeta(items[0]);
      hide WellFormed, Plain, IsUnit, QuantifierText;
      if items[0].Rep? && items[0].item.Lit? {
        RepeatedHead(items);
        hide *;
      }
    }
  }

  lemma RepeatedHead(items: seq<Regex>)
    requires items != [] && items[0].Rep? && items[0].item.Lit? && WellFormed(items[0])
    ensures TextAll(items) == Run(items) + Rest(items)
    ensures IsUnit(Run(items)) && Plain(Run(items)) && StartsMeta(Rest(items))
    ensures Kept(items) == if StartsErasing(Rest(items)) then [] else Run(items)
  {
    var u, q := items[0].item.rune, items[0].quantifier;
    HeadIsMeta(items[0].item);
    QuantifierStart(q);
    hide IsUnit, Plain, QuantifierText, IsMeta, MayErase;
    assert Text(items[0].item) == u == Run(items);
    assert Rest(items)[0] == QuantifierText(q)[0];
    assert TextAll(items) == u + QuantifierText(q) + (if items[0].lazy then [QUESTION] else []) + TextAll(items[1..]);
  }

  lemma QuantifierStart(q: Quantifier)
    ensures IsMeta(QuantifierText(q)[0])
    ensures StartsErasing(QuantifierText(q)) <==> !q.Plus?
  {
  }

  lemma {:induction false} RunShape(items: seq<Regex>)
    requires WellFormed(Cat(items))
    ensures TextAll(items) == Run(items) + Rest(items)
    ensures Plain(Run(items)) && StartsMeta(Rest(items))
  {
    hide *;
    if items != [] && items[0].Lit? {
      var u, more := items[0].rune, items[1..];
      LiteralHead(items);
      Uncons(items);
      RunShape(more);
      PlainJoin(u, Run(more));
      assert u + (Run(more) + Rest(more)) == u + Run(more) + Rest(more);
    } else {
      OtherHead(items);
    }
  }

  lemma PlainJoin(a: Bytes, b: Bytes)
    requires Plain(a) && Plain(b)
    ensures Plain(a + b)
  {
  }

  lemma PlainBeforeMeta(a: Bytes, b: Bytes)
    requires Plain(a)
    ensures StartsErasing(a + b) ==> a == []
  {
  }

  lemma DropsLast(pre: Bytes, u: Bytes, rest: Bytes)
    requires |pre| >= 1 && IsUnit(u) && StartsErasing(rest)
    ensures Trimmed(pre + u + rest, |pre| + |u|) == pre[1..]
  {
    var text := pre + u + rest;
    LastRuneOfUnit(pre[1..], u);
    hide IsUnit, LastRuneSize;
    assert text[1..|pre| + |u|] == pre[1..] + u;
    assert text[1..|pre|] == pre[1..] && text[|pre| + |u|] == rest[0];
  }

  lemma KeepsAll(pre: Bytes, u: Bytes, rest: Bytes)
    requires |pre| >= 1 && !StartsErasing(rest)
    ensures Trimmed(pre + u + rest, |pre| + |u|) == pre[1..] + u
  {
  }

  /** Trimming at the end of the run leaves the kept literals, whatever stands before them. */
  lemma {:induction false} ScanKeeps(pre: Bytes, items: seq<Regex>)
    requires |pre| >= 1 && WellFormed(Cat(items)) && !StartsErasing(TextAll(items))
    ensures Trimmed(pre + Run(items) + Rest(items), |pre| + |Run(items)|) == pre[1..] + Kept(items)
    decreases items
  {
    hide *;
    if items != [] && items[0].Lit? {
      var u, more := items[0].rune, items[1..];
      LiteralHead(items);
      Uncons(items);
      RunShape(more);
      PlainBeforeMeta(Run(more), Rest(more));
      Regroup(pre, u, Run(more), Rest(more), Kept(more));
      if StartsErasing(TextAll(more)) {
        EmptyEnds(u, Rest(more), pre[1..]);
        DropsLast(pre, u, Rest(more));
      } else {
        ScanKeeps(pre + u, more);
      }
    } else {
      OtherHead(items);
      EmptyEnds([], Rest(items), pre[1..]);
      if StartsErasing(Rest(items)) {
        DropsLast(pre, Run(items), Rest(items));
      } else {
        KeepsAll(pre, Run(items), Rest(items));
      }
    }
  }

  lemma EmptyEnds(u: Bytes, rest: Bytes, pre: Bytes)
    ensures u + [] == u && [] + rest == rest && pre + [] == pre
  {
  }

  lemma Regroup(pre: Bytes, u: Bytes, run: Bytes, rest: Bytes, kept: Bytes)
    requires |pre| >= 1
    ensures (pre + u) + run + rest == pre + (u + run) + rest
    ensures (pre + u)[1..] + kept == pre[1..] + (u + kept)
  {
  }

  /** The scan of an anchored concatenation keeps what the syntax says. */
  lemma PrefixIsKept(items: seq<Regex>)
    requires WellFormed(Cat(items))
    ensures AnchoredPrefixOf([CARET] + TextAll(items)) ==
            if StartsErasing(TextAll(items)) then [] else Kept(items)
  {
    hide *;
    if StartsErasing(TextAll(items)) {
      ErasingStart(TextAll(items));
    } else {
      RunShape(items);
      ScanKeeps([CARET], items);
      AfterCaret(Run(items), Rest(items), Kept(items));
    }
  }

  lemma AfterCaret(run: Bytes, rest: Bytes, kept: Bytes)
    requires Plain(run) && StartsMeta(rest)
    requires Trimmed([CARET] + run + rest, 1 + |run|) == [CARET][1..] + kept
    ensures AnchoredPrefixOf([CARET] + (run + rest)) == kept
  {
    MetaFreeRun([CARET], run, rest);
    ScannedFromOne([CARET] + run + rest);
    hide *;
    assert [CARET] + run + rest == [CARET] + (run + rest) && [CARET][1..] + kept == kept;
  }

  lemma ErasingStart(t: Bytes)
    requires StartsErasing(t)
    ensures AnchoredPrefixOf([CARET] + t) == []
  {
  }

  lemma ScannedFromOne(p: Bytes)
    requires p != [] && p[0] == CARET
    ensures AnchoredPrefixOf(p) == Trimmed(p, MetaFree(p, 1))
  {
  }

  lemma RepCount(r: Regex, u: seq<rune>, i: nat, j: nat) returns (n: nat)
    requires r.Rep? && i <= j <= |u| && Match(r, u, i, j)
    ensures Permits(r.quantifier, n) && MatchTimes(r.item, n, u, i, j)
  {
    n :| Permits(r.quantifier, n) && MatchTimes(r.item, n, u, i, j);
  }

  lemma FirstOf(item: Regex, n: nat, u: seq<rune>, i: nat, j: nat) returns (k: nat)
    requires n > 0 && i <= j <= |u| && MatchTimes(item, n, u, i, j)
    ensures i <= k <= j && Match(item, u, i, k)
  {
    k :| i <= k <= j && Match(item, u, i, k) && MatchTimes(item, n - 1, u, k, j);
  }

  lemma UnitThenRunes(c: Bytes, rest: Bytes)
    requires IsUnit(c)
    ensures Runes(c + rest) == [FirstRune(c)] + Runes(rest)
  {
  }

  /** Every match of the items starts with the runes the scan keeps. */
  lemma {:induction false} KeptLeads(items: seq<Regex>, u: seq<rune>, i: nat, j: nat)
    requires WellFormed(Cat(items)) && i <= j <= |u| && MatchAll(items, u, i, j)
    ensures Runes(Kept(items)) <= u[i..]
  {
    hide *;
    KeptHead(items);
    if items != [] && items[0].Lit? {
      var x, more := items[0], items[1..];
      LiteralHead(items);
      Uncons(items);
      var k := FirstItem(items, u, i, j);
      LiteralRead(x, u, i, k);
      KeptLeads(more, u, k, j);
      UnitThenRunes(x.rune, Kept(more));
      LeadOne(u, i, Runes(Kept(more)));
    } else if items != [] && items[0].Rep? && items[0].item.Lit? && items[0].quantifier.Plus? {
      RepeatedLead(items, u, i, j);
    }
  }

  /** Nothing is kept but of literal runes and of those that must occur. */
  lemma KeptHead(items: seq<Regex>)
    ensures Runes([]) == []
    ensures Kept(items) == []
      || (items != [] && items[0].Lit?)
      || (items != [] && items[0].Rep? && items[0].item.Lit? && items[0].quantifier.Plus?)
  {
  }

  lemma LiteralRead(x: Regex, u: seq<rune>, i: nat, k: nat)
    requires x.Lit? && i <= k <= |u| && Match(x, u, i, k)
    ensures x.rune != [] && k == i + 1 && u[i] == FirstRune(x.rune)
  {
  }

  lemma RepeatedLead(items: seq<Regex>, u: seq<rune>, i: nat, j: nat)
    requires items != [] && items[0].Rep? && items[0].item.Lit? && items[0].quantifier.Plus?
    requires WellFormed(Cat(items)) && i <= j <= |u| && MatchAll(items, u, i, j)
    ensures Runes(Kept(items)) <= u[i..]
  {
    var x := items[0];
    Uncons(items);
    RepeatedHead(items);
    assert Kept(items) == x.item.rune && !Permits(x.quantifier, 0) && Runes([]) == [];
    hide *;
    var k := FirstItem(items, u, i, j);
    var n := RepCount(x, u, i, k);
    var h := FirstOf(x.item, n, u, i, k);
    LiteralRead(x.item, u, i, h);
    UnitThenRunes(x.item.rune, []);
    EmptyEnds(x.item.rune, [], []);
  }

  lemma FirstItem(items: seq<Regex>, u: seq<rune>, i: nat, j: nat) returns (k: nat)
    requires items != [] && i <= j <= |u| && MatchAll(items, u, i, j)
    ensures i <= k <= j && Match(items[0], u, i, k) && MatchAll(items[1..], u, k, j)
  {
    k :| i <= k <= j && Match(items[0], u, i, k) && MatchAll(items[1..], u, k, j);
  }

  lemma LeadOne(u: seq<rune>, i: nat, rs: seq<rune>)
    requires i < |u| && rs <= u[i + 1..]
    ensures [u[i]] + rs <= u[i..]
  {
  }

  // ----- What a pattern's prefix says about its matches

  function Prefix(r: Regex): Bytes { AnchoredPrefixOf(Text(r)) }

  /** The pattern ^items. */
  function Anchored(items: seq<Regex>): Regex {
    Cat([Bol] + items)
  }

  lemma AnchoredText(items: seq<Regex>)
    ensures Text(Anchored(items)) == [CARET] + TextAll(items)
  {
    var all := [Bol] + items;
    assert all[1..] == items;
    assert Text(Cat(all)) == TextAll(all) == Text(Bol) + TextAll(items);
  }

  /** A pattern that is no alternation, as a concatenation. */
  function ItemsOf(r: Regex): seq<Regex> {
    if r.Cat? then r.items else [r]
  }

  lemma AsItems(r: Regex)
    requires WellFormed(r) && !r.Alt?
    ensures WellFormed(Cat(ItemsOf(r))) && Text(r) == TextAll(ItemsOf(r))
  {
    if !r.Cat? {
      assert ItemsOf(r)[1..] == [];
      assert TextAll(ItemsOf(r)) == Text(r) + [];
    }
  }

  lemma MatchesItems(r: Regex, u: seq<rune>, i: nat, j: nat)
    requires !r.Alt? && i <= j <= |u| && Match(r, u, i, j)
    ensures MatchAll(ItemsOf(r), u, i, j)
  {
    if !r.Cat? {
      var items := ItemsOf(r);
      assert items[1..] == [] && MatchAll([], u, j, j);
      assert Match(items[0], u, i, j) && MatchAll(items[1..], u, j, j);
    }
  }

  /** A pattern that does not start with the anchor, or repeats it, has no prefix. */
  lemma NoAnchor(items: seq<Regex>)
    requires WellFormed(Cat(items)) && (items == [] || !items[0].Bol?)
    ensures AnchoredPrefixOf(TextAll(items)) == []
  {
    if items != [] {
      var x := items[0];
      Uncons(items);
      if x.Rep? && x.item.Bol? {
        var q := QuantifierText(x.quantifier);
        QuantifierStart(x.quantifier);
        assert Text(x) == [CARET] + q + (if x.lazy then [QUESTION] else []);
        assert AnchoredPrefixOf(TextAll(items)) == [];
      } else {
        NoCaret(x);
        assert TextAll(items)[0] == Text(x)[0];
      }
    }
  }

  lemma NoCaret(x: Regex)
    requires WellFormed(x) && !x.Cat? && !x.Alt? && !x.Bol? && !(x.Rep? && x.item.Bol?)
    ensures Text(x) != [] && Text(x)[0] != CARET
  {
    if x.Rep? {
      var item := x.item;
      assert item.Lit? || item.Raw? || item.Class? || item.Eol? || item.Group?;
      assert Text(item) != [] && Text(item)[0] != CARET;
    }
  }

  /** Whatever matches a pattern without alternation at the top begins with its prefix, rune for
      rune. */
  lemma MatchesLead(r: Regex, s: Bytes)
    requires WellFormed(r) && !r.Alt? && Matches(r, s)
    ensures Runes(Prefix(r)) <= Runes(s)
  {
    var u := Runes(s);
    var items := ItemsOf(r);
    AsItems(r);
    var i, j :| 0 <= i <= j <= |u| && Match(r, u, i, j);
    MatchesItems(r, u, i, j);
    hide Match, MatchAll, WellFormed, Text, TextAll;
    if items != [] && items[0].Bol? {
      ItemsLead(items, u, i, j);
    } else {
      NoAnchor(items);
    }
  }

  lemma ItemsLead(items: seq<Regex>, u: seq<rune>, i: nat, j: nat)
    requires WellFormed(Cat(items)) && items != [] && items[0].Bol?
    requires i <= j <= |u| && MatchAll(items, u, i, j)
    ensures Runes(AnchoredPrefixOf(TextAll(items))) <= u
  {
    var more := items[1..];
    Uncons(items);
    var k := FirstItem(items, u, i, j);
    assert k == 0 && items == [Bol] + more && TextAll(items) == [CARET] + TextAll(more);
    hide *;
    PrefixIsKept(more);
    KeptLeads(more, u, 0, j);
    assert u[0..] == u;
  }

  // ----- Patterns without metacharacters

  predicate AllLiteral(items: seq<Regex>) {
    forall x :: x in items ==> x.Lit?
  }

  /** The runes of t stand somewhere in u. */
  ghost predicate Occurs(t: seq<rune>, u: seq<rune>) {
    exists i: nat, j: nat :: i <= j <= |u| && u[i..j] == t
  }

  /** A pattern is taken for text exactly if it consists of literal runes, and then it matches just
      where that text occurs. */
  lemma WithoutMeta(r: Regex, s: Bytes)
    requires WellFormed(r) && !r.Alt?
    ensures !HasRegexMeta(Text(r)) <==> AllLiteral(ItemsOf(r))
    ensures !HasRegexMeta(Text(r)) ==> (Matches(r, s) <==> Occurs(Runes(Text(r)), Runes(s)))
  {
    var items, u := ItemsOf(r), Runes(s);
    AsItems(r);
    MetaMeansMore(items);
    forall i: nat, j: nat | i <= j <= |u| ensures Match(r, u, i, j) <==> MatchAll(items, u, i, j) {
      if Match(r, u, i, j) {
        MatchesItems(r, u, i, j);
      }
      if MatchAll(items, u, i, j) && !r.Cat? {
        assert items[1..] == [];
      }
    }
    hide WellFormed, Text, TextAll, Match, MatchAll, Runes;
    if AllLiteral(items) {
      var t := Runes(TextAll(items));
      forall i: nat, j: nat | i <= j <= |u| ensures MatchAll(items, u, i, j) <==> u[i..j] == t {
        LiteralMatch(items, u, i, j);
      }
      if i: nat, j: nat :| i <= j <= |u| && u[i..j] == t {
        assert Match(r, u, i, j);
      }
    }
  }

  lemma {:induction false} MetaMeansMore(items: seq<Regex>)
    requires WellFormed(Cat(items))
    ensures !HasRegexMeta(TextAll(items)) <==> AllLiteral(items)
  {
    if items != [] {
      var t, more := Text(items[0]), items[1..];
      LiteralTail(items);
      HeadIsMeta(items[0]);
      MetaMeansMore(more);
      MetaJoins(t, TextAll(more));
      if items[0].Rep? {
        RepeatedLiteral(items[0]);
      }
      hide WellFormed, Text, IsMeta, HasRegexMeta;
      assert TextAll(items) == t + TextAll(more);
    }
  }

  lemma MetaJoins(a: Bytes, b: Bytes)
    ensures HasRegexMeta(a + b) <==> HasRegexMeta(a) || HasRegexMeta(b)
    ensures HasRegexMeta(a) <==> !Plain(a)
    ensures a != [] && IsMeta(a[0]) ==> HasRegexMeta(a)
  {
    hide IsMeta;
    if i :| 0 <= i < |a| && IsMeta(a[i]) {
      assert (a + b)[i] == a[i];
    }
    if i :| 0 <= i < |b| && IsMeta(b[i]) {
      assert (a + b)[|a| + i] == b[i];
    }
  }

  lemma RepeatedLiteral(x: Regex)
    requires x.Rep?
    ensures HasRegexMeta(Text(x))
  {
    var q := QuantifierText(x.quantifier);
    QuantifierStart(x.quantifier);
    hide IsMeta;
    var before := Text(x.item);
    assert Text(x) == before + q + (if x.lazy then [QUESTION] else []);
    assert Text(x)[|before|] == q[0];
  }

  lemma {:induction false} LiteralMatch(items: seq<Regex>, u: seq<rune>, i: nat, j: nat)
    requires WellFormed(Cat(items)) && AllLiteral(items) && i <= j <= |u|
    ensures MatchAll(items, u, i, j) <==> u[i..j] == Runes(TextAll(items))
  {
    hide *;
    if items == [] {
      NoItems(u, i, j);
    } else {
      var more := items[1..];
      LiteralTail(items);
      FirstLiteral(items, u, i, j);
      if i < j {
        LiteralMatch(more, u, i + 1, j);
        assert u[i..j] == [u[i]] + u[i + 1..j];
      }
    }
  }

  lemma NoItems(u: seq<rune>, i: nat, j: nat)
    requires i <= j <= |u|
    ensures MatchAll([], u, i, j) <==> u[i..j] == Runes(TextAll([]))
  {
    assert u[i..j] == [] <==> i == j;
  }

  lemma LiteralTail(items: seq<Regex>)
    requires items != [] && WellFormed(Cat(items))
    ensures AllLiteral(items) <==> items[0].Lit? && AllLiteral(items[1..])
    ensures WellFormed(Cat(items[1..]))
    ensures items[0].Lit? ==> items[0].rune != []
    ensures items[0].Lit? ==> Runes(TextAll(items)) == [FirstRune(items[0].rune)] + Runes(TextAll(items[1..]))
  {
    Uncons(items);
    if items[0].Lit? {
      LiteralHead(items);
      UnitThenRunes(items[0].rune, TextAll(items[1..]));
      hide *;
    }
  }

  lemma FirstLiteral(items: seq<Regex>, u: seq<rune>, i: nat, j: nat)
    requires items != [] && items[0].Lit? && items[0].rune != [] && i <= j <= |u|
    ensures MatchAll(items, u, i, j) <==>
      i < j && u[i] == FirstRune(items[0].rune) && MatchAll(items[1..], u, i + 1, j)
  {
    if MatchAll(items, u, i, j) {
      var k := FirstItem(items, u, i, j);
    }
    if i < j && u[i] == FirstRune(items[0].rune) && MatchAll(items[1..], u, i + 1, j) {
      assert Match(items[0], u, i, i + 1);
    }
  }

  // ----- Soundness, and exactly when

  /** No subject is turned away that the pattern matches. */
  ghost predicate Sound(r: Regex) {
    forall s: Bytes :: Matches(r, s) ==> CanMatch(Text(r), s)
  }

  /** Every pattern without alternation at the top whose prefix is free of U+FFFD is screened
      soundly. */
  lemma PrescreenSound(r: Regex)
    requires WellFormed(r) && !r.Alt? && RUNE_ERROR !in Runes(Prefix(r))
    ensures Sound(r)
  {
    forall s: Bytes | Matches(r, s) ensures CanMatch(Text(r), s) {
      MatchesLead(r, s);
      RunePrefixIsBytePrefix(Prefix(r), s);
    }
  }

  /** The engine reads a stray byte as U+FFFD and the prescreen compares bytes. So for a pattern
      that matches anything at all, the prescreen is sound exactly when U+FFFD is not among the
      literals it keeps. */
  lemma PrescreenExact(r: Regex, hit: Bytes)
    requires WellFormed(r) && !r.Alt? && Matches(r, hit)
    ensures Sound(r) <==> RUNE_ERROR !in Runes(Prefix(r))
  {
    if RUNE_ERROR in Runes(Prefix(r)) {
      MatchesLead(r, hit);
      var s, k := Respell(Prefix(r), hit);
      assert Matches(r, s) && !CanMatch(Text(r), s);
    } else {
      PrescreenSound(r);
    }
  }

  /** The shortest instance: a literal U+FFFD, and a stray byte. */
  lemma StrayByteIsTurnedAway()
    ensures var r := Anchored([Lit(ERROR_UNIT)]);
      WellFormed(r) && Matches(r, [0xFF]) && !CanMatch(Text(r), [0xFF])
  {
    var items := [Lit(ERROR_UNIT)];
    ErrorSpellings([]);
    EmptyEnds([0xFF], [], ERROR_UNIT);
    var u: seq<rune> := [RUNE_ERROR];
    assert Runes([0xFF]) == u && FirstRune(ERROR_UNIT) == RUNE_ERROR;
    assert WellFormed(items[0]) && Plain(ERROR_UNIT);
    hide Runes, Text, Plain, IsUnit;
    OneLiteral(ERROR_UNIT, u);
    hide MatchAll;
    AnchoredMatches(items, u);
    hide Match;
    PrefixOfLiterals(items, ERROR_UNIT);
  }

  lemma OneLiteral(c: Bytes, u: seq<rune>)
    requires c != [] && u == [FirstRune(c)]
    ensures MatchAll([Lit(c)], u, 0, 1) && TextAll([Lit(c)]) == c
  {
    var items := [Lit(c)];
    assert items[1..] == [] && Match(items[0], u, 0, 1) && MatchAll(items[1..], u, 1, 1);
  }

  lemma AnchoredMatches(items: seq<Regex>, u: seq<rune>)
    requires MatchAll(items, u, 0, |u|)
    ensures Match(Anchored(items), u, 0, |u|)
  {
    var all := [Bol] + items;
    assert all[1..] == items;
    assert Match(all[0], u, 0, 0) && MatchAll(all[1..], u, 0, |u|);
  }

  lemma PrefixOfLiterals(items: seq<Regex>, text: Bytes)
    requires TextAll(items) == text && Plain(text)
    ensures Prefix(Anchored(items)) == text
  {
    AnchoredText(items);
    hide Text, TextAll, IsMeta;
    var p := [CARET] + text;
    MetaFreeRun([CARET], text, []);
    assert p == [CARET] + text + [] && p[1..] == text;
  }

  // ----- Alternation at the top

  lemma {:induction false} ScanStopsAtPipe(p: Bytes, q: Bytes, from: nat)
    requires from <= |p|
    ensures MetaFree(p + [PIPE] + q, from) == MetaFree(p, from)
    decreases |p| - from
  {
    hide IsMeta;
    assert from < |p| ==> (p + [PIPE] + q)[from] == p[from];
    assert from == |p| ==> (p + [PIPE] + q)[from] == PIPE && IsMeta(PIPE) by {
      PipeIsMeta();
    }
    if from < |p| {
      ScanStopsAtPipe(p, q, from + 1);
    }
  }

  lemma PipeIsMeta()
    ensures IsMeta(PIPE) && !MayErase(PIPE)
  {
  }

  /** The scan stops at the first | at the latest. */
  lemma PipeIsTheEnd(p: Bytes, q: Bytes)
    ensures AnchoredPrefixOf(p + [PIPE] + q) == AnchoredPrefixOf(p)
  {
    var all := p + [PIPE] + q;
    PipeIsMeta();
    hide MetaFree, MayErase, LastRuneSize;
    if p != [] && p[0] == CARET {
      ScanStopsAtPipe(p, q, 1);
      var e := MetaFree(p, 1);
      assert all[1..e] == p[1..e];
    }
  }

  lemma PrefixOfFirst(branches: seq<Regex>)
    requires branches != []
    ensures Prefix(Alt(branches)) == Prefix(branches[0])
  {
    assert Text(Alt(branches)) == TextJoined(branches);
    if |branches| > 1 {
      PipeIsTheEnd(Text(branches[0]), TextJoined(branches[1..]));
    }
  }

  /** An alternation is screened soundly if the first branch's prefix leads every branch's own
      prefix. So all branches are anchored, unless the first one keeps nothing. */
  lemma AlternationSound(branches: seq<Regex>)
    requires branches != []
    ensures WellFormed(Alt(branches)) && LeadsAll(Prefix(branches[0]), branches) ==> Sound(Alt(branches))
  {
    var r, p := Alt(branches), Prefix(branches[0]);
    PrefixOfFirst(branches);
    hide Runes, Match, Matches, Prefix, AnchoredPrefixOf, Text;
    if WellFormed(r) && LeadsAll(p, branches) {
      forall s: Bytes | Matches(r, s) ensures CanMatch(Text(r), s) {
        var b := MatchingBranch(branches, s);
        BranchLeads(b, p, s);
        assert Prefix(r) == p && p <= s ==> CanMatch(Text(r), s);
      }
    }
  }

  lemma MatchingBranch(branches: seq<Regex>, s: Bytes) returns (b: Regex)
    requires Matches(Alt(branches), s)
    ensures b in branches && Matches(b, s)
  {
    var u := Runes(s);
    var i, j :| 0 <= i <= j <= |u| && Match(Alt(branches), u, i, j);
    b :| b in branches && Match(b, u, i, j);
  }

  lemma BranchLeads(b: Regex, p: Bytes, s: Bytes)
    requires WellFormed(b) && !b.Alt? && Matches(b, s)
    requires RUNE_ERROR !in Runes(p) && p <= Prefix(b)
    ensures p <= s
  {
    MatchesLead(b, s);
    PrefixInRunes(p, Prefix(b));
    hide *;
    RunePrefixIsBytePrefix(p, s);
  }

  /** p is free of U+FFFD and leads every branch's own prefix. */
  ghost predicate LeadsAll(p: Bytes, branches: seq<Regex>) {
    RUNE_ERROR !in Runes(p) && forall b :: b in branches ==> p <= Prefix(b)
  }

  /** A word, with or without the anchor. */
  datatype Branch = Branch(anchored: bool, word: seq<Bytes>)

  /** Literal runes other than U+FFFD. */
  predicate IsWord(w: seq<Bytes>) {
    forall u :: u in w ==> IsUnit(u) && !IsMeta(u[0]) && FirstRune(u) != RUNE_ERROR
  }

  function Spelled(w: seq<Bytes>): Bytes {
    if w == [] then [] else w[0] + Spelled(w[1..])
  }

  function Values(w: seq<Bytes>): seq<rune>
    requires IsWord(w)
  {
    seq(|w|, i requires 0 <= i < |w| => assert w[i] in w; FirstRune(w[i]))
  }

  function Literals(w: seq<Bytes>): seq<Regex> {
    seq(|w|, i requires 0 <= i < |w| => Lit(w[i]))
  }

  function AsRegex(b: Branch): Regex {
    if b.anchored then Anchored(Literals(b.word)) else Cat(Literals(b.word))
  }

  function AsAlternation(bs: seq<Branch>): Regex {
    Alt(seq(|bs|, i requires 0 <= i < |bs| => AsRegex(bs[i])))
  }

  lemma {:induction false} WordText(w: seq<Bytes>)
    requires IsWord(w)
    ensures TextAll(Literals(w)) == Spelled(w) && Plain(Spelled(w))
  {
    if w != [] {
      assert w[0] in w && w[1..] <= w[1..];
      WordText(w[1..]);
      assert Literals(w)[1..] == Literals(w[1..]);
      UnitShape(w[0]);
      hide IsUnit, IsMeta;
      PlainJoin(w[0], Spelled(w[1..]));
    }
  }

  lemma {:induction false} WordRunes(w: seq<Bytes>)
    requires IsWord(w)
    ensures Runes(Spelled(w)) == Values(w)
  {
    if w != [] {
      assert w[0] in w;
      WordRunes(w[1..]);
      UnitThenRunes(w[0], Spelled(w[1..]));
      hide IsUnit, Runes;
      assert Values(w) == [FirstRune(w[0])] + Values(w[1..]);
    }
  }

  lemma {:induction false} WordMatches(w: seq<Bytes>, u: seq<rune>, i: nat)
    requires IsWord(w) && i + |w| <= |u| && u[i..i + |w|] == Values(w)
    ensures MatchAll(Literals(w), u, i, i + |w|)
  {
    if w != [] {
      var more := w[1..];
      assert w[0] in w && w[0] != [];
      assert Literals(w)[1..] == Literals(more);
      assert u[i + 1..i + 1 + |more|] == u[i..i + |w|][1..] == Values(w)[1..] == Values(more);
      WordMatches(more, u, i + 1);
      assert u[i] == u[i..i + |w|][0];
      assert Match(Literals(w)[0], u, i, i + 1);
    }
  }

  lemma BranchFacts(b: Branch)
    requires IsWord(b.word)
    ensures WellFormed(AsRegex(b)) && !AsRegex(b).Alt?
    ensures Prefix(AsRegex(b)) == if b.anchored then Spelled(b.word) else []
    ensures RUNE_ERROR !in Runes(Spelled(b.word))
  {
    var items := Literals(b.word);
    forall x | x in items ensures x.Lit? && WellFormed(x) {
      var i :| 0 <= i < |b.word| && x == Lit(b.word[i]);
      assert b.word[i] in b.word;
    }
    WordText(b.word);
    WordRunes(b.word);
    if b.anchored {
      PrefixOfLiterals(items, Spelled(b.word));
    } else {
      NoAnchor(items);
    }
  }

  lemma ThroughBranch(bs: seq<Branch>, k: nat, s: Bytes, i: nat, j: nat)
    requires k < |bs| && i <= j <= |Runes(s)| && Match(AsRegex(bs[k]), Runes(s), i, j)
    ensures Matches(AsAlternation(bs), s)
  {
    var r, u := AsAlternation(bs), Runes(s);
    hide AsRegex, Runes, MatchAll;
    assert r.branches[k] in r.branches && Match(r.branches[k], u, i, j);
    assert Match(r, u, i, j);
  }

  /** An anchored word matches itself. */
  lemma BranchMatches(bs: seq<Branch>, k: nat)
    requires k < |bs| && IsWord(bs[k].word) && bs[k].anchored
    ensures Matches(AsAlternation(bs), Spelled(bs[k].word))
  {
    var word := bs[k].word;
    var u := Values(word);
    WordRunes(word);
    assert u[0..|u|] == u;
    hide IsWord, Runes, Spelled;
    WordMatches(word, u, 0);
    AnchoredMatches(Literals(word), u);
    ThroughBranch(bs, k, Spelled(word), 0, |u|);
  }

  /** A subject that branch k matches and that does not start with t. */
  lemma Missed(bs: seq<Branch>, k: nat, t: Bytes) returns (s: Bytes)
    requires k < |bs| && IsWord(bs[k].word) && t != []
    requires bs[k].anchored ==> !(t <= Spelled(bs[k].word))
    ensures Matches(AsAlternation(bs), s) && !(t <= s)
  {
    hide *;
    if bs[k].anchored {
      s := Spelled(bs[k].word);
      BranchMatches(bs, k);
    } else {
      var c: byte := if t[0] == 0x61 then 0x62 else 0x61;
      s := [c] + Spelled(bs[k].word);
      BranchFound(bs, k, c);
    }
  }

  /** A word that is not anchored matches behind any other character. */
  lemma BranchFound(bs: seq<Branch>, k: nat, c: byte)
    requires k < |bs| && IsWord(bs[k].word) && !bs[k].anchored && c < 0x80
    ensures Matches(AsAlternation(bs), [c] + Spelled(bs[k].word))
  {
    var word := bs[k].word;
    var u := [c as rune] + Values(word);
    RunesBehind(c, word);
    assert u[1..] == Values(word);
    hide IsWord, Runes, Spelled, MatchAll;
    WordMatches(word, u, 1);
    assert Match(AsRegex(bs[k]), u, 1, |u|);
    ThroughBranch(bs, k, [c] + Spelled(word), 1, |u|);
  }

  lemma RunesBehind(c: byte, w: seq<Bytes>)
    requires IsWord(w) && c < 0x80
    ensures Runes([c] + Spelled(w)) == [c as rune] + Values(w)
  {
    WordRunes(w);
    hide Values, Spelled, IsWord;
    assert ([c] + Spelled(w))[1..] == Spelled(w);
  }

  ghost predicate Leads(bs: seq<Branch>, k: nat)
    requires 0 < |bs| && k < |bs|
  {
    bs[k].anchored && Spelled(bs[0].word) <= Spelled(bs[k].word)
  }

  function OwnPrefix(b: Branch): Bytes {
    if b.anchored then Spelled(b.word) else []
  }

  /** The alternation's prefix, and those of its branches. */
  lemma AlternationFacts(bs: seq<Branch>)
    requires bs != [] && forall b :: b in bs ==> IsWord(b.word)
    ensures var r := AsAlternation(bs);
      && WellFormed(r) && |r.branches| == |bs| && Prefix(r) == OwnPrefix(bs[0])
      && forall k :: 0 <= k < |bs| ==> Prefix(r.branches[k]) == OwnPrefix(bs[k])
  {
    var branches := AsAlternation(bs).branches;
    hide WellFormed, Prefix, IsWord, Spelled;
    forall k | 0 <= k < |bs|
      ensures WellFormed(branches[k]) && !branches[k].Alt?
      ensures Prefix(branches[k]) == OwnPrefix(bs[k])
    {
      assert bs[k] in bs;
      BranchFacts(bs[k]);
    }
    assert WellFormed(Alt(branches));
    PrefixOfFirst(branches);
  }

  /** For alternations of words the condition is exact: either the first branch is not anchored or
      is the bare anchor, or every branch is anchored and begins with the first one's word. */
  lemma TopAlternation(bs: seq<Branch>)
    requires bs != [] && forall b :: b in bs ==> IsWord(b.word)
    ensures WellFormed(AsAlternation(bs))
    ensures Sound(AsAlternation(bs)) <==>
      !bs[0].anchored || bs[0].word == [] || forall k: nat :: k < |bs| ==> Leads(bs, k)
  {
    var r := AsAlternation(bs);
    AlternationFacts(bs);
    BranchFacts(bs[0]);
    WordNotEmpty(bs[0].word);
    hide AsAlternation, Spelled, WellFormed, Prefix, IsWord, Sound;
    if !bs[0].anchored || bs[0].word == [] || forall k: nat :: k < |bs| ==> Leads(bs, k) {
      forall b | b in r.branches ensures Prefix(r.branches[0]) <= Prefix(b) {
        var k: nat :| k < |bs| && b == r.branches[k];
        assert bs[0].anchored && bs[0].word != [] ==> Leads(bs, k);
      }
      AlternationSound(r.branches);
    } else {
      var k: nat :| k < |bs| && !Leads(bs, k);
      var s := Missed(bs, k, Spelled(bs[0].word));
      assert !CanMatch(Text(r), s);
      assert !Sound(r);
    }
  }

  lemma WordNotEmpty(w: seq<Bytes>)
    requires IsWord(w)
    ensures w == [] <==> Spelled(w) == []
  {
    assert w != [] ==> w[0] in w;
  }

  /** With two anchored branches: ^a|^b matches "b", which the prescreen turns away. */
  lemma SecondBranchIsTurnedAway()
    ensures var r := AsAlternation([Branch(true, [[0x61]]), Branch(true, [[0x62]])]);
      WellFormed(r) && Matches(r, [0x62]) && !CanMatch(Text(r), [0x62])
  {
    var a, b := Branch(true, [[0x61]]), Branch(true, [[0x62]]);
    var bs := [a, b];
    assert IsWord(a.word) && IsWord(b.word);
    assert Spelled(a.word) == [0x61] && Spelled(b.word) == [0x62] by {
      assert a.word[1..] == [] && b.word[1..] == [];
    }
    hide *;
    AlternationFacts(bs);
    BranchMatches(bs, 1);
    assert a.anchored ==> OwnPrefix(a) == Spelled(a.word);
    assert !CanMatch(Text(AsAlternation(bs)), [0x62]);
  }

}
