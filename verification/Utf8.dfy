/** Go strings as byte sequences, and Go's decoding of them into runes.

    A byte that does not start a well-formed UTF-8 unit decodes to U+FFFD and has width one, so
    decoding is total but not injective. The lemmas here say exactly how far injectivity goes:
    it holds on every string whose decoding is free of U+FFFD, and fails on every other one. */
module Utf8 {
  newtype byte = x: int | 0 <= x < 256

  /** A code point. */
  newtype rune = x: int | 0 <= x < 0x110000

  type Bytes = seq<byte>

  const RUNE_ERROR: rune := 0xFFFD

  // The well-formed spelling of U+FFFD itself.
  const ERROR_UNIT: Bytes := [0xEF, 0xBF, 0xBD]

  /** Length of the unit that a leading byte announces; 0 for a byte that cannot lead. */
  function Announced(b: byte): nat {
    if b < 0x80 then 1
    else if 0xC2 <= b <= 0xDF then 2
    else if 0xE0 <= b <= 0xEF then 3
    else if 0xF0 <= b <= 0xF4 then 4
    else 0
  }

  predicate Continuation(b: byte) {
    0x80 <= b <= 0xBF
  }

  /** The second byte has a narrower range after some leading bytes: no overlong forms, no
      surrogates, nothing above U+10FFFF. */
  predicate SecondOk(lead: byte, b: byte) {
    && Continuation(b)
    && (lead == 0xE0 ==> 0xA0 <= b)
    && (lead == 0xED ==> b <= 0x9F)
    && (lead == 0xF0 ==> 0x90 <= b)
    && (lead == 0xF4 ==> b <= 0x8F)
  }

  predicate StartsWithUnit(s: Bytes) {
    && |s| > 0
    && var n := Announced(s[0]);
       && 0 < n <= |s|
       && (n >= 2 ==> SecondOk(s[0], s[1]))
       && (n >= 3 ==> Continuation(s[2]))
       && (n >= 4 ==> Continuation(s[3]))
  }

  function UnitValue(s: Bytes): (r: rune)
    requires StartsWithUnit(s)
  {
    match Announced(s[0])
    case 1 => s[0] as rune
    case 2 => (s[0] - 0xC0) as rune * 0x40 + (s[1] - 0x80) as rune
    case 3 => (s[0] - 0xE0) as rune * 0x1000 + (s[1] - 0x80) as rune * 0x40 + (s[2] - 0x80) as rune
    case _ => (s[0] - 0xF0) as rune * 0x40000 + (s[1] - 0x80) as rune * 0x1000
              + (s[2] - 0x80) as rune * 0x40 + (s[3] - 0x80) as rune
  }

  function Width(s: Bytes): (n: nat)
    requires |s| > 0
    ensures 0 < n <= |s| && n <= 4
  {
    if StartsWithUnit(s) then Announced(s[0]) else 1
  }

  function FirstRune(s: Bytes): rune
    requires |s| > 0
  {
    if StartsWithUnit(s) then UnitValue(s) else RUNE_ERROR
  }

  /** Go's `[]rune(s)`. */
  function Runes(s: Bytes): (rs: seq<rune>)
    ensures |rs| <= |s|
    ensures rs == [] <==> s == []
  {
    if s == [] then [] else [FirstRune(s)] + Runes(s[Width(s)..])
  }

  /** Go's utf8.DecodeLastRuneInString: step back over continuation bytes, at most three. */
  function LastRuneSize(s: Bytes): (n: nat)
    ensures n <= |s| && (s != [] ==> n > 0)
  {
    if s == [] then 0
    else if s[|s| - 1] < 0x80 || |s| == 1 then 1
    else
      var lim := if |s| < 4 then 0 else |s| - 4;
      var start := LeadBack(s, |s| - 2, lim);
      if start + Width(s[start..]) == |s| then |s| - start else 1
  }

  function LeadBack(s: Bytes, start: nat, lim: nat): (r: nat)
    requires lim <= start < |s|
    ensures lim <= r <= start
  {
    if start == lim || !Continuation(s[start]) then start else LeadBack(s, start - 1, lim)
  }

  /** A unit's value determines its bytes. */
  lemma UnitInjective(s: Bytes, t: Bytes)
    requires StartsWithUnit(s) && StartsWithUnit(t) && UnitValue(s) == UnitValue(t)
    ensures Width(s) == Width(t) && s[..Width(s)] == t[..Width(t)]
  {
    assert Announced(s[0]) == Announced(t[0]) by {
      UnitRange(s);
      UnitRange(t);
    }
  }

  lemma UnitRange(s: Bytes)
    requires StartsWithUnit(s)
    ensures Announced(s[0]) == 1 <==> UnitValue(s) < 0x80
    ensures Announced(s[0]) == 2 <==> 0x80 <= UnitValue(s) < 0x800
    ensures Announced(s[0]) == 3 <==> 0x800 <= UnitValue(s) < 0x10000
    ensures Announced(s[0]) == 4 <==> 0x10000 <= UnitValue(s)
  {
  }

  /** Unicode scalar values: all code points but the surrogates. */
  predicate IsScalar(r: rune) {
    r < 0xD800 || 0xDFFF < r
  }

  /** The UTF-8 encoding of a scalar value (section 3 of RFC 3629): six bits in each byte but the
      first. */
  function Unit(r: rune): (s: Bytes) {
    var r1, r2, r3 := r / 0x40, r / 0x40 / 0x40, r / 0x40 / 0x40 / 0x40;
    if r < 0x80 then [r as byte]
    else if r < 0x800 then [0xC0 + r1 as byte, Tail(r)]
    else if r < 0x10000 then [0xE0 + r2 as byte, Tail(r1), Tail(r)]
    else [0xF0 + r3 as byte, Tail(r2), Tail(r1), Tail(r)]
  }

  function Tail(r: rune): byte {
    0x80 + (r % 0x40) as byte
  }

  lemma UnitDecodes(r: rune)
    requires IsScalar(r)
    ensures StartsWithUnit(Unit(r)) && UnitValue(Unit(r)) == r && Announced(Unit(r)[0]) == |Unit(r)|
  {
    var r1, r2, r3 := r / 0x40, r / 0x40 / 0x40, r / 0x40 / 0x40 / 0x40;
    var d0, d1, d2 := r % 0x40, r1 % 0x40, r2 % 0x40;
    assert r == r1 * 0x40 + d0 && r1 == r2 * 0x40 + d1 && r2 == r3 * 0x40 + d2;
    assert Tail(r) == 0x80 + d0 as byte && Tail(r1) == 0x80 + d1 as byte && Tail(r2) == 0x80 + d2 as byte;
    hide Tail;
    var s := Unit(r);
    if r < 0x80 {
    } else if r < 0x800 {
      assert 0xC2 <= s[0] <= 0xDF;
    } else if r < 0x10000 {
      assert 0xE0 <= s[0] <= 0xEF;
    } else {
      assert 0xF0 <= s[0] <= 0xF4;
    }
  }

  lemma UnitIsScalar(s: Bytes)
    requires StartsWithUnit(s)
    ensures IsScalar(UnitValue(s))
  {
  }

  /** The decoder accepts exactly the encodings of scalar values, and reads them back. */
  lemma UnitsAreEncodings(s: Bytes)
    ensures StartsWithUnit(s) <==> exists r :: IsScalar(r) && Unit(r) <= s
    ensures StartsWithUnit(s) ==> IsScalar(UnitValue(s)) && s[..Width(s)] == Unit(UnitValue(s))
  {
    if StartsWithUnit(s) {
      var r := UnitValue(s);
      UnitIsScalar(s);
      UnitDecodes(r);
      UnitInjective(s, Unit(r));
      assert Unit(r)[..|Unit(r)|] == Unit(r);
    }
    if r :| IsScalar(r) && Unit(r) <= s {
      UnitDecodes(r);
      assert forall i :: 0 <= i < |Unit(r)| ==> s[i] == Unit(r)[i];
      hide Unit, UnitValue, IsScalar;
    }
  }

  /** A single UTF-8 unit. */
  predicate IsUnit(u: Bytes) {
    StartsWithUnit(u) && Width(u) == |u|
  }

  lemma UnitBytes(u: Bytes)
    requires IsUnit(u)
    ensures 1 <= |u| <= 4 && Width(u) == |u| && !Continuation(u[0])
    ensures |u| == 1 ==> u[0] < 0x80
    ensures forall i :: 1 <= i < |u| ==> Continuation(u[i])
  {
  }

  /** Stepping back over continuation bytes finds the unit that a string ends with. */
  lemma LastRuneOfUnit(x: Bytes, u: Bytes)
    requires IsUnit(u)
    ensures LastRuneSize(x + u) == |u|
  {
    UnitBytes(u);
    hide IsUnit, Width;
    var s := x + u;
    assert s[|x|..] == u;
    assert forall i :: 0 <= i < |u| ==> s[|x| + i] == u[i];
    if |u| > 1 {
      LeadBackTo(s, |s| - 2, if |s| < 4 then 0 else |s| - 4, |x|);
    }
  }

  lemma {:induction false} LeadBackTo(s: Bytes, start: nat, lim: nat, lead: nat)
    requires lim <= lead <= start < |s| && !Continuation(s[lead])
    requires forall i :: lead < i <= start ==> Continuation(s[i])
    ensures LeadBack(s, start, lim) == lead
  {
    if lead < start {
      LeadBackTo(s, start - 1, lim, lead);
    }
  }

  /** Decoding a unit looks at no byte after it. */
  lemma UnitLocal(s: Bytes, rest: Bytes)
    requires StartsWithUnit(s)
    ensures var t := s[..Width(s)] + rest;
      && StartsWithUnit(t) && UnitValue(t) == UnitValue(s) && Width(t) == Width(s)
      && t[Width(t)..] == rest
      && Runes(t) == [UnitValue(s)] + Runes(rest)
  {
    var t := s[..Width(s)] + rest;
    assert forall i :: 0 <= i < Width(s) ==> t[i] == s[i];
    assert t[Width(t)..] == rest;
  }

  /** Each of the two spellings of U+FFFD decodes to it in front of anything. */
  lemma ErrorSpellings(rest: Bytes)
    ensures Runes([0xFF] + rest) == [RUNE_ERROR] + Runes(rest)
    ensures Runes(ERROR_UNIT + rest) == [RUNE_ERROR] + Runes(rest)
  {
  }

  /** ASCII bytes are their own runes. */
  function Widened(s: Bytes): seq<rune> {
    seq(|s|, i requires 0 <= i < |s| => s[i] as rune)
  }

  lemma {:induction false} AsciiRunes(s: Bytes)
    requires forall i :: 0 <= i < |s| ==> s[i] < 0x80
    ensures Runes(s) == Widened(s)
  {
    if s != [] {
      AsciiRunes(s[1..]);
      assert Widened(s) == [s[0] as rune] + Widened(s[1..]);
    }
  }

  /** Two strings whose decodings start alike, and not with U+FFFD, start with the same unit. */
  lemma SameFirstUnit(p: Bytes, s: Bytes)
    requires p != [] && s != [] && Runes(p) <= Runes(s) && FirstRune(p) != RUNE_ERROR
    ensures Width(p) == Width(s) && p[..Width(p)] == s[..Width(s)]
    ensures StartsWithUnit(p) && StartsWithUnit(s)
    ensures Runes(p[Width(p)..]) <= Runes(s[Width(s)..])
    ensures Runes(p) == [FirstRune(p)] + Runes(p[Width(p)..])
  {
    assert Runes(p)[0] == Runes(s)[0];
    UnitInjective(p, s);
    assert Runes(p)[1..] <= Runes(s)[1..];
  }

  lemma PrefixGlue(p: Bytes, s: Bytes, n: nat)
    requires n <= |p| && n <= |s| && p[..n] == s[..n] && p[n..] <= s[n..]
    ensures p <= s
  {
  }

  /** Where no U+FFFD is involved, a prefix of runes is a prefix of bytes. */
  lemma {:induction false} RunePrefixIsBytePrefix(p: Bytes, s: Bytes)
    requires Runes(p) <= Runes(s) && RUNE_ERROR !in Runes(p)
    ensures p <= s
  {
    if p != [] {
      assert Runes(p)[0] == FirstRune(p);
      SameFirstUnit(p, s);
      var n := Width(p);
      RunePrefixIsBytePrefix(p[n..], s[n..]);
      PrefixGlue(p, s, n);
    }
  }

  /** And conversely. */
  lemma {:induction false} PrefixInRunes(p: Bytes, s: Bytes)
    requires p <= s && RUNE_ERROR !in Runes(p)
    ensures Runes(p) <= Runes(s)
  {
    if p != [] {
      assert Runes(p)[0] == FirstRune(p);
      var n := Width(p);
      assert StartsWithUnit(p) && StartsWithUnit(s) && Width(s) == n && FirstRune(s) == FirstRune(p);
      assert Runes(p) == [FirstRune(p)] + Runes(p[n..]) && Runes(s) == [FirstRune(s)] + Runes(s[n..]);
      PrefixInRunes(p[n..], s[n..]);
    }
  }

  /** A string without U+FFFD in its decoding is the only string with that decoding. */
  lemma DecodingInjective(s: Bytes, t: Bytes)
    requires Runes(s) == Runes(t) && RUNE_ERROR !in Runes(s)
    ensures s == t
  {
    RunePrefixIsBytePrefix(s, t);
    RunePrefixIsBytePrefix(t, s);
  }

  /** Whenever the runes of `p`, among them U+FFFD, lead the runes of `m`, the same runes can be
      spelled so that some byte, at `k`, departs from `p`. */
  lemma {:induction false} Respell(p: Bytes, m: Bytes) returns (t: Bytes, k: nat)
    requires Runes(p) <= Runes(m) && RUNE_ERROR in Runes(p)
    ensures Runes(t) == Runes(m)
    ensures k < |p| && k < |t| && t[k] != p[k]
  {
    assert Runes(p)[0] == Runes(m)[0];
    var n := Width(m);
    if FirstRune(p) == RUNE_ERROR {
      ErrorSpellings(m[n..]);
      t, k := (if p[0] == 0xFF then ERROR_UNIT else [0xFF]) + m[n..], 0;
    } else {
      SameFirstUnit(p, m);
      var u, j := Respell(p[n..], m[n..]);
      UnitLocal(m, u);
      t, k := m[..n] + u, n + j;
    }
  }
}
