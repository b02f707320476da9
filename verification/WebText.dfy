/** grpc-web-text bodies (internal/app/grpcweb_text.go): base64 as of section 4 of RFC 4648, where
    a body may be several encodings in a row, with padding in the middle. */
module WebText {
  import opened Utf8
  import opened Wrappers

  // `DecodeString` is Go's lenient decoder: it skips line breaks, lets padding only end the input,
  // and does not look at unused trailing bits.

  const PAD: byte := 0x3D

  newtype sextet = x: int | 0 <= x < 64

  predicate IsSymbol(b: byte) {
    0x41 <= b <= 0x5A || 0x61 <= b <= 0x7A || 0x30 <= b <= 0x39 || b == 0x2B || b == 0x2F
  }

  function Value(b: byte): sextet
    requires IsSymbol(b)
  {
    if 0x41 <= b <= 0x5A then (b - 0x41) as sextet
    else if 0x61 <= b <= 0x7A then (b - 0x61) as sextet + 26
    else if 0x30 <= b <= 0x39 then (b - 0x30) as sextet + 52
    else if b == 0x2B then 62
    else 63
  }

  function Symbol(v: sextet): (b: byte)
    ensures IsSymbol(b) && Value(b) == v && b != PAD && IsVisible(b)
  {
    if v < 26 then 0x41 + v as byte
    else if v < 52 then 0x61 + (v - 26) as byte
    else if v < 62 then 0x30 + (v - 52) as byte
    else if v == 62 then 0x2B
    else 0x2F
  }

  /** Table 1 of RFC 4648: upper-case letters, lower-case letters, digits, + and /. */
  lemma SymbolsAreStandard(v: sextet, b: byte)
    ensures IsSymbol(b) ==> Symbol(Value(b)) == b
    ensures var c := Symbol(v) as char;
      && (v < 26 ==> c == 'A' + v as char)
      && (26 <= v < 52 ==> c == 'a' + (v - 26) as char)
      && (52 <= v < 62 ==> c == '0' + (v - 52) as char)
      && (v == 62 ==> c == '+') && (v == 63 ==> c == '/')
  {
  }

  /** Go's unicode.IsSpace. */
  predicate IsSpace(r: rune) {
    || 0x09 <= r <= 0x0D || r == 0x20 || r == 0x85 || r == 0xA0 || r == 0x1680 || 0x2000 <= r <= 0x200A
    || r == 0x2028 || r == 0x2029 || r == 0x202F || r == 0x205F || r == 0x3000
  }

  /** The 25 code points with Unicode's property White_Space. */
  lemma SpacesAreUnicode(r: rune)
    ensures IsSpace(r) <==> r in {
      0x09, 0x0A, 0x0B, 0x0C, 0x0D, 0x20, 0x85, 0xA0, 0x1680, 0x2000, 0x2001, 0x2002, 0x2003, 0x2004, 0x2005, 0x2006,
      0x2007, 0x2008, 0x2009, 0x200A, 0x2028, 0x2029, 0x202F, 0x205F, 0x3000}
  {
  }

  /** An ASCII byte that is no space. */
  predicate IsVisible(b: byte) {
    b < 0x80 && !IsSpace(b as rune)
  }

  predicate IsLineBreak(b: byte) {
    b == 0x0A || b == 0x0D
  }

  // ----- Encoding

  function First(a: byte): sextet { (a / 4) as sextet }

  function Second(a: byte, b: byte): sextet { (a % 4) as sextet * 16 + (b / 16) as sextet }

  function Third(b: byte, c: byte): sextet { (b % 16) as sextet * 4 + (c / 64) as sextet }

  function Fourth(c: byte): sextet { (c % 64) as sextet }

  /** The four symbols spell the same 24-bit number as the three bytes, most significant first. */
  lemma QuadSpells(a: byte, b: byte, c: byte)
    ensures (a as int * 0x100 + b as int) * 0x100 + c as int ==
            ((First(a) as int * 64 + Second(a, b) as int) * 64 + Third(b, c) as int) * 64 + Fourth(c) as int
  {
  }

  /** Three bytes as four symbols; one or two bytes are filled up with padding. */
  function Quad(x: Bytes): (q: Bytes)
    requires x != []
    ensures |q| == 4
  {
    var b, c: byte := if |x| > 1 then x[1] else 0, if |x| > 2 then x[2] else 0;
    [Symbol(First(x[0])), Symbol(Second(x[0], b)),
     if |x| > 1 then Symbol(Third(b, c)) else PAD,
     if |x| > 2 then Symbol(Fourth(c)) else PAD]
  }

  /** Missing bytes count as zero bits, and symbols of missing bytes only are pads. */
  lemma ShortQuads(a: byte, b: byte)
    ensures Quad([a]) == Quad([a, 0, 0])[..2] + [PAD, PAD]
    ensures Quad([a, b]) == Quad([a, b, 0])[..3] + [PAD]
  {
  }

  function After(x: Bytes): Bytes {
    if |x| > 3 then x[3..] else []
  }

  function Encode(x: Bytes): Bytes
    decreases |x|
  {
    if x == [] then [] else Quad(x) + Encode(After(x))
  }

  function EncodeAll(xs: seq<Bytes>): Bytes {
    if xs == [] then [] else Encode(xs[0]) + EncodeAll(xs[1..])
  }

  function Flatten(xs: seq<Bytes>): Bytes {
    if xs == [] then [] else xs[0] + Flatten(xs[1..])
  }

  // ----- Go's decoder

  function Byte0(a: sextet, b: sextet): byte { a as byte * 4 + b as byte / 16 }

  function Byte1(b: sextet, c: sextet): byte { (b as byte % 16) * 16 + c as byte / 4 }

  function Byte2(c: sextet, d: sextet): byte { (c as byte % 4) * 64 + d as byte }

  predicate AllSymbols(s: Bytes, n: nat) {
    n <= |s| && forall i :: 0 <= i < n ==> IsSymbol(s[i])
  }

  function At(s: Bytes, i: nat): sextet
    requires i < |s| && IsSymbol(s[i])
  {
    Value(s[i])
  }

  /** The bytes of two, three and four symbols. */
  function One(s: Bytes): Bytes
    requires AllSymbols(s, 2)
  {
    [Byte0(At(s, 0), At(s, 1))]
  }

  function Two(s: Bytes): Bytes
    requires AllSymbols(s, 3)
  {
    [Byte0(At(s, 0), At(s, 1)), Byte1(At(s, 1), At(s, 2))]
  }

  function Three(s: Bytes): Bytes
    requires AllSymbols(s, 4)
  {
    [Byte0(At(s, 0), At(s, 1)), Byte1(At(s, 1), At(s, 2)), Byte2(At(s, 2), At(s, 3))]
  }

  /** Without line breaks: whole quanta, then what may end the input, with or without padding. */
  function Quanta(padded: bool, s: Bytes): Option<Bytes> {
    if s == [] then Some([])
    else if AllSymbols(s, 4) then
      match Quanta(padded, s[4..])
      case None => None
      case Some(rest) => Some(Three(s) + rest)
    else LastQuantum(padded, s)
  }

  function LastQuantum(padded: bool, s: Bytes): Option<Bytes> {
    var tail := if padded then 4 else |s|;
    if |s| != tail || !AllSymbols(s, 2) then None
    else if (if padded then s[2] == PAD && s[3] == PAD else |s| == 2) then Some(One(s))
    else if AllSymbols(s, 3) && (if padded then s[3] == PAD else |s| == 3) then Some(Two(s))
    else None
  }

  function WithoutLineBreaks(s: Bytes): Bytes {
    if s == [] then []
    else if IsLineBreak(s[0]) then WithoutLineBreaks(s[1..])
    else [s[0]] + WithoutLineBreaks(s[1..])
  }

  /** base64.StdEncoding.DecodeString if padded, base64.RawStdEncoding.DecodeString otherwise. */
  function DecodeString(padded: bool, s: Bytes): Option<Bytes> {
    Quanta(padded, WithoutLineBreaks(s))
  }

  // ----- The code

  function FirstPad(s: Bytes, from: nat): (i: nat)
    requires from <= |s|
    ensures from <= i <= |s| && (i < |s| ==> s[i] == PAD)
    ensures forall k :: from <= k < i ==> s[k] != PAD
    decreases |s| - from
  {
    if from < |s| && s[from] != PAD then FirstPad(s, from + 1) else from
  }

  function PadsEnd(s: Bytes, from: nat): (e: nat)
    requires from <= |s|
    ensures from <= e <= |s| && (e < |s| ==> s[e] != PAD)
    ensures forall k :: from <= k < e ==> s[k] == PAD
    decreases |s| - from
  {
    if from < |s| && s[from] == PAD then PadsEnd(s, from + 1) else from
  }

  /** Decode up to the end of each run of padding, and the rest as unpadded. */
  function Concatenated(s: Bytes): Option<Bytes>
    decreases |s|
  {
    if s == [] then Some([])
    else
      var i := FirstPad(s, 0);
      if i == |s| then DecodeString(false, s)
      else
        var e := PadsEnd(s, i);
        match (DecodeString(true, s[..e]), Concatenated(s[e..]))
        case (Some(d), Some(rest)) => Some(d + rest)
        case _ => None
  }

  function Prepended(out: Bytes, rest: Option<Bytes>): Option<Bytes> {
    match rest case None => None case Some(r) => Some(out + r)
  }

  method DecodeConcatenatedBase64(s: Bytes) returns (r: Option<Bytes>)
    ensures r == Concatenated(s)
  {
    var out: Bytes := [];
    var start, i := 0, 0;
    assert s[0..] == s;
    NothingPrepended(Concatenated(s));
    while i < |s|
      invariant start <= i <= |s|
      invariant forall k :: start <= k < i ==> s[k] != PAD
      invariant Concatenated(s) == Prepended(out, Concatenated(s[start..]))
      decreases |s| - i
    {
      if s[i] == PAD {
        var end := i + 1;
        while end < |s| && s[end] == PAD
          invariant i < end <= |s|
          invariant forall k :: i <= k < end ==> s[k] == PAD
        {
          end := end + 1;
        }
        NextChunk(s, start, i, end);
        var decoded := DecodeString(true, s[start..end]);
        if decoded.None? {
          return None;
        }
        Regroup(out, decoded.value, Concatenated(s[end..]));
        out := out + decoded.value;
        start, i := end, end;
      } else {
        i := i + 1;
      }
    }
    if start < |s| {
      assert Concatenated(s[start..]) == DecodeString(false, s[start..]);
      var decoded := DecodeString(false, s[start..]);
      if decoded.None? {
        return None;
      }
      return Some(out + decoded.value);
    }
    assert s[start..] == [] && out + [] == out;
    return Some(out);
  }

  lemma NothingPrepended(rest: Option<Bytes>)
    ensures Prepended([], rest) == rest
  {
    if rest.Some? {
      assert [] + rest.value == rest.value;
    }
  }

  lemma {:induction false} FirstPadIs(s: Bytes, from: nat, i: nat)
    requires from <= i <= |s| && (i < |s| ==> s[i] == PAD) && forall k :: from <= k < i ==> s[k] != PAD
    ensures FirstPad(s, from) == i
    decreases i - from
  {
  }

  lemma {:induction false} PadsEndIs(s: Bytes, from: nat, e: nat)
    requires from <= e <= |s| && (e < |s| ==> s[e] != PAD) && forall k :: from <= k < e ==> s[k] == PAD
    ensures PadsEnd(s, from) == e
    decreases e - from
  {
  }

  lemma Regroup(a: Bytes, b: Bytes, rest: Option<Bytes>)
    ensures Prepended(a, Prepended(b, rest)) == Prepended(a + b, rest)
  {
    if rest.Some? {
      assert a + (b + rest.value) == a + b + rest.value;
    }
  }

  lemma NextChunk(s: Bytes, start: nat, i: nat, end: nat)
    requires start <= i < end <= |s| && (end < |s| ==> s[end] != PAD)
    requires forall k :: start <= k < i ==> s[k] != PAD
    requires forall k :: i <= k < end ==> s[k] == PAD
    ensures Concatenated(s[start..]) ==
            match DecodeString(true, s[start..end])
            case None => None
            case Some(d) => Prepended(d, Concatenated(s[end..]))
  {
    hide *;
    var t := s[start..];
    FirstPadIs(t, 0, i - start);
    PadsEndIs(t, i - start, end - start);
    ChunkStep(t, i - start, end - start);
    assert t[..end - start] == s[start..end] && t[end - start..] == s[end..];
  }

  lemma ChunkStep(t: Bytes, i: nat, e: nat)
    requires i < e <= |t| && FirstPad(t, 0) == i && PadsEnd(t, i) == e
    ensures Concatenated(t) ==
            match DecodeString(true, t[..e]) case None => None case Some(d) => Prepended(d, Concatenated(t[e..]))
  {
  }

  function TrimLeft(s: Bytes): Bytes {
    if s != [] && IsSpace(FirstRune(s)) then TrimLeft(s[Width(s)..]) else s
  }

  function TrimRight(s: Bytes): Bytes {
    var n := LastRuneSize(s);
    if s != [] && IsSpace(FirstRune(s[|s| - n..])) then TrimRight(s[..|s| - n]) else s
  }

  function TrimSpace(s: Bytes): Bytes {
    TrimRight(TrimLeft(s))
  }

  /** The body as a whole, padded or not, and only then as a concatenation. */
  function Decoded(raw: Bytes): Option<Bytes> {
    var trimmed := TrimSpace(raw);
    if trimmed == [] then Some([])
    else if DecodeString(true, trimmed).Some? then DecodeString(true, trimmed)
    else if DecodeString(false, trimmed).Some? then DecodeString(false, trimmed)
    else Concatenated(trimmed)
  }

  method DecodeGRPCWebText(raw: Bytes) returns (r: Option<Bytes>)
    ensures r == Decoded(raw)
  {
    var trimmed := TrimSpace(raw);
    if trimmed == [] {
      return Some([]);
    }
    r := DecodeString(true, trimmed);
    if r.Some? {
      return;
    }
    r := DecodeString(false, trimmed);
    if r.Some? {
      return;
    }
    r := DecodeConcatenatedBase64(trimmed);
  }

  // ----- Encodings are read back

  predicate NoSpace(s: Bytes) {
    forall i :: 0 <= i < |s| ==> IsVisible(s[i])
  }

  lemma CleanText(s: Bytes)
    requires NoSpace(s)
    ensures WithoutLineBreaks(s) == s && TrimSpace(s) == s
  {
    NoLineBreaks(s);
    if s != [] {
      TrimNothing(s);
    }
  }

  lemma {:induction false} NoLineBreaks(s: Bytes)
    requires NoSpace(s)
    ensures WithoutLineBreaks(s) == s
  {
    if s != [] {
      NoLineBreaks(s[1..]);
      assert IsVisible(s[0]);
      assert s == [s[0]] + s[1..];
    }
  }

  lemma PadIsNoSymbol()
    ensures IsVisible(PAD) && !IsSymbol(PAD)
  {
  }

  predicate Holds(q: Bytes, i: nat, v: sextet) {
    i < |q| && IsSymbol(q[i]) && Value(q[i]) == v
  }

  lemma QuadSymbols(x: Bytes)
    requires x != []
    ensures var q, b, c := Quad(x), if |x| > 1 then x[1] else 0, if |x| > 2 then x[2] else 0;
      && Holds(q, 0, First(x[0])) && Holds(q, 1, Second(x[0], b))
      && (if |x| > 1 then Holds(q, 2, Third(b, c)) else q[2] == PAD)
      && (if |x| > 2 then Holds(q, 3, Fourth(c)) else q[3] == PAD)
  {
  }

  lemma QuadValues(x: Bytes)
    requires x != []
    ensures |x| >= 3 ==> AllSymbols(Quad(x), 4) && Three(Quad(x)) == x[..3]
    ensures |x| == 2 ==> AllSymbols(Quad(x), 3) && Two(Quad(x)) == x && Quad(x)[3] == PAD
    ensures |x| == 1 ==> AllSymbols(Quad(x), 2) && One(Quad(x)) == x && Quad(x)[2] == PAD && Quad(x)[3] == PAD
  {
    QuadSymbols(x);
    hide *;
    var q, b, c := Quad(x), if |x| > 1 then x[1] else 0, if |x| > 2 then x[2] else 0;
    if |x| >= 3 {
      ThreeValues(q, x[0], b, c);
      assert [x[0], b, c] == x[..3];
    } else if |x| == 2 {
      TwoValues(q, x[0], b, c);
      assert [x[0], b] == x;
    } else {
      assert AllSymbols(q, 2) && One(q) == [x[0]];
      assert [x[0]] == x;
    }
  }

  lemma ThreeValues(q: Bytes, a: byte, b: byte, c: byte)
    requires |q| == 4 && Holds(q, 0, First(a)) && Holds(q, 1, Second(a, b))
    requires Holds(q, 2, Third(b, c)) && Holds(q, 3, Fourth(c))
    ensures AllSymbols(q, 4) && Three(q) == [a, b, c]
  {
    Sextets(a, b, c);
    hide First, Second, Third, Fourth, Byte0, Byte1, Byte2, Value, IsSymbol;
  }

  /** Three bytes cut into four pieces of six bits, and put together again. */
  lemma Sextets(a: byte, b: byte, c: byte)
    ensures Byte0(First(a), Second(a, b)) == a
    ensures Byte1(Second(a, b), Third(b, c)) == b
    ensures Byte2(Third(b, c), Fourth(c)) == c
  {
  }

  lemma TwoValues(q: Bytes, a: byte, b: byte, c: byte)
    requires |q| == 4 && Holds(q, 0, First(a)) && Holds(q, 1, Second(a, b)) && Holds(q, 2, Third(b, c))
    ensures AllSymbols(q, 3) && Two(q) == [a, b]
  {
  }

  lemma QuantaStep(padded: bool, q: Bytes, rest: Bytes)
    requires |q| == 4 && AllSymbols(q, 4)
    ensures Quanta(padded, q + rest) == Prepended(Three(q), Quanta(padded, rest))
  {
    hide Byte0, Byte1, Byte2, Value, IsSymbol;
    var s := q + rest;
    assert s[4..] == rest;
    assert s[0] == q[0] && s[1] == q[1] && s[2] == q[2] && s[3] == q[3];
    assert Three(s) == Three(q);
  }

  /** Encoded without padding. */
  predicate Whole(x: Bytes) {
    |x| % 3 == 0
  }

  lemma WholeStep(x: Bytes)
    requires x != []
    ensures |x| < 3 ==> !Whole(x)
    ensures |x| >= 3 ==> Whole(x) == Whole(After(x))
    ensures Whole([])
  {
  }

  /** The padded decoder undoes the encoding, and so does the unpadded one if there is no padding. */
  lemma {:induction false} EncodingDecodes(padded: bool, x: Bytes)
    requires padded || Whole(x)
    ensures Quanta(padded, Encode(x)) == Some(x)
    decreases |x|
  {
    if x != [] {
      EncodeUnfolds(x);
      QuadValues(x);
      WholeStep(x);
      if |x| >= 3 {
        SplitAfter(x);
        hide *;
        EncodingDecodes(padded, After(x));
        QuantaStep(padded, Quad(x), Encode(After(x)));
        PrependedSome(x[..3], After(x));
      } else {
        hide *;
        assert Quanta(true, Quad(x)) == Some(if |x| == 2 then Two(Quad(x)) else One(Quad(x)));
      }
    }
  }

  /** A quad without its pads. */
  function BareQuad(x: Bytes): Bytes
    requires x != []
  {
    var q := Quad(x);
    if |x| == 1 then [q[0], q[1]] else if |x| == 2 then [q[0], q[1], q[2]] else q
  }

  /** The encoding without its pads. */
  function Bare(x: Bytes): Bytes
    decreases |x|
  {
    if x == [] then [] else BareQuad(x) + Bare(After(x))
  }

  /** The unpadded decoder undoes it. */
  lemma {:induction false} BareDecodes(x: Bytes)
    ensures Quanta(false, Bare(x)) == Some(x)
    decreases |x|
  {
    hide *;
    BareUnfolds(x);
    if x != [] {
      if |x| >= 3 {
        QuadValues(x);
        SplitAfter(x);
        BareDecodes(After(x));
        QuantaStep(false, Quad(x), Bare(After(x)));
        PrependedSome(x[..3], After(x));
      } else {
        BareEnds(x);
      }
    }
  }

  /** s is t and at most two pads. */
  ghost predicate PadsAdded(t: Bytes, s: Bytes) {
    s == t || s == t + [PAD] || s == t + [PAD, PAD]
  }

  /** The pads are all that it lacks. */
  lemma {:induction false} BareLacksPads(x: Bytes)
    ensures PadsAdded(Bare(x), Encode(x))
    decreases |x|
  {
    hide *;
    BareUnfolds(x);
    if x != [] {
      EncodeUnfolds(x);
      if |x| >= 3 {
        SplitAfter(x);
        BareLacksPads(After(x));
        PadsStay(Quad(x), Bare(After(x)), Encode(After(x)));
      } else {
        BareEnds(x);
      }
    }
  }

  lemma PadsStay(q: Bytes, t: Bytes, s: Bytes)
    requires PadsAdded(t, s)
    ensures PadsAdded(q + t, q + s)
  {
    assert q + (t + [PAD]) == q + t + [PAD] && q + (t + [PAD, PAD]) == q + t + [PAD, PAD];
  }

  lemma BareUnfolds(x: Bytes)
    ensures |x| >= 3 ==> Bare(x) == Quad(x) + Bare(After(x))
    ensures 1 <= |x| < 3 ==> Bare(x) == BareQuad(x)
    ensures x == [] ==> Bare(x) == Encode(x) == [] && Quanta(false, Bare(x)) == Some(x) && PadsAdded(Bare(x), Encode(x))
  {
    hide Quad;
  }

  lemma BareEnds(x: Bytes)
    requires 1 <= |x| < 3
    ensures Quanta(false, BareQuad(x)) == Some(x) && PadsAdded(BareQuad(x), Quad(x))
  {
    QuadValues(x);
    hide Quad, IsSymbol, Value, Byte0, Byte1;
    var q, s := Quad(x), BareQuad(x);
    assert forall i :: 0 <= i < |s| ==> s[i] == q[i];
    assert !AllSymbols(s, 4);
  }

  lemma SplitAfter(x: Bytes)
    requires |x| >= 3
    ensures x == x[..3] + After(x) && |After(x)| == |x| - 3
  {
  }

  lemma PrependedSome(a: Bytes, b: Bytes)
    ensures Prepended(a, Some(b)) == Some(a + b)
  {
  }

  lemma EncodeNothing()
    ensures Encode([]) == []
  {
  }

  lemma EncodeUnfolds(x: Bytes)
    requires x != []
    ensures Encode(x) == Quad(x) + Encode(After(x))
    ensures |x| <= 3 ==> Encode(x) == Quad(x) && Encode(After(x)) == []
  {
  }

  /** `body` symbols, then nothing but padding. */
  ghost predicate SymbolsThenPads(s: Bytes, body: nat) {
    AllSymbols(s, body) && forall i :: body <= i < |s| ==> s[i] == PAD
  }

  /** Encodings hold symbols and, unless the length is a multiple of three, padding at the end. */
  lemma {:induction false} EncodeShape(x: Bytes) returns (body: nat)
    ensures SymbolsThenPads(Encode(x), body) && NoSpace(Encode(x))
    ensures body <= |Encode(x)| && (body == |Encode(x)| <==> Whole(x))
    ensures x != [] ==> 0 < body
    decreases |x|
  {
    if x == [] {
      body := 0;
    } else {
      EncodeUnfolds(x);
      QuadValues(x);
      assert NoSpace(Quad(x));
      WholeStep(x);
      if |x| <= 3 {
        hide Quad, Encode, IsVisible, IsSymbol, One, Two, Three, Whole;
        body := |x| + 1;
      } else {
        SplitAfter(x);
        hide *;
        var n := EncodeShape(After(x));
        body := 4 + n;
        assert SymbolsThenPads(Quad(x) + Encode(After(x)), 4 + n) && NoSpace(Quad(x) + Encode(After(x)));
      }
    }
  }

  lemma {:induction false} EncodeJoin(y: Bytes, x: Bytes)
    requires Whole(y)
    ensures Encode(y + x) == Encode(y) + Encode(x)
    decreases |y|
  {
    hide *;
    if y == [] {
      EncodeNothing();
      assert y + x == x && [] + Encode(x) == Encode(x);
    } else {
      WholeStep(y);
      QuadLocal(y, x);
      EncodeUnfolds(y);
      EncodeUnfolds(y + x);
      SplitAfter(y);
      EncodeJoin(After(y), x);
      assert Quad(y) + (Encode(After(y)) + Encode(x)) == Quad(y) + Encode(After(y)) + Encode(x);
    }
  }

  lemma QuadLocal(y: Bytes, x: Bytes)
    requires |y| >= 3
    ensures Quad(y + x) == Quad(y) && After(y + x) == After(y) + x
  {
  }

  // ----- Concatenated encodings

  /** Chunk by chunk: what precedes the chunks without padding is `y`. */
  lemma {:induction false} ChunksDecode(y: Bytes, xs: seq<Bytes>)
    requires Whole(y)
    ensures Concatenated(Encode(y) + EncodeAll(xs)) == Some(y + Flatten(xs))
    decreases |xs|, 0
  {
    hide *;
    ChunksUnfold(xs);
    if xs == [] {
      assert Encode(y) + [] == Encode(y) && y + [] == y;
      UnpaddedDecodes(y);
    } else {
      var x, more := xs[0], xs[1..];
      var z := y + x;
      EncodeJoin(y, x);
      assert Encode(y) + (Encode(x) + EncodeAll(more)) == Encode(z) + EncodeAll(more);
      assert y + (x + Flatten(more)) == z + Flatten(more);
      if Whole(z) {
        ChunksDecode(z, more);
      } else {
        ChunksAfterPad(z, more);
      }
    }
  }

  lemma {:induction false} ChunksAfterPad(z: Bytes, more: seq<Bytes>)
    requires !Whole(z)
    ensures Concatenated(Encode(z) + EncodeAll(more)) == Some(z + Flatten(more))
    decreases |more|, 1
  {
    hide *;
    NoPadInFront(more);
    PaddedDecodes(z, EncodeAll(more));
    NothingWhole();
    ChunksDecode([], more);
    assert [] + EncodeAll(more) == EncodeAll(more) && [] + Flatten(more) == Flatten(more);
    PrependedSome(z, Flatten(more));
  }

  lemma ChunksUnfold(xs: seq<Bytes>)
    ensures xs == [] ==> EncodeAll(xs) == [] && Flatten(xs) == []
    ensures xs != [] ==> EncodeAll(xs) == Encode(xs[0]) + EncodeAll(xs[1..]) && Flatten(xs) == xs[0] + Flatten(xs[1..])
  {
  }

  lemma NothingWhole()
    ensures Whole([]) && Encode([]) == []
  {
  }

  lemma UnpaddedDecodes(y: Bytes)
    requires Whole(y)
    ensures Concatenated(Encode(y)) == Some(y)
  {
    var body := EncodeShape(y);
    var s := Encode(y);
    EncodingDecodes(false, y);
    PadIsNoSymbol();
    if y != [] {
      hide Quanta, Encode, Whole, IsSymbol, IsVisible;
      FirstPadIs(s, 0, |s|);
      CleanText(s);
    }
  }

  lemma PaddedDecodes(z: Bytes, rest: Bytes)
    requires !Whole(z) && (rest == [] || rest[0] != PAD)
    ensures Concatenated(Encode(z) + rest) == Prepended(z, Concatenated(rest))
  {
    var body := EncodeShape(z);
    var e, s := Encode(z), Encode(z) + rest;
    EncodingDecodes(true, z);
    PadIsNoSymbol();
    hide Quanta, Encode, Whole, IsSymbol, IsVisible, FirstPad, PadsEnd, Concatenated;
    CleanText(e);
    FirstPadIs(s, 0, body);
    PadsEndIs(s, body, |e|);
    ChunkStep(s, body, |e|);
    assert s[..|e|] == e && s[|e|..] == rest;
  }

  lemma {:induction false} NoPadInFront(xs: seq<Bytes>)
    ensures EncodeAll(xs) == [] || EncodeAll(xs)[0] != PAD
  {
    if xs != [] {
      var body := EncodeShape(xs[0]);
      PadIsNoSymbol();
      NoPadInFront(xs[1..]);
      hide Encode, IsSymbol, IsVisible;
      assert xs[0] != [] ==> IsSymbol(Encode(xs[0])[0]);
    }
  }

  lemma {:induction false} AllNoSpace(xs: seq<Bytes>)
    ensures NoSpace(EncodeAll(xs))
  {
    if xs != [] {
      var body := EncodeShape(xs[0]);
      AllNoSpace(xs[1..]);
      hide Encode, IsVisible;
    }
  }

  // ----- The attempts on the whole body are only shortcuts

  /** Padding may only end what the padded decoder accepts, so cutting at padding changes nothing. */
  lemma {:induction false} PaddedQuanta(s: Bytes) returns (body: nat)
    requires Quanta(true, s).Some?
    ensures SymbolsThenPads(s, body) && |s| <= body + 2
    ensures body < |s| || Quanta(false, s) == Quanta(true, s)
  {
    if s == [] {
      body := 0;
    } else if AllSymbols(s, 4) {
      var n := PaddedQuanta(s[4..]);
      body := 4 + n;
      hide IsSymbol, Three;
      assert forall i :: 4 <= i < |s| ==> s[i] == s[4..][i - 4];
    } else {
      body := if s[2] == PAD then 2 else 3;
    }
  }

  /** One of two pads is not enough. */
  lemma {:induction false} OnePadMissing(t: Bytes)
    requires Quanta(true, t + [PAD]).Some? && t != [] && t[|t| - 1] == PAD
    ensures Quanta(true, t).None?
  {
    PadIsNoSymbol();
    hide IsSymbol, Three, One, Two;
    var s := t + [PAD];
    assert s[|t| - 1] == PAD;
    if AllSymbols(s, 4) {
      assert forall k :: 0 <= k < 4 ==> IsSymbol(s[k]);
      assert forall k :: 0 <= k < |t| ==> s[k] == t[k];
      assert s[4..] == t[4..] + [PAD];
      OnePadMissing(t[4..]);
    }
  }

  lemma {:induction false} UnpaddedQuanta(s: Bytes)
    requires Quanta(false, s).Some?
    ensures AllSymbols(s, |s|)
  {
    if s != [] && AllSymbols(s, 4) {
      UnpaddedQuanta(s[4..]);
      hide IsSymbol, Three;
      assert forall i :: 4 <= i < |s| ==> s[i] == s[4..][i - 4];
    }
  }

  /** A line break stands between two pads. */
  ghost predicate SplitsPads(s: Bytes) {
    exists i, k, j :: 0 <= i < k < j < |s| && s[i] == PAD && IsLineBreak(s[k]) && s[j] == PAD
  }

  lemma LineBreakStep(a: Bytes)
    requires a != []
    ensures WithoutLineBreaks(a) == (if IsLineBreak(a[0]) then [] else [a[0]]) + WithoutLineBreaks(a[1..])
    ensures WithoutLineBreaks([]) == []
  {
  }

  lemma {:induction false} LineBreaksOut(a: Bytes, b: Bytes)
    ensures WithoutLineBreaks(a + b) == WithoutLineBreaks(a) + WithoutLineBreaks(b)
  {
    if a == [] {
      assert a + b == b;
    } else {
      LineBreakStep(a);
      LineBreakStep(a + b);
      hide *;
      LineBreaksOut(a[1..], b);
      assert (a + b)[0] == a[0] && (a + b)[1..] == a[1..] + b;
    }
  }

  lemma {:induction false} WhatIsLeft(s: Bytes, x: byte)
    ensures x in WithoutLineBreaks(s) <==> x in s && !IsLineBreak(x)
  {
    if s != [] {
      WhatIsLeft(s[1..], x);
      assert s == [s[0]] + s[1..];
    }
  }

  /** The first run of pads, and what it ends. */
  lemma FirstRun(s: Bytes, i: nat, e: nat)
    requires i == FirstPad(s, 0) < |s| && e == PadsEnd(s, i)
    ensures i < e <= |s| && Concatenated(s) ==
            match DecodeString(true, s[..e]) case None => None case Some(d) => Prepended(d, Concatenated(s[e..]))
    ensures SplitsPads(s) ==> PAD in s[e..]
    ensures e < |s| && IsLineBreak(s[e]) && PAD in s[e..] ==> SplitsPads(s)
  {
    assert e > i;
    ChunkStep(s, i, e);
    SplitsAfter(s, i, e);
  }

  lemma SplitsAfter(s: Bytes, i: nat, e: nat)
    requires i < e <= |s| && (forall k :: 0 <= k < i ==> s[k] != PAD) && forall k :: i <= k < e ==> s[k] == PAD
    ensures SplitsPads(s) ==> PAD in s[e..]
    ensures e < |s| && IsLineBreak(s[e]) && PAD in s[e..] ==> SplitsPads(s)
  {
    PadIsNoLineBreak();
    hide IsLineBreak;
    if x, k, j :| 0 <= x < k < j < |s| && s[x] == PAD && IsLineBreak(s[k]) && s[j] == PAD {
      assert i <= x && e <= k && s[e..][j - e] == PAD;
    }
    if e < |s| && IsLineBreak(s[e]) && PAD in s[e..] {
      var j :| 0 <= j < |s[e..]| && s[e..][j] == PAD;
      assert s[e + j] == PAD && s[i] == PAD && i < e < e + j;
    }
  }

  /** If the padded decoder accepts s, all that follows the first run of pads is pads and line breaks. */
  lemma AfterFirstRun(s: Bytes, i: nat, e: nat)
    requires i == FirstPad(s, 0) < |s| && e == PadsEnd(s, i) && DecodeString(true, s).Some?
    ensures i < e <= |s| && (forall x :: x in s[e..] ==> x == PAD || IsLineBreak(x))
    ensures PAD !in s[e..] ==> WithoutLineBreaks(s[e..]) == []
    ensures PAD in s[e..] ==> WithoutLineBreaks(s[e..]) == [PAD]
    ensures WithoutLineBreaks(s) == WithoutLineBreaks(s[..e]) + WithoutLineBreaks(s[e..])
    ensures WithoutLineBreaks(s[..e]) != [] && WithoutLineBreaks(s[..e])[|WithoutLineBreaks(s[..e])| - 1] == PAD
  {
    var rest := s[e..];
    var f, r, t := WithoutLineBreaks(s[..e]), WithoutLineBreaks(rest), WithoutLineBreaks(s);
    CutAtPad(s, e);
    var body := PaddedQuanta(t);
    hide Quanta, WithoutLineBreaks, FirstPad, PadsEnd, IsSymbol, IsLineBreak;
    PadsOnly(f, r, body);
    forall x | x in rest ensures x == PAD || IsLineBreak(x) {
      WhatIsLeft(rest, x);
    }
    WhatIsLeft(rest, PAD);
    PadIsNoLineBreak();
  }

  lemma CutAtPad(s: Bytes, e: nat)
    requires 0 < e <= |s| && s[e - 1] == PAD
    ensures var f := WithoutLineBreaks(s[..e]);
      WithoutLineBreaks(s) == f + WithoutLineBreaks(s[e..]) && f != [] && f[|f| - 1] == PAD
  {
    PadIsNoLineBreak();
    hide IsLineBreak;
    LineBreakStep([PAD]);
    hide WithoutLineBreaks;
    assert s[..e] == s[..e - 1] + [PAD] && s == s[..e] + s[e..] && [PAD][1..] == [];
    LineBreaksOut(s[..e - 1], [PAD]);
    LineBreaksOut(s[..e], s[e..]);
  }

  /** Behind a pad there is at most one more. */
  lemma PadsOnly(f: Bytes, r: Bytes, body: nat)
    requires SymbolsThenPads(f + r, body) && |f + r| <= body + 2 && f != [] && f[|f| - 1] == PAD
    ensures r == [] || r == [PAD]
    ensures forall x :: x in r ==> x == PAD
  {
    PadIsNoSymbol();
    hide IsSymbol;
    assert (f + r)[|f| - 1] == PAD;
    assert body < |f|;
    assert forall k :: 0 <= k < |r| ==> r[k] == (f + r)[|f| + k];
  }

  lemma PadIsNoLineBreak()
    ensures !IsLineBreak(PAD)
  {
  }

  /** Decoding is trimming the body and decoding it as a concatenation, unless the padded decoder
      accepts it although a line break splits its padding, which cuts the concatenation apart. */
  lemma ShortcutsExactly(raw: Bytes)
    ensures var s := TrimSpace(raw);
      Decoded(raw) == Concatenated(s) <==> !(DecodeString(true, s).Some? && SplitsPads(s))
  {
    var s := TrimSpace(raw);
    var i := FirstPad(s, 0);
    hide TrimSpace;
    if s != [] {
      if i == |s| {
        NoPads(s);
      } else {
        WithPads(s);
      }
    }
  }

  lemma NoPads(s: Bytes)
    requires s != [] && PAD !in s
    ensures Concatenated(s) == DecodeString(false, s) && !SplitsPads(s)
    ensures DecodeString(true, s).Some? ==> DecodeString(true, s) == DecodeString(false, s)
  {
    FirstPadIs(s, 0, |s|);
    WhatIsLeft(s, PAD);
    var t := WithoutLineBreaks(s);
    if Quanta(true, t).Some? {
      var body := PaddedQuanta(t);
      hide Quanta, WithoutLineBreaks;
      OnlySymbols(t, body);
    }
  }

  lemma OnlySymbols(t: Bytes, body: nat)
    requires SymbolsThenPads(t, body)
    ensures PAD !in t ==> body == |t|
  {
    if body < |t| {
      assert t[body] in t;
    }
  }

  lemma WithPads(s: Bytes)
    requires FirstPad(s, 0) < |s|
    ensures DecodeString(false, s).None?
    ensures DecodeString(true, s).Some? ==>
      if SplitsPads(s) then Concatenated(s) == None else Concatenated(s) == DecodeString(true, s)
  {
    var i := FirstPad(s, 0);
    var e := PadsEnd(s, i);
    NoUnpadded(s);
    FirstRun(s, i, e);
    hide *;
    if DecodeString(true, s).Some? {
      AfterFirstRun(s, i, e);
      if PAD in s[e..] {
        PadsFollow(s, e);
      } else {
        NoPadFollows(s, e);
      }
    }
  }

  lemma PadsFollow(s: Bytes, e: nat)
    requires e <= |s| && PAD in s[e..] && DecodeString(true, s).Some?
    requires var f := WithoutLineBreaks(s[..e]);
      f != [] && f[|f| - 1] == PAD && WithoutLineBreaks(s) == f + [PAD]
    ensures DecodeString(true, s[..e]) == None && s[e] in s[e..]
  {
    OnePadMissing(WithoutLineBreaks(s[..e]));
    assert s[e] == s[e..][0];
  }

  lemma NoPadFollows(s: Bytes, e: nat)
    requires e <= |s| && PAD !in s[e..] && DecodeString(true, s).Some? && WithoutLineBreaks(s[e..]) == []
    requires WithoutLineBreaks(s) == WithoutLineBreaks(s[..e]) + WithoutLineBreaks(s[e..])
    ensures DecodeString(true, s[..e]) == DecodeString(true, s)
    ensures Prepended(DecodeString(true, s).value, Concatenated(s[e..])) == DecodeString(true, s)
  {
    OnlyLineBreaks(s[e..]);
    hide Quanta, Concatenated, WithoutLineBreaks;
    assert WithoutLineBreaks(s[..e]) + [] == WithoutLineBreaks(s[..e]);
    assert DecodeString(true, s).value + [] == DecodeString(true, s).value;
  }

  lemma NoUnpadded(s: Bytes)
    requires PAD in s
    ensures DecodeString(false, s).None?
  {
    PadIsNoLineBreak();
    WhatIsLeft(s, PAD);
    PadIsNoSymbol();
    var t := WithoutLineBreaks(s);
    if Quanta(false, t).Some? {
      UnpaddedQuanta(t);
    }
  }

  lemma OnlyLineBreaks(s: Bytes)
    requires PAD !in s && WithoutLineBreaks(s) == []
    ensures Concatenated(s) == Some([])
  {
    FirstPadIs(s, 0, |s|);
  }

  /** The shortest such body: one byte, its two pads on two lines. */
  const SPLIT_BODY: Bytes := [0x54, 0x51, PAD, 0x0A, PAD]

  lemma SplitPadding()
    ensures TrimSpace(SPLIT_BODY) == SPLIT_BODY
    ensures Decoded(SPLIT_BODY) == Some([0x4D]) && Concatenated(SPLIT_BODY) == None
  {
    var s := SPLIT_BODY;
    TrimNothing(s);
    SplitBodyDecodes();
    assert IsLineBreak(s[3]) && s[2] == PAD && s[4] == PAD;
    assert SplitsPads(s);
    FirstPadIs(s, 0, 2);
    hide *;
    WithPads(s);
    DecodedIf(s);
  }

  lemma TrimNothing(s: Bytes)
    requires s != [] && IsVisible(s[0]) && IsVisible(s[|s| - 1])
    ensures TrimSpace(s) == s
  {
    hide IsSpace;
    assert FirstRune(s) == s[0] as rune;
    assert s[|s| - 1..][0] == s[|s| - 1] && FirstRune(s[|s| - 1..]) == s[|s| - 1] as rune;
  }

  lemma DecodedIf(s: Bytes)
    requires s != [] && TrimSpace(s) == s
    ensures DecodeString(true, s).Some? ==> Decoded(s) == DecodeString(true, s)
  {
  }

  lemma SplitBodyDecodes()
    ensures DecodeString(true, SPLIT_BODY) == Some([0x4D])
  {
    var s, t, a, b, c := SPLIT_BODY, [0x54, 0x51, PAD, PAD], SPLIT_BODY[1..], SPLIT_BODY[2..], SPLIT_BODY[3..];
    LineBreakStep(s);
    LineBreakStep(a);
    LineBreakStep(b);
    LineBreakStep(c);
    LineBreakStep([PAD]);
    assert a[1..] == b && b[1..] == c && c[1..] == [PAD] && [PAD][1..] == [];
    PadIsNoLineBreak();
    assert WithoutLineBreaks(s) == t;
    hide WithoutLineBreaks;
    assert Quanta(true, t) == Some([0x4D]);
  }

  /** Spaces, each of them encoded. */
  function Spaces(rs: seq<rune>): Bytes {
    if rs == [] then [] else Unit(rs[0]) + Spaces(rs[1..])
  }

  lemma {:induction false} SpacesJoin(a: seq<rune>, b: seq<rune>)
    ensures Spaces(a + b) == Spaces(a) + Spaces(b)
  {
    hide *;
    SpacesStep(a);
    SpacesStep(a + b);
    if a == [] {
      assert a + b == b;
    } else {
      SpacesJoin(a[1..], b);
      assert (a + b)[0] == a[0] && (a + b)[1..] == a[1..] + b;
    }
  }

  lemma SpacesStep(rs: seq<rune>)
    ensures Spaces(rs) == if rs == [] then [] else Unit(rs[0]) + Spaces(rs[1..])
  {
  }

  predicate AllSpaces(rs: seq<rune>) {
    forall r :: r in rs ==> IsSpace(r)
  }

  /** What is read at either end of a string with a space there. */
  lemma SpaceAtEnds(r: rune, rest: Bytes)
    requires IsSpace(r)
    ensures Unit(r) != [] && FirstRune(Unit(r)) == r
    ensures FirstRune(Unit(r) + rest) == r && Width(Unit(r) + rest) == |Unit(r)|
    ensures LastRuneSize(rest + Unit(r)) == |Unit(r)|
  {
    UnitDecodes(r);
    var u := Unit(r);
    hide Unit, IsSpace;
    UnitLocal(u, rest);
    assert u[..|u|] == u;
    LastRuneOfUnit(rest, u);
  }

  lemma {:induction false} TrimsLeft(rs: seq<rune>, s: Bytes)
    requires AllSpaces(rs)
    ensures TrimLeft(Spaces(rs) + s) == TrimLeft(s)
  {
    hide Unit, IsSpace, Width, FirstRune;
    if rs == [] {
      assert [] + s == s;
    } else {
      var u, more := Unit(rs[0]), Spaces(rs[1..]) + s;
      SpaceAtEnds(rs[0], more);
      assert Spaces(rs) + s == u + more && (u + more)[|u|..] == more;
      TrimsLeft(rs[1..], s);
    }
  }

  lemma {:induction false} TrimsRight(s: Bytes, rs: seq<rune>)
    requires AllSpaces(rs)
    ensures TrimRight(s + Spaces(rs)) == TrimRight(s)
    decreases |rs|
  {
    hide Unit, IsSpace, FirstRune, LastRuneSize;
    if rs == [] {
      assert s + [] == s;
    } else {
      var before, r := rs[..|rs| - 1], rs[|rs| - 1];
      var x, u := s + Spaces(before), Unit(r);
      SpacesJoin(before, [r]);
      assert rs == before + [r] && Spaces([r]) == u + [] == u;
      assert s + Spaces(rs) == x + u && (x + u)[|x|..] == u && (x + u)[..|x|] == x;
      SpaceAtEnds(r, x);
      TrimsRight(s, before);
    }
  }

  lemma Trimmed(before: seq<rune>, s: Bytes, behind: seq<rune>)
    requires AllSpaces(before) && AllSpaces(behind) && NoSpace(s)
    ensures TrimSpace(Spaces(before) + s + Spaces(behind)) == s
  {
    hide *;
    CleanText(s);
    TrimLeftThenRight(Spaces(before) + s + Spaces(behind));
    TrimLeftThenRight(s);
    assert Spaces(before) + s + Spaces(behind) == Spaces(before) + (s + Spaces(behind));
    TrimsLeft(before, s + Spaces(behind));
    if s == [] {
      TrimsLeft(behind, []);
      assert [] + Spaces(behind) == Spaces(behind) + [] == Spaces(behind);
    } else {
      StartsVisible(s, Spaces(behind));
      TrimsRight(s, behind);
    }
  }

  lemma TrimLeftThenRight(s: Bytes)
    ensures TrimSpace(s) == TrimRight(TrimLeft(s)) && TrimLeft([]) == []
  {
  }

  lemma StartsVisible(s: Bytes, rest: Bytes)
    requires NoSpace(s) && s != []
    ensures TrimLeft(s + rest) == s + rest && TrimLeft(s) == s
  {
    assert IsVisible(s[0]) && (s + rest)[0] == s[0];
  }

  /** Any chunks, encoded one by one and sent in a row, are read back as one body, whatever spaces
      stand around it. */
  lemma BodyRoundTrip(before: seq<rune>, xs: seq<Bytes>, behind: seq<rune>)
    ensures AllSpaces(before) && AllSpaces(behind) ==>
      Decoded(Spaces(before) + EncodeAll(xs) + Spaces(behind)) == Some(Flatten(xs))
    ensures Decoded(EncodeAll(xs)) == Some(Flatten(xs))
  {
    hide *;
    AllNoSpace(xs);
    CleanText(EncodeAll(xs));
    NothingSplit(EncodeAll(xs));
    ShortcutsExactly(EncodeAll(xs));
    if AllSpaces(before) && AllSpaces(behind) {
      Trimmed(before, EncodeAll(xs), behind);
      ShortcutsExactly(Spaces(before) + EncodeAll(xs) + Spaces(behind));
    }
    NothingWhole();
    ChunksDecode([], xs);
    assert [] + EncodeAll(xs) == EncodeAll(xs) && [] + Flatten(xs) == Flatten(xs);
  }

  lemma NothingSplit(s: Bytes)
    requires NoSpace(s)
    ensures !SplitsPads(s)
  {
    forall k | 0 <= k < |s| ensures !IsLineBreak(s[k]) {
      assert IsVisible(s[k]);
    }
  }

  // ----- The response writer

  /** base64.NewEncoder behind the response writer: up to two bytes wait for company. */
  class Base64StreamWriter {
    var out: Bytes
    var pending: Bytes
    ghost var encoded: Bytes

    ghost predicate Valid()
      reads this
    {
      |pending| < 3 && Whole(encoded) && out == Encode(encoded)
    }

    /** Everything written so far. */
    ghost function Written(): Bytes
      reads this
    {
      encoded + pending
    }

    constructor ()
      ensures Valid() && Written() == [] && out == []
    {
      out, pending, encoded := [], [], [];
      new;
      NothingWhole();
    }

    method Write(p: Bytes)
      requires Valid()
      modifies this
      ensures Valid() && Written() == old(Written()) + p && old(out) <= out
    {
      var data := pending + p;
      var n := |data| - |data| % 3;
      WholePart(encoded, data, n);
      EncodeJoin(encoded, data[..n]);
      SplitWritten(encoded, pending, p, n);
      hide Whole, Encode;
      out := out + Encode(data[..n]);
      encoded := encoded + data[..n];
      pending := data[n..];
    }

    /** After Close the whole body has been written, and decodes to what was given. */
    method Close()
      requires Valid()
      modifies this`out
      ensures out == Encode(Written()) && Decoded(out) == Some(Written())
    {
      EncodeJoin(encoded, pending);
      out := out + Encode(pending);
      OneChunk(Written());
    }
  }

  lemma SplitWritten(encoded: Bytes, pending: Bytes, p: Bytes, n: nat)
    requires n <= |pending + p|
    ensures encoded + (pending + p)[..n] + (pending + p)[n..] == encoded + pending + p
  {
  }

  lemma OneChunk(x: Bytes)
    ensures Decoded(Encode(x)) == Some(x)
  {
    BodyRoundTrip([], [x], []);
    ChunksUnfold([x]);
    ChunksUnfold([]);
    hide *;
    assert [x][1..] == [] && Encode(x) + [] == Encode(x) && x + [] == x;
  }

  lemma WholePart(done: Bytes, data: Bytes, n: nat)
    requires Whole(done) && n <= |data| && n == |data| - |data| % 3
    ensures Whole(data[..n]) && Whole(done + data[..n]) && |data[n..]| < 3
  {
  }
}
