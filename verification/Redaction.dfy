/** What is done to a call before it is kept: values under redacted keys are replaced at every
    depth, and messages that are still too long are dropped (internal/domain/history/recorder.go). */
module Redaction {
  import opened Utf8
  import opened Json
  import opened Wrappers
  import opened HistoryLog

  const REDACTED_VALUE: Bytes := [91, 82, 69, 68, 65, 67, 84, 69, 68, 93]

  const TRUNCATED_MARKER: Fields := map[[95, 116, 114, 117, 110, 99, 97, 116, 101, 100] := Bool(true)]

  /** The redacted keys in lower case, the lower-casing of a key, and the limit on a message. The
      length of a message is that of its JSON text, if it has one. */
  datatype Rules = Rules(
    keys: set<Bytes>,
    lower: Bytes -> Bytes,
    messageMaxBytes: int,
    marshalled: Fields -> Option<nat>)

  predicate IsSecret(c: Rules, key: Bytes) { c.lower(key) in c.keys }

  function RedactMap(c: Rules, m: Fields): Fields
    decreases Obj(m), 0
  {
    if c.keys == {} then m
    else map k | k in m :: if IsSecret(c, k) then Str(REDACTED_VALUE) else RedactValue(c, m[k])
  }

  function RedactValue(c: Rules, v: Json): Json
    decreases v, 1
  {
    match v
    case Obj(m) => Obj(RedactMap(c, m))
    case Arr(items) => Arr(RedactSlice(c, items))
    case _ => v
  }

  function RedactSlice(c: Rules, arr: seq<Json>): seq<Json>
    decreases Arr(arr), 0
  {
    seq(|arr|, i requires 0 <= i < |arr| => RedactValue(c, arr[i]))
  }

  function RedactStringMap(c: Rules, m: map<Bytes, Bytes>): map<Bytes, Bytes> {
    map k | k in m :: if IsSecret(c, k) then REDACTED_VALUE else m[k]
  }

  function RedactMaps(c: Rules, ms: seq<Fields>): seq<Fields> {
    seq(|ms|, i requires 0 <= i < |ms| => RedactMap(c, ms[i]))
  }

  function RedactRecord(c: Rules, call: CallRecord): CallRecord {
    call.(requests := RedactMaps(c, call.requests),
          responses := RedactMaps(c, call.responses),
          responseHeaders := RedactStringMap(c, call.responseHeaders))
  }

  function TruncateMessage(c: Rules, m: Fields): Fields {
    var length := c.marshalled(m);
    if length.Some? && length.value > c.messageMaxBytes then TRUNCATED_MARKER else m
  }

  function TruncateMaps(c: Rules, ms: seq<Fields>): seq<Fields> {
    seq(|ms|, i requires 0 <= i < |ms| => TruncateMessage(c, ms[i]))
  }

  function TruncateRecord(c: Rules, call: CallRecord): CallRecord {
    call.(requests := TruncateMaps(c, call.requests), responses := TruncateMaps(c, call.responses))
  }

  function Prepare(c: Rules, call: CallRecord): CallRecord {
    var redacted := if c.keys != {} then RedactRecord(c, call) else call;
    if c.messageMaxBytes > 0 then TruncateRecord(c, redacted) else redacted
  }

  // ----- Places inside a value

  datatype Step = Field(key: Bytes) | Item(i: nat)

  function Child(v: Json, s: Step): Option<Json> {
    match (v, s)
    case (Obj(m), Field(k)) => if k in m then Some(m[k]) else None
    case (Arr(items), Item(i)) => if i < |items| then Some(items[i]) else None
    case _ => None
  }

  function At(v: Json, path: seq<Step>): Option<Json>
    decreases |path|
  {
    if path == [] then Some(v)
    else
      var child := Child(v, path[0]);
      if child.None? then None else At(child.value, path[1..])
  }

  predicate Passes(c: Rules, path: seq<Step>) {
    exists i :: 0 <= i < |path| && path[i].Field? && IsSecret(c, path[i].key)
  }

  /** A path that passes no redacted key leads to the redaction of what it led to before; one that
      ends at its first redacted key leads to the fixed text; further on there is nothing. */
  lemma {:induction false} EveryPlace(c: Rules, v: Json, path: seq<Step>)
    ensures !Passes(c, path) ==>
      At(RedactValue(c, v), path) == match At(v, path) case None => None case Some(w) => Some(RedactValue(c, w))
    ensures path != [] && !Passes(c, path[..|path| - 1]) && Passes(c, path) ==>
      At(RedactValue(c, v), path) == match At(v, path) case None => None case Some(_) => Some(Str(REDACTED_VALUE))
    ensures path != [] && Passes(c, path[..|path| - 1]) ==> At(RedactValue(c, v), path) == None
    decreases |path|
  {
    if path != [] {
      var s, rest := path[0], path[1..];
      ChildRedacted(c, v, s);
      PassesFirst(c, path);
      if |path| > 1 {
        PassesFirst(c, path[..|path| - 1]);
        assert path[..|path| - 1][1..] == rest[..|rest| - 1];
      }
      var child := Child(v, s);
      if child.Some? {
        if s.Field? && IsSecret(c, s.key) {
          if rest != [] {
            assert Child(Str(REDACTED_VALUE), rest[0]) == None;
          }
        } else {
          EveryPlace(c, child.value, rest);
        }
      }
    }
  }

  lemma ChildRedacted(c: Rules, v: Json, s: Step)
    ensures Child(RedactValue(c, v), s) ==
      match Child(v, s)
      case None => None
      case Some(w) => if s.Field? && IsSecret(c, s.key) then Some(Str(REDACTED_VALUE)) else Some(RedactValue(c, w))
  {
    if c.keys == {} && Child(v, s).Some? {
      NothingToRedact(c, v);
      NothingToRedact(c, Child(v, s).value);
    }
  }

  lemma {:induction false} NothingToRedact(c: Rules, v: Json)
    requires c.keys == {}
    ensures RedactValue(c, v) == v
    decreases v
  {
    if v.Arr? {
      forall i | 0 <= i < |v.items| ensures RedactValue(c, v.items[i]) == v.items[i] {
        NothingToRedact(c, v.items[i]);
      }
      assert RedactSlice(c, v.items) == v.items;
    }
  }

  lemma PassesFirst(c: Rules, path: seq<Step>)
    requires path != []
    ensures Passes(c, path) <==> (path[0].Field? && IsSecret(c, path[0].key)) || Passes(c, path[1..])
  {
  }

  /** Redacting twice changes nothing more. */
  lemma {:induction false} RedactAgain(c: Rules, v: Json)
    ensures RedactValue(c, RedactValue(c, v)) == RedactValue(c, v)
    decreases v
  {
    match v
    case Obj(m) =>
      forall k | k in m && !IsSecret(c, k) ensures RedactValue(c, RedactValue(c, m[k])) == RedactValue(c, m[k]) {
        RedactAgain(c, m[k]);
      }
      assert RedactMap(c, RedactMap(c, m)) == RedactMap(c, m);
    case Arr(items) =>
      forall i | 0 <= i < |items| ensures RedactValue(c, RedactValue(c, items[i])) == RedactValue(c, items[i]) {
        RedactAgain(c, items[i]);
      }
      assert RedactSlice(c, RedactSlice(c, items)) == RedactSlice(c, items);
    case _ =>
  }

  // ----- What a redacted value can still tell

  /** The same up to the values under redacted keys. */
  predicate Alike(c: Rules, v: Json, w: Json)
    decreases v, 0
  {
    match (v, w)
    case (Obj(m), Obj(n)) => m.Keys == n.Keys && forall k :: k in m && !IsSecret(c, k) ==> Alike(c, m[k], n[k])
    case (Arr(a), Arr(b)) => |a| == |b| && forall i :: 0 <= i < |a| ==> Alike(c, a[i], b[i])
    case _ => v == w
  }

  /** Two values become the same exactly if they differ only under redacted keys: redaction hides
      all of that and nothing else. */
  lemma {:induction false} RedactionHidesExactly(c: Rules, v: Json, w: Json)
    ensures RedactValue(c, v) == RedactValue(c, w) <==> Alike(c, v, w)
    decreases v
  {
    match (v, w)
    case (Obj(m), Obj(n)) =>
      forall k | k in m && k in n ensures RedactValue(c, m[k]) == RedactValue(c, n[k]) <==> Alike(c, m[k], n[k]) {
        RedactionHidesExactly(c, m[k], n[k]);
      }
      FieldsCompared(c, m, n);
    case (Arr(a), Arr(b)) =>
      forall i | 0 <= i < |a| && i < |b|
        ensures RedactValue(c, a[i]) == RedactValue(c, b[i]) <==> Alike(c, a[i], b[i])
      {
        RedactionHidesExactly(c, a[i], b[i]);
      }
      ItemsCompared(c, a, b);
    case _ =>
  }

  lemma FieldsCompared(c: Rules, m: Fields, n: Fields)
    ensures RedactMap(c, m) == RedactMap(c, n) <==>
      m.Keys == n.Keys && forall k :: k in m && !IsSecret(c, k) ==> RedactValue(c, m[k]) == RedactValue(c, n[k])
  {
    hide *;
    var r, s := RedactMap(c, m), RedactMap(c, n);
    RedactedFields(c, m);
    RedactedFields(c, n);
    SecretKeys(c);
    if r == s {
      forall k | k in m && !IsSecret(c, k) ensures RedactValue(c, m[k]) == RedactValue(c, n[k]) {
        assert r[k] == s[k];
      }
    }
  }

  lemma SecretKeys(c: Rules)
    ensures forall k :: IsSecret(c, k) <==> c.lower(k) in c.keys
  {
  }

  /** A key is redacted however its letters are written. */
  lemma RedactedFields(c: Rules, m: Fields)
    ensures RedactMap(c, m).Keys == m.Keys
    ensures forall k :: k in m ==>
      RedactMap(c, m)[k] == if c.lower(k) in c.keys then Str(REDACTED_VALUE) else RedactValue(c, m[k])
  {
    if c.keys == {} {
      forall k | k in m ensures RedactValue(c, m[k]) == m[k] {
        NothingToRedact(c, m[k]);
      }
    }
  }

  lemma ItemsCompared(c: Rules, a: seq<Json>, b: seq<Json>)
    ensures RedactSlice(c, a) == RedactSlice(c, b) <==>
      |a| == |b| && forall i :: 0 <= i < |a| ==> RedactValue(c, a[i]) == RedactValue(c, b[i])
  {
    var r, s := RedactSlice(c, a), RedactSlice(c, b);
    if r == s {
      forall i | 0 <= i < |a| ensures RedactValue(c, a[i]) == RedactValue(c, b[i]) {
        assert r[i] == s[i];
      }
    }
  }

  // ----- Whole runs of the store

  ghost predicate MessagesAlike(c: Rules, ms: seq<Fields>, ns: seq<Fields>) {
    |ms| == |ns| && forall i :: 0 <= i < |ms| ==> Alike(c, Obj(ms[i]), Obj(ns[i]))
  }

  ghost predicate HeadersAlike(c: Rules, m: map<Bytes, Bytes>, n: map<Bytes, Bytes>) {
    m.Keys == n.Keys && forall k :: k in m && !IsSecret(c, k) ==> m[k] == n[k]
  }

  ghost predicate CallsAlike(c: Rules, a: CallRecord, b: CallRecord) {
    && MessagesAlike(c, a.requests, b.requests) && MessagesAlike(c, a.responses, b.responses)
    && HeadersAlike(c, a.responseHeaders, b.responseHeaders)
    && a == b.(requests := a.requests, responses := a.responses, responseHeaders := a.responseHeaders)
  }

  /** Redacted records are the same exactly if the calls differ only under redacted keys. */
  lemma RecordHidesExactly(c: Rules, a: CallRecord, b: CallRecord)
    ensures RedactRecord(c, a) == RedactRecord(c, b) <==> CallsAlike(c, a, b)
  {
    MessagesHideExactly(c, a.requests, b.requests);
    MessagesHideExactly(c, a.responses, b.responses);
    HeadersHideExactly(c, a.responseHeaders, b.responseHeaders);
    hide RedactMaps, RedactStringMap, MessagesAlike, HeadersAlike;
  }

  lemma MessagesHideExactly(c: Rules, ms: seq<Fields>, ns: seq<Fields>)
    ensures RedactMaps(c, ms) == RedactMaps(c, ns) <==> MessagesAlike(c, ms, ns)
  {
    forall i | 0 <= i < |ms| && i < |ns|
      ensures RedactMap(c, ms[i]) == RedactMap(c, ns[i]) <==> Alike(c, Obj(ms[i]), Obj(ns[i]))
    {
      RedactionHidesExactly(c, Obj(ms[i]), Obj(ns[i]));
    }
    hide RedactMap, Alike;
    var r, s := RedactMaps(c, ms), RedactMaps(c, ns);
    if r == s {
      forall i | 0 <= i < |ms| ensures RedactMap(c, ms[i]) == RedactMap(c, ns[i]) {
        assert r[i] == s[i];
      }
    }
  }

  lemma HeadersHideExactly(c: Rules, m: map<Bytes, Bytes>, n: map<Bytes, Bytes>)
    ensures RedactStringMap(c, m) == RedactStringMap(c, n) <==> HeadersAlike(c, m, n)
  {
    var r, s := RedactStringMap(c, m), RedactStringMap(c, n);
    assert r.Keys == m.Keys && s.Keys == n.Keys;
    hide IsSecret;
    if r == s {
      forall k | k in m && !IsSecret(c, k) ensures m[k] == n[k] {
        assert r[k] == s[k];
      }
    }
  }

  /** Without redacted keys the code skips redaction, which would change nothing. */
  lemma PreparedRedacts(c: Rules, call: CallRecord)
    ensures Prepare(c, call) ==
      if c.messageMaxBytes > 0 then TruncateRecord(c, RedactRecord(c, call)) else RedactRecord(c, call)
  {
    if c.keys == {} {
      assert RedactMaps(c, call.requests) == call.requests && RedactMaps(c, call.responses) == call.responses;
      assert RedactStringMap(c, call.responseHeaders) == call.responseHeaders;
    }
  }

  /** A record keeps everything in its place: requests, responses and headers are each the redaction
      of what stood there, and the rest is as it was. */
  lemma RecordPlaces(c: Rules, call: CallRecord)
    ensures var r := RedactRecord(c, call);
      && InPlace(c, call.requests, r.requests) && InPlace(c, call.responses, r.responses)
      && r.responseHeaders.Keys == call.responseHeaders.Keys
      && (forall k :: k in call.responseHeaders ==>
            r.responseHeaders[k] == if c.lower(k) in c.keys then REDACTED_VALUE else call.responseHeaders[k])
      && r.service == call.service && r.rpc == call.rpc && r.session == call.session
      && r.code == call.code && r.error == call.error
  {
    hide RedactMap;
  }

  ghost predicate InPlace(c: Rules, before: seq<Fields>, after: seq<Fields>) {
    |after| == |before| && forall i :: 0 <= i < |after| ==> Obj(after[i]) == RedactValue(c, Obj(before[i]))
  }

  /** The message as it is, if it is no longer than allowed or has no JSON text; otherwise, and only
      then, the marker. */
  ghost predicate KeptOrMarked(c: Rules, redacted: Fields, kept: Fields) {
    if exists n: nat :: c.marshalled(redacted) == Some(n) && 0 < c.messageMaxBytes < n then kept == TRUNCATED_MARKER
    else kept == redacted
  }

  ghost predicate AllKeptOrMarked(c: Rules, redacted: seq<Fields>, kept: seq<Fields>) {
    |kept| == |redacted| && forall i :: 0 <= i < |kept| ==> KeptOrMarked(c, redacted[i], kept[i])
  }

  /** What is kept of a call: its redaction, but for messages that are too long. */
  lemma PreparedMessages(c: Rules, call: CallRecord)
    ensures var r, p := RedactRecord(c, call), Prepare(c, call);
      && AllKeptOrMarked(c, r.requests, p.requests) && AllKeptOrMarked(c, r.responses, p.responses)
      && p == r.(requests := p.requests, responses := p.responses)
  {
    PreparedRedacts(c, call);
    hide RedactRecord;
  }

  lemma PreparedAlike(c: Rules, a: CallRecord, b: CallRecord)
    requires CallsAlike(c, a, b)
    ensures Prepare(c, a) == Prepare(c, b)
  {
    RecordHidesExactly(c, a, b);
    PreparedRedacts(c, a);
    PreparedRedacts(c, b);
    hide *;
  }

  ghost predicate EventAlike(c: Rules, e: Event, f: Event) {
    match (e, f)
    case (Record(a), Record(b)) => CallsAlike(c, a, b)
    case _ => e == f
  }

  ghost predicate EventsAlike(c: Rules, es: seq<Event>, fs: seq<Event>) {
    |es| == |fs| && forall i :: 0 <= i < |es| ==> EventAlike(c, es[i], fs[i])
  }

  /** Two runs that differ only under redacted keys leave the same store: neither a kept message,
      nor a size, nor what is truncated or evicted depends on a redacted value. */
  lemma {:induction false} RunsTellNoSecret(c: Rules, s: Settings, es: seq<Event>, fs: seq<Event>)
    requires EventsAlike(c, es, fs)
    requires forall call :: s.prepare(call) == Prepare(c, call)
    ensures Played(s, es) == Played(s, fs)
    decreases |es|
  {
    if es != [] {
      var n := |es| - 1;
      RunsTellNoSecret(c, s, es[..n], fs[..n]);
      assert EventAlike(c, es[n], fs[n]);
      if es[n].Record? {
        PreparedAlike(c, es[n].call, fs[n].call);
      }
    }
  }
}
