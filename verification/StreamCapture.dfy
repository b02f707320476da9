/** Capture of streamed responses with their delays, and the copies that go into the call history
    (internal/app/streaming_capture.go, internal/app/grpc_proxy_stream.go). */
module StreamCapture {
  import opened Wrappers

  // A response is a Go map, shared by reference and changed in place, or some other value.

  /** A field of a converted message; `Marker` is the object holding a recorded delay. */
  datatype Value = Plain(id: nat) | Marker(delay: int)

  type Fields = map<string, Value>

  const GRIPMOCK_KEY := "_gripmock"

  const MAX_HISTORY_STREAM_MSGS: nat := 100

  class Message {
    var fields: Fields

    constructor (fields: Fields)
      ensures this.fields == fields
    {
      this.fields := fields;
    }
  }

  datatype Response = Object(o: Message) | Other(id: nat)

  /** One upstream message as it was received: its fields if it is an object, and when. */
  datatype Arrival = Arrival(content: Option<Fields>, at: int)

  // ----- What is captured, as a function of what arrived

  function Since(start: int, log: seq<Arrival>): int {
    if log == [] then start else log[|log| - 1].at
  }

  function Stamped(content: Option<Fields>, delay: int, recordDelay: bool): Option<Fields> {
    if content.Some? && recordDelay then Some(content.value[GRIPMOCK_KEY := Marker(delay)]) else content
  }

  function Captured(start: int, log: seq<Arrival>, recordDelay: bool): (r: seq<Option<Fields>>)
    ensures |r| == |log|
  {
    if log == [] then []
    else
      var before, last := log[..|log| - 1], log[|log| - 1];
      Captured(start, before, recordDelay) + [Stamped(last.content, last.at - Since(start, before), recordDelay)]
  }

  function ObjectsOf(contents: seq<Option<Fields>>): seq<Fields> {
    if contents == [] then []
    else
      var before, last := contents[..|contents| - 1], contents[|contents| - 1];
      if last.Some? then ObjectsOf(before) + [last.value] else ObjectsOf(before)
  }

  function Received(log: seq<Arrival>): (r: seq<Option<Fields>>)
    ensures |r| == |log|
  {
    seq(|log|, i requires 0 <= i < |log| => log[i].content)
  }

  function Limited(s: seq<Fields>): seq<Fields> {
    if |s| <= MAX_HISTORY_STREAM_MSGS then s else s[..MAX_HISTORY_STREAM_MSGS]
  }

  function Stripped(s: seq<Fields>): (r: seq<Fields>)
    ensures |r| == |s|
  {
    seq(|s|, i requires 0 <= i < |s| => s[i] - {GRIPMOCK_KEY})
  }

  // ----- Delays telescope

  /** How long a replay waits in all: the recorded delay before each response that has one. */
  function Waits(contents: seq<Option<Fields>>): int {
    if contents == [] then 0
    else Waits(contents[..|contents| - 1]) + Wait(contents[|contents| - 1])
  }

  function Wait(content: Option<Fields>): int {
    if content.Some? && GRIPMOCK_KEY in content.value && content.value[GRIPMOCK_KEY].Marker?
    then content.value[GRIPMOCK_KEY].delay else 0
  }

  /** Time that no marker accounts for: the gaps before responses that are not objects. */
  function Unmarked(start: int, log: seq<Arrival>): int {
    if log == [] then 0
    else
      var before, last := log[..|log| - 1], log[|log| - 1];
      Unmarked(start, before) + if last.content.None? then last.at - Since(start, before) else 0
  }

  ghost predicate Monotone(start: int, log: seq<Arrival>) {
    log == [] || (Monotone(start, log[..|log| - 1]) && Since(start, log[..|log| - 1]) <= log[|log| - 1].at)
  }

  lemma {:induction false} WaitsTelescope(start: int, log: seq<Arrival>)
    ensures Waits(Captured(start, log, true)) == Since(start, log) - start - Unmarked(start, log)
  {
    if log != [] {
      var before := log[..|log| - 1];
      WaitsTelescope(start, before);
      assert Captured(start, log, true)[..|log| - 1] == Captured(start, before, true);
    }
  }

  lemma {:induction false} CapturedPrefix(start: int, log: seq<Arrival>, recordDelay: bool, k: nat)
    requires k <= |log|
    ensures Captured(start, log, recordDelay)[..k] == Captured(start, log[..k], recordDelay)
  {
    if k == |log| {
      assert log[..k] == log;
    } else {
      CapturedPrefix(start, log[..|log| - 1], recordDelay, k);
      assert log[..|log| - 1][..k] == log[..k];
    }
  }

  ghost predicate OnTime(start: int, log: seq<Arrival>, k: nat)
    requires k <= |log|
  {
    start + Waits(Captured(start, log, true)[..k]) == Since(start, log[..k])
  }

  ghost predicate GapIsMarked(start: int, log: seq<Arrival>, i: nat)
    requires i < |log|
  {
    log[i].content.None? ==> log[i].at == Since(start, log[..i])
  }

  /** Replaying the recorded delays reaches every response at the moment it arrived, exactly if
      every response that is not an object came without any delay of its own. */
  lemma {:induction false} ReplayIsOnTime(start: int, log: seq<Arrival>)
    ensures (forall k: nat :: k <= |log| ==> OnTime(start, log, k))
       <==> (forall i: nat :: i < |log| ==> GapIsMarked(start, log, i))
  {
    if forall k: nat :: k <= |log| ==> OnTime(start, log, k) {
      forall i: nat | i < |log| ensures GapIsMarked(start, log, i) {
        OneStep(start, log, i);
        assert OnTime(start, log, i) && OnTime(start, log, i + 1);
      }
    }
    if forall i: nat :: i < |log| ==> GapIsMarked(start, log, i) {
      forall k: nat | k <= |log| ensures OnTime(start, log, k) {
        AllMarked(start, log, k);
      }
    }
  }

  /** The smallest replay that drifts: a response that is no object, five ticks after the start. */
  lemma ReplayDrifts()
    ensures var log := [Arrival(None, 5)]; !GapIsMarked(0, log, 0) && !OnTime(0, log, 1)
  {
    var log := [Arrival(None, 5)];
    assert log[..0] == [] && log[..1] == log;
    WaitsTelescope(0, log[..0]);
    CapturedPrefix(0, log, true, 0);
    OneStep(0, log, 0);
  }

  /** How far a server stream replays: up to the first response that is not an object, where it
      ends with an error. */
  function ReplayedByServer(contents: seq<Option<Fields>>): (n: nat)
    ensures n <= |contents| && forall i :: 0 <= i < n ==> contents[i].Some?
    ensures n < |contents| ==> contents[n].None?
  {
    if contents == [] || contents[0].None? then 0 else 1 + ReplayedByServer(contents[1..])
  }

  /** As far as it gets, a server stream is on time. It gets to the end exactly if every response
      is an object. */
  lemma ServerReplay(start: int, log: seq<Arrival>)
    ensures var n := ReplayedByServer(Captured(start, log, true));
      && (forall k: nat :: k <= n ==> OnTime(start, log, k))
      && (n == |log| <==> forall a :: a in log ==> a.content.Some?)
  {
    var contents := Captured(start, log, true);
    var n := ReplayedByServer(contents);
    forall i | 0 <= i < |log| ensures contents[i].Some? <==> log[i].content.Some? {
      CapturedKinds(start, log, i);
    }
    hide Captured;
    forall k: nat | k <= n ensures OnTime(start, log, k) {
      AllMarked(start, log, k);
    }
    assert n < |log| ==> log[n] in log;
  }

  lemma {:induction false} CapturedKinds(start: int, log: seq<Arrival>, i: nat)
    requires i < |log|
    ensures Captured(start, log, true)[i].Some? <==> log[i].content.Some?
  {
    if i < |log| - 1 {
      CapturedKinds(start, log[..|log| - 1], i);
    }
  }

  lemma OneStep(start: int, log: seq<Arrival>, i: nat)
    requires i < |log| && OnTime(start, log, i)
    ensures OnTime(start, log, i + 1) <==> GapIsMarked(start, log, i)
  {
    CapturedPrefix(start, log, true, i);
    CapturedPrefix(start, log, true, i + 1);
    WaitsTelescope(start, log[..i]);
    WaitsTelescope(start, log[..i + 1]);
    assert log[..i + 1][..i] == log[..i];
  }

  lemma {:induction false} AllMarked(start: int, log: seq<Arrival>, k: nat)
    requires k <= |log|
    requires forall i: nat :: i < k ==> GapIsMarked(start, log, i)
    ensures OnTime(start, log, k)
  {
    if k > 0 {
      AllMarked(start, log, k - 1);
      OneStep(start, log, k - 1);
    }
  }

  /** With a clock that does not go back, a replay is never late, and its total is exact only if
      each single response is on time. */
  lemma {:induction false} ReplayIsNeverLate(start: int, log: seq<Arrival>, k: nat)
    requires Monotone(start, log) && k <= |log|
    ensures start + Waits(Captured(start, log, true)[..k]) <= Since(start, log[..k])
    ensures OnTime(start, log, |log|) ==> OnTime(start, log, k)
  {
    CapturedPrefix(start, log, true, k);
    CapturedPrefix(start, log, true, |log|);
    assert log[..|log|] == log;
    WaitsTelescope(start, log[..k]);
    WaitsTelescope(start, log);
    UnmarkedGrows(start, log, k);
  }

  lemma {:induction false} UnmarkedGrows(start: int, log: seq<Arrival>, k: nat)
    requires Monotone(start, log) && k <= |log|
    ensures 0 <= Unmarked(start, log[..k]) <= Unmarked(start, log)
  {
    if k < |log| {
      UnmarkedGrows(start, log[..|log| - 1], k);
      assert log[..|log| - 1][..k] == log[..k];
    } else if k > 0 {
      assert log[..k] == log;
      UnmarkedGrows(start, log[..k - 1], k - 1);
      assert log[..k - 1][..k - 1] == log[..k - 1];
    }
  }

  // ----- History copies carry no marker

  /** What the bidi recorder keeps is what arrived without the marker's key, whether or not delays
      were recorded. */
  lemma {:induction false} HistoryIsUnmarked(start: int, log: seq<Arrival>, recordDelay: bool)
    ensures Stripped(ObjectsOf(Captured(start, log, recordDelay))) == Stripped(ObjectsOf(Received(log)))
  {
    hide Captured, ObjectsOf, Stripped, Received;
    if log == [] {
      assert Captured(start, log, recordDelay) == [] == Received(log);
    } else {
      var before, last := log[..|log| - 1], log[|log| - 1];
      assert log == before + [last];
      HistoryIsUnmarked(start, before, recordDelay);
      CapturedStep(start, before, last, recordDelay);
      ReceivedStep(before, last);
      var stamped := Stamped(last.content, last.at - Since(start, before), recordDelay);
      ObjectsAppend(Captured(start, before, recordDelay), stamped);
      ObjectsAppend(Received(before), last.content);
      if last.content.Some? {
        assert stamped.value - {GRIPMOCK_KEY} == last.content.value - {GRIPMOCK_KEY};
        StrippedAppend(ObjectsOf(Received(before)), last.content.value);
        StrippedAppend(ObjectsOf(Captured(start, before, recordDelay)), stamped.value);
      }
    }
  }

  lemma CapturedStep(start: int, log: seq<Arrival>, a: Arrival, recordDelay: bool)
    ensures Captured(start, log + [a], recordDelay)
         == Captured(start, log, recordDelay) + [Stamped(a.content, a.at - Since(start, log), recordDelay)]
  {
  }

  lemma ReceivedStep(log: seq<Arrival>, a: Arrival)
    ensures Received(log + [a]) == Received(log) + [a.content]
  {
  }

  lemma ObjectsAppend(contents: seq<Option<Fields>>, c: Option<Fields>)
    ensures ObjectsOf(contents + [c]) == if c.Some? then ObjectsOf(contents) + [c.value] else ObjectsOf(contents)
  {
  }

  lemma StrippedAppend(s: seq<Fields>, f: Fields)
    ensures Stripped(s + [f]) == Stripped(s) + [f - {GRIPMOCK_KEY}]
  {
  }

  /** No object among the first hundred has a field with the marker's name itself. */
  ghost predicate NoneNamedLikeMarker(objects: seq<Fields>) {
    forall i :: 0 <= i < |objects| && i < MAX_HISTORY_STREAM_MSGS ==> GRIPMOCK_KEY !in objects[i]
  }

  lemma StrippingIsNothing(objects: seq<Fields>)
    ensures Stripped(Limited(objects)) == Limited(objects) <==> NoneNamedLikeMarker(objects)
  {
    var kept := Limited(objects);
    if NoneNamedLikeMarker(objects) {
      forall i | 0 <= i < |kept| ensures Stripped(kept)[i] == kept[i] {
        assert kept[i] == objects[i];
      }
    } else {
      var i :| 0 <= i < |objects| && i < MAX_HISTORY_STREAM_MSGS && GRIPMOCK_KEY in objects[i];
      assert kept[i] == objects[i] && GRIPMOCK_KEY !in Stripped(kept)[i];
    }
  }

  lemma LimitedStep(s: seq<Fields>, f: Fields)
    ensures Limited(s + [f]) == if |Limited(s)| < MAX_HISTORY_STREAM_MSGS then Limited(s) + [f] else Limited(s)
  {
  }

  lemma StrippedLimited(s: seq<Fields>)
    ensures Stripped(Limited(s)) == Limited(Stripped(s))
  {
  }

  // ----- Reading the heap

  ghost function Content(r: Response): Option<Fields>
    reads if r.Object? then {r.o} else {}
  {
    if r.Object? then Some(r.o.fields) else None
  }

  ghost function Messages(rs: seq<Response>): set<Message> {
    set r | r in rs && r.Object? :: r.o
  }

  ghost function Contents(rs: seq<Response>): (c: seq<Option<Fields>>)
    reads Messages(rs)
    ensures |c| == |rs|
  {
    seq(|rs|, i requires 0 <= i < |rs| reads Messages(rs) =>
      if rs[i].Object? then assert rs[i] in rs; Some(rs[i].o.fields) else None)
  }

  ghost function Entries(ms: seq<Message>): (c: seq<Fields>)
    reads set m | m in ms
    ensures |c| == |ms|
  {
    seq(|ms|, i requires 0 <= i < |ms| reads set m | m in ms => ms[i].fields)
  }

  // ----- The bidi recorder

  /** Fields are shared with both forwarders; every method runs under the mutex. `log` is what has
      been handed over so far. */
  class StreamCaptureState {
    var requests: seq<Message>
    var responses: seq<Response>
    var lastResponseTime: Option<int>
    var startTime: int
    var recordDelay: bool
    ghost var log: seq<Arrival>

    ghost predicate Valid()
      reads this, Messages(responses)
    {
      && Contents(responses) == Captured(startTime, log, recordDelay)
      && lastResponseTime == if log == [] then None else Some(log[|log| - 1].at)
    }

    constructor (startTime: int, recordDelay: bool)
      ensures Valid() && log == [] && requests == [] && responses == []
      ensures this.startTime == startTime && this.recordDelay == recordDelay
    {
      this.startTime, this.recordDelay := startTime, recordDelay;
      requests, responses, lastResponseTime, log := [], [], None, [];
    }

    method AppendRequest(req: Message)
      requires Valid()
      modifies this`requests
      ensures Valid() && requests == old(requests) + [req]
    {
      requests := requests + [req];
    }

    /** The response is a message of its own, not one captured before. */
    method AppendResponseWithTiming(resp: Response, now: int)
      requires Valid() && (resp.Object? ==> resp.o !in Messages(responses))
      modifies this`responses, this`lastResponseTime, this`log, if resp.Object? then {resp.o} else {}
      ensures Valid()
      ensures log == old(log) + [Arrival(old(Content(resp)), now)] && responses == old(responses) + [resp]
    {
      hide Captured, Contents;
      ghost var before, content := Contents(responses), Content(resp);
      if resp.Object? && recordDelay {
        var since := if lastResponseTime.None? then startTime else lastResponseTime.value;
        resp.o.fields := resp.o.fields[GRIPMOCK_KEY := Marker(now - since)];
      }
      CapturedStep(startTime, log, Arrival(content, now), recordDelay);
      responses := responses + [resp];
      lastResponseTime := Some(now);
      log := log + [Arrival(content, now)];
      assert forall m :: m in Messages(old(responses)) ==> m.fields == old(m.fields);
      assert Contents(old(responses)) == before;
      ContentsStep(old(responses), resp);
    }

    method Snapshot() returns (reqs: seq<Message>, resps: seq<Response>)
      requires Valid()
      ensures reqs == requests && resps == responses
      ensures Contents(resps) == Captured(startTime, log, recordDelay)
    {
      reqs, resps := requests, responses;
    }

    method HasTimedResponses() returns (timed: bool)
      requires Valid()
      ensures timed <==> recordDelay && log != []
    {
      timed := recordDelay && |responses| > 0;
    }
  }

  /** History of a bidi call: at most a hundred deep copies, without the marker's key; the captured
      messages themselves keep theirs. */
  method RecordBidiProxyHistory(state: StreamCaptureState) returns (history: seq<Message>)
    requires state.Valid()
    ensures state.Valid() && fresh(set m | m in history)
    ensures Entries(history) == Stripped(Limited(ObjectsOf(Received(state.log))))
  {
    hide Captured, ObjectsOf, Stripped, Limited, Received, Entries;
    var requests, responses := state.Snapshot();
    ghost var contents := Contents(responses);
    history := [];
    NothingKept(contents);
    var i := 0;
    while i < |responses| && |history| < MAX_HISTORY_STREAM_MSGS
      invariant i <= |responses| && fresh(set m | m in history)
      invariant Entries(history) == Kept(contents, i)
    {
      KeptStep(contents, i);
      if responses[i].Object? {
        assert contents[i] == Some(responses[i].o.fields);
        var clean := new Message(responses[i].o.fields - {GRIPMOCK_KEY});
        history := Remember(history, clean);
      }
      i := i + 1;
    }
    EarlyStop(contents, i);
    HistoryIsUnmarked(state.startTime, state.log, state.recordDelay);
    StrippedLimited(ObjectsOf(contents));
    StrippedLimited(ObjectsOf(Received(state.log)));
  }

  /** The history after `i` messages. */
  ghost function Kept(contents: seq<Option<Fields>>, i: nat): seq<Fields>
    requires i <= |contents|
  {
    Stripped(Limited(ObjectsOf(contents[..i])))
  }

  lemma NothingKept(contents: seq<Option<Fields>>)
    ensures Kept(contents, 0) == Entries([])
  {
  }

  lemma KeptStep(contents: seq<Option<Fields>>, i: nat)
    requires i < |contents| && |Kept(contents, i)| < MAX_HISTORY_STREAM_MSGS
    ensures Kept(contents, i + 1)
         == Kept(contents, i) + if contents[i].Some? then [contents[i].value - {GRIPMOCK_KEY}] else []
  {
    ObjectsStep(contents, i);
    if contents[i].Some? {
      LimitedStep(ObjectsOf(contents[..i]), contents[i].value);
      StrippedAppend(Limited(ObjectsOf(contents[..i])), contents[i].value);
    }
  }

  method Remember(history: seq<Message>, m: Message) returns (r: seq<Message>)
    ensures r == history + [m] && Entries(r) == Entries(history) + [m.fields]
  {
    r := history + [m];
  }

  lemma ObjectsStep(contents: seq<Option<Fields>>, i: nat)
    requires i < |contents|
    ensures ObjectsOf(contents[..i + 1])
         == if contents[i].Some? then ObjectsOf(contents[..i]) + [contents[i].value] else ObjectsOf(contents[..i])
  {
    assert contents[..i + 1] == contents[..i] + [contents[i]];
    ObjectsAppend(contents[..i], contents[i]);
  }

  lemma {:induction false} EarlyStop(contents: seq<Option<Fields>>, i: nat)
    requires i <= |contents|
    requires i < |contents| ==> |Kept(contents, i)| >= MAX_HISTORY_STREAM_MSGS
    ensures Limited(ObjectsOf(contents[..i])) == Limited(ObjectsOf(contents))
    ensures Kept(contents, i) == Stripped(Limited(ObjectsOf(contents)))
    decreases |contents| - i
  {
    if i < |contents| {
      ObjectsStep(contents, i);
      if contents[i].Some? {
        LimitedStep(ObjectsOf(contents[..i]), contents[i].value);
      }
      EarlyStop(contents, i + 1);
    } else {
      assert contents[..i] == contents;
    }
  }

  // ----- The server-stream recorder

  /** Both buffers share the message unless capture writes a marker into it. */
  method BufferProxyStreamMessage(
    responses: seq<Response>, history: seq<Message>, entry: Response,
    capture: bool, historyEnabled: bool, recordDelay: bool, delay: int)
    returns (responses': seq<Response>, history': seq<Message>, marked: bool)
    modifies if entry.Object? then {entry.o} else {}
    ensures responses' == if capture then responses + [entry] else responses
    ensures Content(entry) == Stamped(old(Content(entry)), delay, capture && recordDelay)
    ensures marked <==> capture && recordDelay && entry.Object?
    ensures if historyEnabled && entry.Object? && |history| < MAX_HISTORY_STREAM_MSGS
            then |history'| == |history| + 1 && history'[..|history|] == history
              && history'[|history|].fields == old(entry.o.fields)
              && (if marked then fresh(history'[|history|]) else history'[|history|] == entry.o)
            else history' == history
  {
    responses', history', marked := responses, history, false;
    if historyEnabled && entry.Object? && |history| < MAX_HISTORY_STREAM_MSGS {
      if capture && recordDelay {
        var copy := new Message(entry.o.fields);
        history' := history + [copy];
      } else {
        history' := history + [entry.o];
      }
    }
    if capture {
      if recordDelay && entry.Object? {
        entry.o.fields := entry.o.fields[GRIPMOCK_KEY := Marker(delay)];
        marked := true;
      }
      responses' := responses + [entry];
    }
  }

  /** What the receive loop of a server stream has buffered after the messages of `log`. */
  ghost predicate Buffered(start: int, log: seq<Arrival>, capture: bool, historyEnabled: bool, recordDelay: bool,
                           responses: seq<Response>, history: seq<Message>)
    reads Messages(responses), set m | m in history
  {
    && Contents(responses) == (if capture then Captured(start, log, recordDelay) else [])
    && Entries(history) == (if historyEnabled then Limited(ObjectsOf(Received(log))) else [])
  }

  /** The receive loop. Every message is converted to a value of its own; history ends up with the
      objects as they arrived although capture marks them in place. */
  method ReceiveAll(start: int, log: seq<Arrival>, capture: bool, historyEnabled: bool, recordDelay: bool)
    returns (responses: seq<Response>, history: seq<Message>, recorded: bool)
    ensures Buffered(start, log, capture, historyEnabled, recordDelay, responses, history)
    ensures recorded <==> capture && recordDelay && exists a :: a in log && a.content.Some?
  {
    responses, history, recorded := [], [], false;
    var lastMsgTime := start;
    assert log[..0] == [];
    for i := 0 to |log|
      invariant lastMsgTime == Since(start, log[..i])
      invariant fresh(Messages(responses)) && fresh(set m | m in history)
      invariant Buffered(start, log[..i], capture, historyEnabled, recordDelay, responses, history)
      invariant recorded <==> capture && recordDelay && exists a :: a in log[..i] && a.content.Some?
    {
      assert log[..i + 1] == log[..i] + [log[i]];
      var marked;
      responses, history, marked := ReceiveOne(start, log[..i], log[i], capture, historyEnabled, recordDelay,
                                               responses, history, lastMsgTime);
      recorded := recorded || marked;
      lastMsgTime := log[i].at;
    }
    assert log[..|log|] == log;
  }

  /** For the same arrivals, the two recorders keep the same history exactly if no upstream object
      among the first hundred has a field with the marker's name itself: the bidi one removes it,
      the server-stream one does not. */
  method HistoriesAgree(log: seq<Arrival>, state: StreamCaptureState, capture: bool, recordDelay: bool)
    returns (serverStream: seq<Message>, bidi: seq<Message>)
    requires state.Valid() && state.log == log
    ensures Entries(serverStream) == Entries(bidi) <==> NoneNamedLikeMarker(ObjectsOf(Received(log)))
  {
    var responses, recorded;
    responses, serverStream, recorded := ReceiveAll(state.startTime, log, capture, true, recordDelay);
    bidi := RecordBidiProxyHistory(state);
    StrippingIsNothing(ObjectsOf(Received(log)));
  }

  /** The smallest difference: one upstream object with such a field. */
  method HistoriesDiffer() returns (serverStream: seq<Message>, bidi: seq<Message>)
    ensures Entries(serverStream) != Entries(bidi)
  {
    var fields: Fields := map[GRIPMOCK_KEY := Plain(0)];
    var log := [Arrival(Some(fields), 1)];
    var state := new StreamCaptureState(0, false);
    var m := new Message(fields);
    state.AppendResponseWithTiming(Object(m), 1);
    assert Received(log) == [Some(fields)] && [Some(fields)][..0] == [];
    assert ObjectsOf(Received(log)) == [fields] && GRIPMOCK_KEY in [fields][0];
    serverStream, bidi := HistoriesAgree(log, state, false, false);
  }

  method ReceiveOne(start: int, ghost log: seq<Arrival>, a: Arrival,
                    capture: bool, historyEnabled: bool, recordDelay: bool,
                    responses: seq<Response>, history: seq<Message>, lastMsgTime: int)
    returns (responses': seq<Response>, history': seq<Message>, marked: bool)
    requires Buffered(start, log, capture, historyEnabled, recordDelay, responses, history)
    requires lastMsgTime == Since(start, log)
    ensures Buffered(start, log + [a], capture, historyEnabled, recordDelay, responses', history')
    ensures fresh(Messages(responses') - Messages(responses))
    ensures fresh((set m | m in history') - (set m | m in history))
    ensures marked <==> capture && recordDelay && a.content.Some?
  {
    hide Captured, ObjectsOf, Received, Limited, Stripped, Contents, Entries;
    var entry := Other(0);
    if a.content.Some? {
      var m := new Message(a.content.value);
      entry := Object(m);
    }
    ghost var before, entries := Contents(responses), Entries(history);
    assert entry.Object? ==> entry.o !in Messages(responses);
    assert entry.Object? ==> entry.o !in history;
    responses', history', marked :=
      BufferProxyStreamMessage(responses, history, entry, capture, historyEnabled, recordDelay, a.at - lastMsgTime);
    assert forall m :: m in Messages(responses) ==> m.fields == old(m.fields);
    assert Contents(responses) == before;
    assert Entries(history) == entries;
    if capture {
      ContentsStep(responses, entry);
    }
    if |history'| > |history| {
      EntriesStep(history', |history|);
    }
    CapturedStep(start, log, a, recordDelay);
    HistoryStep(log, a);
    assert |Entries(history)| == |history|;
  }

  lemma ContentsStep(responses: seq<Response>, entry: Response)
    ensures Contents(responses + [entry]) == Contents(responses) + [Content(entry)]
  {
  }

  lemma EntriesStep(history: seq<Message>, n: nat)
    requires |history| == n + 1
    ensures Entries(history) == Entries(history[..n]) + [history[n].fields]
  {
  }

  lemma HistoryStep(log: seq<Arrival>, a: Arrival)
    ensures var history, history' := Limited(ObjectsOf(Received(log))), Limited(ObjectsOf(Received(log + [a])));
      history' == if a.content.Some? && |history| < MAX_HISTORY_STREAM_MSGS then history + [a.content.value]
                  else history
  {
    ReceivedStep(log, a);
    ObjectsAppend(Received(log), a.content);
    if a.content.Some? {
      LimitedStep(ObjectsOf(Received(log)), a.content.value);
    }
  }
}
