/** The bidirectional proxy (internal/app/grpc_proxy_stream.go). */
module BidiProxy {
  // Two forwarders share a capture state and post one result each to a channel of capacity one; a
  // caller waits for both, with a guard. Every interleaving of their steps is a run; the environment
  // decides what is received, which calls fail, where a forwarder panics, when the guard fires and
  // when the call is cancelled.

  type Message = nat

  /** nil, or an error. */
  datatype Outcome = Nil | Failure(code: nat)

  // ----- One direction

  /** Where a forwarder is: at the top of its loop, inside RecvMsg, holding a message that is not
      captured yet, holding one that is captured but not sent, past the end of its input, or with
      a result to post. */
  datatype Pc = Checking | Receiving | Holding(m: Message) | Sending(m: Message) | AtEnd | Posting(o: Outcome) | Done

  /** `prefetched` is empty for responses; `taken` counts how much of it has been consumed. `closed`
      says that CloseSend has been called, `posted` which results the forwarder has posted. */
  datatype Side = Side(
    pc: Pc,
    prefetched: seq<Message>,
    taken: nat,
    received: seq<Message>,
    captured: seq<Message>,
    sent: seq<Message>,
    ended: bool,
    closed: bool,
    channel: seq<Outcome>,
    posted: seq<Outcome>,
    dropped: bool)

  datatype SideStep =
    | Cancelled
    | TakePrefetched
    | EnterReceive
    | Receive(m: Message)
    | ReceiveEOF
    | ReceiveError(o: Outcome)
    | Capture
    | Send
    | SendError(o: Outcome)
    | CloseSend(o: Outcome)
    | EndQuietly
    | Panic(o: Outcome)
    | Post

  function Input(x: Side): seq<Message>
    requires x.taken <= |x.prefetched|
  {
    x.prefetched[..x.taken] + x.received
  }

  /** trySendErr: never blocks; a full channel loses the value. */
  function Posted(x: Side, o: Outcome): Side {
    if |x.channel| < 1 then x.(pc := Done, channel := x.channel + [o], posted := x.posted + [o])
    else x.(pc := Done, posted := x.posted + [o], dropped := true)
  }

  /** Both forwarders. Requests close the upstream when their input ends; responses just stop. */
  ghost predicate SideNext(closes: bool, cancelled: bool, x: Side, step: SideStep, x': Side) {
    match step
    case Cancelled => x.pc.Checking? && cancelled && x' == x.(pc := Posting(Nil))
    case TakePrefetched =>
      x.pc.Checking? && x.taken < |x.prefetched|
      && x' == x.(pc := Holding(x.prefetched[x.taken]), taken := x.taken + 1)
    case EnterReceive => x.pc.Checking? && x.taken == |x.prefetched| && x' == x.(pc := Receiving)
    case Receive(m) => x.pc.Receiving? && x' == x.(pc := Holding(m), received := x.received + [m])
    case ReceiveEOF => x.pc.Receiving? && x' == x.(pc := AtEnd, ended := true)
    case ReceiveError(o) => x.pc.Receiving? && o.Failure? && x' == x.(pc := Posting(o))
    case Capture => x.pc.Holding? && x' == x.(pc := Sending(x.pc.m), captured := x.captured + [x.pc.m])
    case Send => x.pc.Sending? && x' == x.(pc := Checking, sent := x.sent + [x.pc.m])
    case SendError(o) => x.pc.Sending? && o.Failure? && x' == x.(pc := Posting(o))
    case CloseSend(o) => x.pc.AtEnd? && closes && x' == x.(pc := Posting(o), closed := true)
    case EndQuietly => x.pc.AtEnd? && !closes && x' == x.(pc := Posting(Nil))
    case Panic(o) => !x.pc.Posting? && !x.pc.Done? && o.Failure? && x' == x.(pc := Posting(o))
    case Post => x.pc.Posting? && x' == Posted(x, x.pc.o)
  }

  function Start(prefetched: seq<Message>): Side {
    Side(Checking, prefetched, 0, [], [], [], false, false, [], [], false)
  }

  /** Order is kept, capture runs at most one message ahead of sending, and nothing is received
      while a message is still on its way. */
  ghost predicate Ordered(x: Side) {
    && x.taken <= |x.prefetched|
    && (x.received != [] || x.pc.Receiving? || x.ended ==> x.taken == |x.prefetched|)
    && match x.pc
       case Checking | Receiving | AtEnd => x.sent == x.captured == Input(x)
       case Holding(m) => x.captured == x.sent && Input(x) == x.sent + [m]
       case Sending(m) => x.captured == Input(x) == x.sent + [m]
       case Posting(_) | Done => x.sent <= x.captured <= Input(x) && |Input(x)| <= |x.sent| + 1
  }

  /** CloseSend is called only when all input, to its end, has been sent on. */
  ghost predicate ClosedLast(x: Side) {
    && (x.closed ==> x.ended && x.sent == x.prefetched + x.received && (x.pc.Posting? || x.pc.Done?))
    && (x.ended ==> x.sent == x.prefetched + x.received && (x.pc.AtEnd? || x.pc.Posting? || x.pc.Done?))
    && (x.pc.AtEnd? ==> x.ended)
  }

  /** The result, once posted or about to be, tells how the forwarder ended. */
  ghost predicate ResultHonest(closes: bool, cancelled: bool, x: Side, o: Outcome) {
    o.Nil? && !cancelled ==> x.ended && (closes ==> x.closed)
  }

  /** One post, into an empty channel; it stays there until it is taken. */
  ghost predicate PostsOnce(closes: bool, cancelled: bool, x: Side) {
    && !x.dropped
    && (if x.pc.Done? then |x.posted| == 1 && (x.channel == x.posted || x.channel == [])
        else x.posted == x.channel == [])
    && (x.pc.Posting? ==> ResultHonest(closes, cancelled, x, x.pc.o))
    && (x.pc.Done? ==> ResultHonest(closes, cancelled, x, x.posted[0]))
  }

  /** A result that the caller holds is the one that the forwarder posted, and it has stopped. */
  ghost predicate Taken(x: Side, o: Outcome) {
    x.pc.Done? && x.posted == [o] && x.channel == []
  }

  /** The caller has taken nothing from this side. */
  ghost predicate Untouched(x: Side) {
    x.channel == x.posted
  }

  ghost predicate SideInv(closes: bool, cancelled: bool, x: Side) {
    Ordered(x) && ClosedLast(x) && PostsOnce(closes, cancelled, x)
  }

  lemma {:induction false} SideKeeps(closes: bool, cancelled: bool, x: Side, step: SideStep, x': Side)
    requires SideInv(closes, cancelled, x) && SideNext(closes, cancelled, x, step, x')
    ensures SideInv(closes, cancelled, x')
    ensures x.captured <= x'.captured && x.sent <= x'.sent && x'.prefetched == x.prefetched
    ensures Untouched(x) ==> Untouched(x')
    ensures !x.pc.Done?
  {
    OrderKept(closes, cancelled, x, step, x');
    if x.taken == |x.prefetched| {
      assert x.prefetched[..x.taken] == x.prefetched;
    }
  }

  lemma OrderKept(closes: bool, cancelled: bool, x: Side, step: SideStep, x': Side)
    requires Ordered(x) && SideNext(closes, cancelled, x, step, x')
    ensures Ordered(x')
  {
    match step
    case TakePrefetched => TakeKeepsOrder(x);
    case Receive(m) => ReceiveKeepsOrder(x, m);
    case Capture => CaptureKeepsOrder(x);
    case Send =>
    case _ => StopKeepsOrder(closes, cancelled, x, step, x');
  }

  lemma TakeKeepsOrder(x: Side)
    requires Ordered(x) && x.pc.Checking? && x.taken < |x.prefetched|
    ensures Ordered(x.(pc := Holding(x.prefetched[x.taken]), taken := x.taken + 1))
  {
    assert x.received == [];
    assert x.prefetched[..x.taken + 1] == x.prefetched[..x.taken] + [x.prefetched[x.taken]];
  }

  lemma ReceiveKeepsOrder(x: Side, m: Message)
    requires Ordered(x) && x.pc.Receiving?
    ensures Ordered(x.(pc := Holding(m), received := x.received + [m]))
  {
    var x' := x.(pc := Holding(m), received := x.received + [m]);
    assert Input(x') == Input(x) + [m];
  }

  lemma CaptureKeepsOrder(x: Side)
    requires Ordered(x) && x.pc.Holding?
    ensures Ordered(x.(pc := Sending(x.pc.m), captured := x.captured + [x.pc.m]))
  {
  }

  /** The other steps move no message. */
  lemma StopKeepsOrder(closes: bool, cancelled: bool, x: Side, step: SideStep, x': Side)
    requires Ordered(x) && SideNext(closes, cancelled, x, step, x')
    requires !step.TakePrefetched? && !step.Receive? && !step.Capture? && !step.Send?
    ensures Ordered(x')
  {
    assert Input(x') == Input(x);
    hide Input;
  }

  // ----- Both directions and the caller

  /** The caller waits for either result; then for the other one, without a guard if the request
      side ended well and with one otherwise. It ends with both outcomes, whether the guard fired,
      and the two snapshots of what was captured. */
  datatype Caller =
    | Waiting
    | AwaitResponses
    | DrainResponses(requests: Outcome)
    | DrainRequests(responses: Outcome)
    | Finished(requests: Outcome, responses: Outcome, guardFired: bool,
               requestSnapshot: seq<Message>, responseSnapshot: seq<Message>)

  datatype State = State(req: Side, resp: Side, caller: Caller, cancelled: bool)

  datatype Action =
    | Requests(step: SideStep)
    | Responses(step: SideStep)
    | Cancel
    | TakeRequestResult
    | TakeResponseResult
    | Guard

  function Ended(s: State, requests: Outcome, responses: Outcome, fired: bool): Caller {
    Finished(requests, responses, fired, s.req.captured, s.resp.captured)
  }

  function Emptied(x: Side): Side { x.(channel := []) }

  ghost predicate Next(s: State, a: Action, s': State) {
    match a
    case Requests(step) => SideNext(true, s.cancelled, s.req, step, s'.req) && s' == s.(req := s'.req)
    case Responses(step) => SideNext(false, s.cancelled, s.resp, step, s'.resp) && s' == s.(resp := s'.resp)
    case Cancel => s' == s.(cancelled := true)
    case TakeRequestResult =>
      && s.req.channel != []
      && var o := s.req.channel[0];
         (match s.caller
          case Waiting =>
            s' == s.(req := Emptied(s.req), caller := if o.Nil? then AwaitResponses else DrainResponses(o))
          case DrainRequests(responses) =>
            s' == s.(req := Emptied(s.req), caller := Ended(s, o, responses, false))
          case _ => false)
    case TakeResponseResult =>
      && s.resp.channel != []
      && var o := s.resp.channel[0];
         (match s.caller
          case Waiting => s' == s.(resp := Emptied(s.resp), caller := DrainRequests(o))
          case AwaitResponses => s' == s.(resp := Emptied(s.resp), caller := Ended(s, Nil, o, false))
          case DrainResponses(requests) =>
            s' == s.(resp := Emptied(s.resp), caller := Ended(s, requests, o, false))
          case _ => false)
    case Guard =>
      match s.caller
      case DrainResponses(requests) => s' == s.(caller := Ended(s, requests, Nil, true), cancelled := true)
      case DrainRequests(responses) => s' == s.(caller := Ended(s, Nil, responses, true), cancelled := true)
      case _ => false
  }

  ghost predicate Init(s: State) {
    s == State(Start(s.req.prefetched), Start([]), Waiting, false)
  }

  // ----- What every step keeps

  /** Without the guard both results were taken. With it, one was: an error of the request side, or
      whatever the response side had; what is reported for the other side is nil. */
  ghost predicate Reported(s: State, requests: Outcome, responses: Outcome, fired: bool) {
    if !fired then Taken(s.req, requests) && Taken(s.resp, responses)
    else
      || (Taken(s.req, requests) && requests.Failure? && Untouched(s.resp) && responses.Nil?)
      || (Taken(s.resp, responses) && Untouched(s.req) && requests.Nil?)
  }

  ghost predicate CallerInv(s: State) {
    match s.caller
    case Waiting => Untouched(s.req) && Untouched(s.resp)
    case AwaitResponses => Taken(s.req, Nil) && Untouched(s.resp)
    case DrainResponses(requests) => Taken(s.req, requests) && requests.Failure? && Untouched(s.resp)
    case DrainRequests(responses) => Taken(s.resp, responses) && Untouched(s.req)
    case Finished(requests, responses, fired, rs, ss) =>
      && rs <= s.req.captured && ss <= s.resp.captured
      && (fired ==> s.cancelled)
      && (!fired ==> rs == s.req.captured && ss == s.resp.captured)
      && Reported(s, requests, responses, fired)
  }

  ghost predicate Inv(s: State) {
    && SideInv(true, s.cancelled, s.req) && SideInv(false, s.cancelled, s.resp) && CallerInv(s)
    && s.resp.prefetched == []
  }

  lemma {:induction false} NextKeepsInv(s: State, a: Action, s': State)
    requires Inv(s) && Next(s, a, s')
    ensures Inv(s')
    ensures s.req.captured <= s'.req.captured && s.resp.captured <= s'.resp.captured
    ensures s.req.prefetched == s'.req.prefetched
  {
    match a
    case Requests(step) => SideKeeps(true, s.cancelled, s.req, step, s'.req);
    case Responses(step) => SideKeeps(false, s.cancelled, s.resp, step, s'.resp);
    case _ => CallerKeeps(s, a, s');
  }

  /** What the caller and cancellation do. */
  lemma CallerKeeps(s: State, a: Action, s': State)
    requires Inv(s) && Next(s, a, s') && !a.Requests? && !a.Responses?
    ensures Inv(s')
    ensures (s'.req == s.req || s'.req == Emptied(s.req)) && (s'.resp == s.resp || s'.resp == Emptied(s.resp))
  {
    hide SideInv, Taken, Untouched, Emptied;
    SideStays(true, s.cancelled, s'.cancelled, s.req);
    SideStays(false, s.cancelled, s'.cancelled, s.resp);
  }

  /** Cancellation and emptying the channel leave a side's invariant alone; what was in the channel
      is the one result of a forwarder that has stopped. */
  lemma SideStays(closes: bool, cancelled: bool, cancelled': bool, x: Side)
    requires SideInv(closes, cancelled, x) && (cancelled ==> cancelled')
    ensures SideInv(closes, cancelled', x) && SideInv(closes, cancelled', Emptied(x))
    ensures Emptied(x).captured == x.captured && Emptied(x).prefetched == x.prefetched
    ensures x.channel != [] ==> Untouched(x) && Taken(Emptied(x), x.channel[0])
  {
    assert Input(Emptied(x)) == Input(x);
  }

  // ----- Runs

  ghost predicate StepAt(ss: seq<State>, acts: seq<Action>, i: nat)
    requires |ss| == |acts| + 1 && i < |acts|
  {
    Next(ss[i], acts[i], ss[i + 1])
  }

  ghost predicate Run(ss: seq<State>, acts: seq<Action>) {
    && |ss| == |acts| + 1 && Init(ss[0])
    && forall i: nat :: i < |acts| ==> StepAt(ss, acts, i)
  }

  lemma {:induction false} RunKeepsInv(ss: seq<State>, acts: seq<Action>, i: nat)
    requires Run(ss, acts) && i < |ss|
    ensures forall k: nat :: k <= i ==> Inv(ss[k])
    ensures ss[i].req.prefetched == ss[0].req.prefetched
  {
    hide Next, Inv, Init;
    if i == 0 {
      InitHasInv(ss[0]);
    } else {
      RunKeepsInv(ss, acts, i - 1);
      assert StepAt(ss, acts, i - 1);
      NextKeepsInv(ss[i - 1], acts[i - 1], ss[i]);
    }
  }

  lemma InitHasInv(s: State)
    requires Init(s)
    ensures Inv(s)
  {
  }

  /** Requests go out in the order prefetched, then received; responses in the order received; and
      what was captured is what was sent, or one message more. */
  lemma Forwarding(ss: seq<State>, acts: seq<Action>, i: nat)
    requires Run(ss, acts) && i < |ss|
    ensures var s := ss[i];
      && s.req.sent <= s.req.captured <= ss[0].req.prefetched + s.req.received
      && s.resp.sent <= s.resp.captured <= s.resp.received
      && |s.req.captured| <= |s.req.sent| + 1 && |s.resp.captured| <= |s.resp.sent| + 1
  {
    RunKeepsInv(ss, acts, i);
    InputIsPrefix(ss[i].req);
    InputIsPrefix(ss[i].resp);
  }

  lemma InputIsPrefix(x: Side)
    requires Ordered(x)
    ensures x.sent <= x.captured <= x.prefetched + x.received && |x.captured| <= |x.sent| + 1
  {
    if x.received == [] {
      assert Input(x) == x.prefetched[..x.taken];
    } else {
      assert x.prefetched[..x.taken] == x.prefetched;
    }
  }

  /** The upstream is told that requests have ended only after all of them went out. */
  lemma CloseComesLast(ss: seq<State>, acts: seq<Action>, i: nat)
    requires Run(ss, acts) && i < |ss| && ss[i].req.closed
    ensures ss[i].req.ended && ss[i].req.sent == ss[0].req.prefetched + ss[i].req.received
  {
    RunKeepsInv(ss, acts, i);
  }

  /** No result is ever lost, and a forwarder posts exactly one before it is gone. */
  lemma NoResultIsDropped(ss: seq<State>, acts: seq<Action>, i: nat)
    requires Run(ss, acts) && i < |ss|
    ensures forall x :: x in [ss[i].req, ss[i].resp] ==>
      !x.dropped && |x.posted| == (if x.pc.Done? then 1 else 0)
  {
    RunKeepsInv(ss, acts, i);
  }

  /** The call returns what the forwarders posted. Only if the guard fired is nil returned for one
      of them: for the responses, whose result nobody took, after an error of the request side; or
      for the requests, after the response side was over. */
  lemma ResultsAreReported(ss: seq<State>, acts: seq<Action>, i: nat)
    requires Run(ss, acts) && i < |ss| && ss[i].caller.Finished?
    ensures var s, c := ss[i], ss[i].caller;
      var fromRequests, fromResponses := s.req.posted == [c.requests], s.resp.posted == [c.responses];
      && (!c.guardFired ==> fromRequests && fromResponses && s.req.channel == s.resp.channel == [])
      && (c.guardFired ==>
            || (c.requests.Failure? && fromRequests && s.req.channel == [] && c.responses == Nil)
            || (fromResponses && s.resp.channel == [] && c.requests == Nil))
  {
    RunKeepsInv(ss, acts, i);
  }

  /** Waiting is limited exactly when the response side is over or the request side has failed, so a
      client that has said all it had to say waits for the responses as long as they take. */
  lemma GuardExactly(ss: seq<State>, acts: seq<Action>, i: nat)
    requires Run(ss, acts) && i < |ss| && !ss[i].caller.Finished?
    ensures (exists s' :: Next(ss[i], Guard, s')) <==>
      var s := ss[i];
      || (s.resp.posted != [] && s.resp.channel == [])
      || (s.req.posted != [] && s.req.channel == [] && s.req.posted[0].Failure?)
  {
    RunKeepsInv(ss, acts, i);
    var s := ss[i];
    match s.caller
    case DrainResponses(requests) =>
      assert Next(s, Guard, s.(caller := Ended(s, requests, Nil, true), cancelled := true));
    case DrainRequests(responses) =>
      assert Next(s, Guard, s.(caller := Ended(s, Nil, responses, true), cancelled := true));
    case _ =>
  }

  /** If the call ends without error, without the guard and without cancellation, the proxy has been
      transparent: everything either peer said reached the other one, in order, and the snapshots
      hold exactly that. */
  lemma CleanEndIsTransparent(ss: seq<State>, acts: seq<Action>, i: nat)
    requires Run(ss, acts) && i < |ss| && ss[i].caller.Finished?
    requires ss[i].caller.requests == Nil && ss[i].caller.responses == Nil
    requires !ss[i].caller.guardFired && !ss[i].cancelled
    ensures var s := ss[i];
      && s.req.ended && s.req.closed && s.resp.ended
      && s.req.sent == ss[0].req.prefetched + s.req.received == s.caller.requestSnapshot
      && s.resp.sent == s.resp.received == s.caller.responseSnapshot
  {
    RunKeepsInv(ss, acts, i);
    InputIsPrefix(ss[i].req);
    InputIsPrefix(ss[i].resp);
  }

  /** Snapshots never change afterwards, though a forwarder that the guard gave up on may still
      capture: they stay prefixes of what is captured, and are all of it unless the guard fired. */
  lemma SnapshotsStand(ss: seq<State>, acts: seq<Action>, i: nat, j: nat)
    requires Run(ss, acts) && i <= j < |ss| && ss[i].caller.Finished?
    ensures ss[j].caller == ss[i].caller
    ensures var c := ss[j].caller;
      && c.requestSnapshot <= ss[j].req.captured && c.responseSnapshot <= ss[j].resp.captured
      && (!c.guardFired ==> c.requestSnapshot == ss[j].req.captured && c.responseSnapshot == ss[j].resp.captured)
    decreases j
  {
    RunKeepsInv(ss, acts, j);
    if i < j {
      SnapshotsStand(ss, acts, i, j - 1);
      assert StepAt(ss, acts, j - 1);
    }
  }

  // ----- What can happen

  /** A posted result that has not been taken can be taken, whatever the caller is waiting for. */
  lemma ResultsCanBeTaken(ss: seq<State>, acts: seq<Action>, i: nat)
    requires Run(ss, acts) && i < |ss| && !ss[i].caller.Finished?
    ensures (exists s' :: Next(ss[i], TakeRequestResult, s')) <==> ss[i].req.channel != []
    ensures (exists s' :: Next(ss[i], TakeResponseResult, s')) <==> ss[i].resp.channel != []
  {
    RunKeepsInv(ss, acts, i);
    var s := ss[i];
    hide SideInv;
    if s.req.channel != [] {
      var o, left := s.req.channel[0], s.(req := Emptied(s.req));
      match s.caller
      case Waiting =>
        assert Next(s, TakeRequestResult, left.(caller := if o.Nil? then AwaitResponses else DrainResponses(o)));
      case DrainRequests(responses) =>
        assert Next(s, TakeRequestResult, left.(caller := Ended(s, o, responses, false)));
      case _ =>
    }
    if s.resp.channel != [] {
      var o, left := s.resp.channel[0], s.(resp := Emptied(s.resp));
      match s.caller
      case Waiting => assert Next(s, TakeResponseResult, left.(caller := DrainRequests(o)));
      case AwaitResponses => assert Next(s, TakeResponseResult, left.(caller := Ended(s, Nil, o, false)));
      case DrainResponses(requests) =>
        assert Next(s, TakeResponseResult, left.(caller := Ended(s, requests, o, false)));
      case _ =>
    }
  }

  /** n steps of a forwarder, none of them under cancellation, lead from x to y. */
  ghost predicate Leads(closes: bool, x: Side, y: Side, n: nat)
    decreases n
  {
    if n == 0 then x == y else exists step, z :: SideNext(closes, false, x, step, z) && Leads(closes, z, y, n - 1)
  }

  lemma {:induction false} LeadsOn(closes: bool, x: Side, y: Side, z: Side, m: nat, n: nat)
    requires Leads(closes, x, y, m) && Leads(closes, y, z, n)
    ensures Leads(closes, x, z, m + n)
    decreases m
  {
    hide SideNext;
    if m > 0 {
      var step, w :| SideNext(closes, false, x, step, w) && Leads(closes, w, y, m - 1);
      LeadsOn(closes, w, y, z, m - 1, n);
    }
  }

  lemma OneMore(closes: bool, x: Side, step: SideStep, y: Side, z: Side, n: nat)
    requires SideNext(closes, false, x, step, y) && Leads(closes, y, z, n)
    ensures Leads(closes, x, z, n + 1)
  {
    hide SideNext;
  }

  /** All prefetched messages and `ms` behind them have been received, captured and sent. */
  function AtRest(prefetched: seq<Message>, ms: seq<Message>): Side {
    Side(Checking, prefetched, |prefetched|, ms, prefetched + ms, prefetched + ms, false, false, [], [], false)
  }

  function FirstPassed(prefetched: seq<Message>, k: nat): Side
    requires k <= |prefetched|
  {
    Side(Checking, prefetched, k, [], prefetched[..k], prefetched[..k], false, false, [], [], false)
  }

  lemma {:induction false} PrefetchedPass(closes: bool, prefetched: seq<Message>, k: nat) returns (n: nat)
    requires k <= |prefetched|
    ensures Leads(closes, Start(prefetched), FirstPassed(prefetched, k), n)
  {
    hide *;
    if k == 0 {
      n := 0;
      NonePassed(closes, prefetched);
    } else {
      n := PrefetchedPass(closes, prefetched, k - 1);
      PrefetchedPasses(closes, prefetched, k - 1);
      LeadsOn(closes, Start(prefetched), FirstPassed(prefetched, k - 1), FirstPassed(prefetched, k), n, 3);
      n := n + 3;
    }
  }

  lemma NonePassed(closes: bool, prefetched: seq<Message>)
    ensures Leads(closes, Start(prefetched), FirstPassed(prefetched, 0), 0)
    ensures FirstPassed(prefetched, |prefetched|) == AtRest(prefetched, [])
  {
    assert prefetched + [] == prefetched == prefetched[..|prefetched|];
  }

  lemma PrefetchedPasses(closes: bool, prefetched: seq<Message>, k: nat)
    requires k < |prefetched|
    ensures Leads(closes, FirstPassed(prefetched, k), FirstPassed(prefetched, k + 1), 3)
  {
    hide Leads;
    var x, m := FirstPassed(prefetched, k), prefetched[k];
    var y := x.(pc := Holding(m), taken := k + 1);
    assert SideNext(closes, false, x, TakePrefetched, y);
    hide SideNext;
    assert prefetched[..k + 1] == prefetched[..k] + [m];
    HeldPasses(closes, y, m);
    OneMore(closes, x, TakePrefetched, y, FirstPassed(prefetched, k + 1), 2);
  }

  lemma HeldPasses(closes: bool, x: Side, m: Message)
    requires x.pc == Holding(m)
    ensures Leads(closes, x, x.(pc := Checking, captured := x.captured + [m], sent := x.sent + [m]), 2)
  {
    var y := x.(pc := Sending(m), captured := x.captured + [m]);
    var z := y.(pc := Checking, sent := x.sent + [m]);
    assert SideNext(closes, false, x, Capture, y) && SideNext(closes, false, y, Send, z);
    hide SideNext;
    assert Leads(closes, z, z, 0);
    OneMore(closes, y, Send, z, z, 0);
    OneMore(closes, x, Capture, y, z, 1);
  }

  lemma MessagePasses(closes: bool, x: Side, m: Message)
    requires x.pc.Checking? && x.taken == |x.prefetched|
    ensures Leads(closes, x,
                  x.(received := x.received + [m], captured := x.captured + [m], sent := x.sent + [m]), 4)
  {
    var w := x.(pc := Receiving);
    var y := x.(pc := Holding(m), received := x.received + [m]);
    var z := x.(received := x.received + [m], captured := x.captured + [m], sent := x.sent + [m]);
    HeldPasses(closes, y, m);
    assert SideNext(closes, false, x, EnterReceive, w) && SideNext(closes, false, w, Receive(m), y);
    hide SideNext;
    assert y.(pc := Checking, captured := y.captured + [m], sent := y.sent + [m]) == z;
    OneMore(closes, w, Receive(m), y, z, 2);
    OneMore(closes, x, EnterReceive, w, z, 3);
  }

  lemma {:induction false} MessagesPass(closes: bool, prefetched: seq<Message>, ms: seq<Message>) returns (n: nat)
    ensures Leads(closes, Start(prefetched), AtRest(prefetched, ms), n)
  {
    hide *;
    if ms == [] {
      n := PrefetchedPass(closes, prefetched, |prefetched|);
      NonePassed(closes, prefetched);
    } else {
      var before := ms[..|ms| - 1];
      n := MessagesPass(closes, prefetched, before);
      LastPasses(closes, prefetched, ms);
      LeadsOn(closes, Start(prefetched), AtRest(prefetched, before), AtRest(prefetched, ms), n, 4);
      n := n + 4;
    }
  }

  lemma LastPasses(closes: bool, prefetched: seq<Message>, ms: seq<Message>)
    requires ms != []
    ensures Leads(closes, AtRest(prefetched, ms[..|ms| - 1]), AtRest(prefetched, ms), 4)
  {
    hide Leads;
    var before, m := ms[..|ms| - 1], ms[|ms| - 1];
    assert ms == before + [m] && prefetched + ms == prefetched + before + [m];
    MessagePasses(closes, AtRest(prefetched, before), m);
  }

  function AtEnds(closes: bool, prefetched: seq<Message>, ms: seq<Message>): Side {
    AtRest(prefetched, ms).(pc := Done, ended := true, closed := closes, channel := [Nil], posted := [Nil])
  }

  /** A forwarder can pass on any messages whatever and end well. */
  lemma SideEndsWell(closes: bool, prefetched: seq<Message>, ms: seq<Message>) returns (n: nat)
    ensures Leads(closes, Start(prefetched), AtEnds(closes, prefetched, ms), n)
  {
    n := MessagesPass(closes, prefetched, ms);
    RestEndsWell(closes, prefetched, ms);
    hide Leads;
    LeadsOn(closes, Start(prefetched), AtRest(prefetched, ms), AtEnds(closes, prefetched, ms), n, 4);
    n := n + 4;
  }

  lemma RestEndsWell(closes: bool, prefetched: seq<Message>, ms: seq<Message>)
    ensures Leads(closes, AtRest(prefetched, ms), AtEnds(closes, prefetched, ms), 4)
  {
    var x, done := AtRest(prefetched, ms), AtEnds(closes, prefetched, ms);
    var w, y := x.(pc := Receiving), x.(pc := AtEnd, ended := true);
    var z := y.(pc := Posting(Nil), closed := closes);
    var last := if closes then CloseSend(Nil) else EndQuietly;
    assert SideNext(closes, false, x, EnterReceive, w) && SideNext(closes, false, w, ReceiveEOF, y);
    assert SideNext(closes, false, y, last, z) && SideNext(closes, false, z, Post, done);
    hide SideNext, AtRest;
    assert Leads(closes, done, done, 0);
    OneMore(closes, z, Post, done, done, 0);
    OneMore(closes, y, last, z, done, 1);
    OneMore(closes, w, ReceiveEOF, y, done, 2);
    OneMore(closes, x, EnterReceive, w, done, 3);
  }

  ghost predicate EndsIn(ss: seq<State>, acts: seq<Action>, s: State) {
    Run(ss, acts) && ss[|acts|] == s
  }

  ghost predicate Reachable(s: State) {
    exists ss, acts :: EndsIn(ss, acts, s)
  }

  lemma OneMoreStep(s: State, a: Action, s': State)
    requires Reachable(s) && Next(s, a, s')
    ensures Reachable(s')
  {
    hide Next, Init;
    var ss, acts :| EndsIn(ss, acts, s);
    var ss', acts' := ss + [s'], acts + [a];
    forall i: nat | i < |acts'| ensures StepAt(ss', acts', i) {
      if i < |acts| {
        assert StepAt(ss, acts, i);
      }
    }
    assert EndsIn(ss', acts', s');
  }

  lemma {:induction false} RequestsLead(s: State, x: Side, n: nat)
    requires Reachable(s) && !s.cancelled && Leads(true, s.req, x, n)
    ensures Reachable(s.(req := x))
    decreases n
  {
    if n > 0 {
      var step, z :| SideNext(true, false, s.req, step, z) && Leads(true, z, x, n - 1);
      hide SideNext;
      OneMoreStep(s, Requests(step), s.(req := z));
      RequestsLead(s.(req := z), x, n - 1);
    }
  }

  lemma {:induction false} ResponsesLead(s: State, x: Side, n: nat)
    requires Reachable(s) && !s.cancelled && Leads(false, s.resp, x, n)
    ensures Reachable(s.(resp := x))
    decreases n
  {
    if n > 0 {
      var step, z :| SideNext(false, false, s.resp, step, z) && Leads(false, z, x, n - 1);
      hide SideNext;
      OneMoreStep(s, Responses(step), s.(resp := z));
      ResponsesLead(s.(resp := z), x, n - 1);
    }
  }

  /** Every exchange can be proxied to its end: for any requests prefetched and received, and any
      responses, some run ends cleanly with all of them passed on and captured. */
  lemma EveryExchangeCanPass(prefetched: seq<Message>, requests: seq<Message>, responses: seq<Message>)
    returns (s: State)
    ensures Reachable(s) && !s.cancelled
    ensures s.caller == Finished(Nil, Nil, false, prefetched + requests, responses)
    ensures s.req.received == requests && s.req.sent == prefetched + requests && s.req.closed
    ensures s.resp.received == responses == s.resp.sent
  {
    var s0 := State(Start(prefetched), Start([]), Waiting, false);
    assert Init(s0);
    assert EndsIn([s0], [], s0);
    var m := SideEndsWell(true, prefetched, requests);
    var n := SideEndsWell(false, [], responses);
    hide Leads, SideNext, Start, Init, Run;
    var x, y := AtEnds(true, prefetched, requests), AtEnds(false, [], responses);
    assert s0.req == Start(prefetched) && s0.resp == Start([]);
    RequestsLead(s0, x, m);
    ResponsesLead(s0.(req := x), y, n);
    var s2 := State(x, y, Waiting, false);
    var s3 := State(Emptied(x), y, AwaitResponses, false);
    s := State(Emptied(x), Emptied(y), Ended(s3, Nil, Nil, false), false);
    assert [] + responses == responses;
    OneMoreStep(s2, TakeRequestResult, s3);
    OneMoreStep(s3, TakeResponseResult, s);
  }
}
