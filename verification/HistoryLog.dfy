/** The byte-budgeted call log of internal/domain/history/recorder.go. */
module HistoryLog {
  import opened Utf8
  import opened Json

  type Fields = map<Bytes, Json>

  datatype CallRecord = CallRecord(
    service: Bytes,
    rpc: Bytes,
    session: Bytes,
    requests: seq<Fields>,
    responses: seq<Fields>,
    responseHeaders: map<Bytes, Bytes>,
    code: nat,
    error: Bytes)

  datatype StoredRecord = StoredRecord(call: CallRecord, size: nat)

  // ----- The log as a value

  function Total(log: seq<StoredRecord>): nat {
    if log == [] then 0 else Total(log[..|log| - 1]) + log[|log| - 1].size
  }

  lemma {:induction false} TotalDropFirst(log: seq<StoredRecord>)
    requires log != []
    ensures Total(log) == log[0].size + Total(log[1..])
  {
    if |log| > 1 {
      TotalDropFirst(log[..|log| - 1]);
      assert log[..|log| - 1][1..] == log[1..][..|log| - 2];
    }
  }

  lemma TotalAppend(log: seq<StoredRecord>, r: StoredRecord)
    ensures Total(log + [r]) == Total(log) + r.size
  {
  }

  predicate OverBudget(limit: int, log: seq<StoredRecord>) {
    limit > 0 && Total(log) > limit && |log| > 1
  }

  /** Drop the oldest records until the rest fits or only one is left. */
  function Evict(limit: int, log: seq<StoredRecord>): seq<StoredRecord> {
    if OverBudget(limit, log) then Evict(limit, log[1..]) else log
  }

  lemma EvictStep(limit: int, log: seq<StoredRecord>)
    ensures Evict(limit, log) ==
            if limit > 0 && Total(log) > limit && |log| > 1 then Evict(limit, log[1..]) else log
  {
  }

  function OthersThan(session: Bytes, log: seq<StoredRecord>): seq<StoredRecord> {
    if log == [] then []
    else
      var earlier := OthersThan(session, log[..|log| - 1]);
      if log[|log| - 1].call.session == session then earlier else earlier + [log[|log| - 1]]
  }

  ghost function OthersUpTo(session: Bytes, log: seq<StoredRecord>, i: nat): seq<StoredRecord>
    requires i <= |log|
  {
    OthersThan(session, log[..i])
  }

  lemma OthersStep(session: Bytes, log: seq<StoredRecord>, i: nat)
    requires i < |log|
    ensures OthersUpTo(session, log, i + 1) ==
            if log[i].call.session == session then OthersUpTo(session, log, i)
            else OthersUpTo(session, log, i) + [log[i]]
  {
    assert log[..i + 1][..i] == log[..i];
  }

  lemma OthersEnds(session: Bytes, log: seq<StoredRecord>)
    ensures OthersUpTo(session, log, 0) == [] && Total([]) == 0
    ensures OthersUpTo(session, log, |log|) == OthersThan(session, log)
  {
    assert log[..|log|] == log;
  }

  // ----- Whole runs

  datatype Event = Record(call: CallRecord) | DeleteSession(session: Bytes) | Clear

  /** The byte limit (none unless positive), what is done to a record before it is kept, and the
      size estimate of what is kept. */
  datatype Settings = Settings(limit: int, prepare: CallRecord -> CallRecord, estimate: CallRecord -> nat)

  function Stored(c: Settings, call: CallRecord): StoredRecord {
    var kept := c.prepare(call);
    StoredRecord(kept, c.estimate(kept))
  }

  function After(c: Settings, log: seq<StoredRecord>, e: Event): seq<StoredRecord> {
    match e
    case Record(call) => Evict(c.limit, log + [Stored(c, call)])
    case DeleteSession(session) => if session == [] then log else OthersThan(session, log)
    case Clear => []
  }

  function Played(c: Settings, events: seq<Event>): seq<StoredRecord> {
    if events == [] then [] else After(c, Played(c, events[..|events| - 1]), events[|events| - 1])
  }

  // ----- Records only: the longest suffix that fits

  function Recorded(c: Settings, calls: seq<CallRecord>): seq<StoredRecord> {
    seq(|calls|, i requires 0 <= i < |calls| => Stored(c, calls[i]))
  }

  predicate Fits(limit: int, log: seq<StoredRecord>) {
    limit <= 0 || Total(log) <= limit || |log| <= 1
  }

  /** The suffix of `all` from k fits, and no longer suffix does. */
  predicate LongestFitting(limit: int, all: seq<StoredRecord>, k: nat) {
    && k <= |all|
    && Fits(limit, all[k..])
    && forall h :: 0 <= h < k ==> !Fits(limit, all[h..])
  }

  lemma {:induction false} EvictKeepsLongest(limit: int, log: seq<StoredRecord>) returns (k: nat)
    ensures LongestFitting(limit, log, k) && Evict(limit, log) == log[k..]
  {
    if OverBudget(limit, log) {
      var h := EvictKeepsLongest(limit, log[1..]);
      k := h + 1;
      assert log[1..][h..] == log[k..];
      forall g | 0 <= g < k ensures !Fits(limit, log[g..]) {
        assert g > 0 ==> log[g..] == log[1..][g - 1..];
        assert g == 0 ==> log[g..] == log;
      }
    } else {
      k := 0;
      assert log[0..] == log;
    }
  }

  /** `after` is the longest suffix that fits of `before` and one more record: what was prepared of the
      call, with the size of that. */
  ghost predicate KeepsLongest(c: Settings, before: seq<StoredRecord>, call: CallRecord, after: seq<StoredRecord>) {
    var all := before + [StoredRecord(c.prepare(call), c.estimate(c.prepare(call)))];
    exists k: nat :: LongestFitting(c.limit, all, k) && after == all[k..]
  }

  /** One record: the oldest ones go, as few as possible. */
  lemma AfterKeepsLongest(c: Settings, log: seq<StoredRecord>, call: CallRecord)
    ensures KeepsLongest(c, log, call, After(c, log, Record(call)))
  {
    var k := EvictKeepsLongest(c.limit, log + [Stored(c, call)]);
    hide Evict, LongestFitting;
  }

  /** One more record: the longest suffix that fits is found among what was kept. */
  lemma LongestGrows(limit: int, all: seq<StoredRecord>, h: nat, r: StoredRecord) returns (k: nat)
    requires LongestFitting(limit, all, h)
    ensures LongestFitting(limit, all + [r], k) && Evict(limit, all[h..] + [r]) == (all + [r])[k..]
  {
    var log, more := all[h..] + [r], all + [r];
    assert log == more[h..];
    var g := EvictKeepsLongest(limit, log);
    k := h + g;
    assert log[g..] == more[k..];
    forall f | 0 <= f < k ensures !Fits(limit, more[f..]) {
      if f < h {
        assert more[f..] == all[f..] + [r];
        assert OverBudget(limit, all[f..] + [r]);
      } else {
        assert more[f..] == log[f - h..];
      }
    }
  }

  function Records(calls: seq<CallRecord>): seq<Event> {
    seq(|calls|, i requires 0 <= i < |calls| => Record(calls[i]))
  }

  /** After any run of records, the log is the longest suffix of all records ever made that fits
      the budget, or the last record alone. */
  lemma {:induction false} RecordsKeepLongest(c: Settings, calls: seq<CallRecord>) returns (k: nat)
    ensures LongestFitting(c.limit, Recorded(c, calls), k)
    ensures Played(c, Records(calls)) == Recorded(c, calls)[k..]
    decreases |calls|
  {
    if calls == [] {
      k := 0;
    } else {
      var before, last := calls[..|calls| - 1], calls[|calls| - 1];
      var h := RecordsKeepLongest(c, before);
      k := LongestGrows(c.limit, Recorded(c, before), h, Stored(c, last));
      assert Records(calls)[..|calls| - 1] == Records(before);
      assert Recorded(c, calls) == Recorded(c, before) + [Stored(c, last)];
    }
  }

  // ----- Any run

  /** Whatever is kept was recorded, has been prepared, and is accounted for with its own size. */
  lemma {:induction false} KeptWasRecorded(c: Settings, events: seq<Event>, r: StoredRecord)
    ensures r in Played(c, events) ==> r.size == c.estimate(r.call)
    ensures r in Played(c, events) ==> exists call :: Record(call) in events && r.call == c.prepare(call)
  {
    if events != [] && r in Played(c, events) {
      var before, last := events[..|events| - 1], events[|events| - 1];
      var log := Played(c, before);
      KeptWasRecorded(c, before, r);
      match last
      case Record(call) =>
        var k := EvictKeepsLongest(c.limit, log + [Stored(c, call)]);
        assert Record(call) in events;
        assert r in log || r == Stored(c, call);
      case DeleteSession(session) => OthersAreKept(session, log, r);
      case Clear =>
    }
  }

  lemma {:induction false} OthersFitToo(session: Bytes, log: seq<StoredRecord>)
    ensures |OthersThan(session, log)| <= |log| && Total(OthersThan(session, log)) <= Total(log)
  {
    if log != [] {
      var before, last := log[..|log| - 1], log[|log| - 1];
      OthersFitToo(session, before);
      TotalAppend(OthersThan(session, before), last);
    }
  }

  /** Deletion removes exactly the records of the session. */
  lemma {:induction false} OthersAreKept(session: Bytes, log: seq<StoredRecord>, r: StoredRecord)
    ensures r in OthersThan(session, log) <==> r in log && r.call.session != session
    ensures multiset(OthersThan(session, log))[r] == if r.call.session == session then 0 else multiset(log)[r]
  {
    if log != [] {
      var before, last := log[..|log| - 1], log[|log| - 1];
      OthersAreKept(session, before, r);
      assert log == before + [last];
    }
  }

  /** Without a session nothing is lost; otherwise exactly its records, however often they occur. */
  ghost predicate LosesOnly(session: Bytes, before: seq<StoredRecord>, after: seq<StoredRecord>) {
    if session == [] then after == before
    else forall r ::
      multiset(after)[r] == if r.call.session == session then 0 else multiset(before)[r]
  }

  /** One deletion. */
  lemma DeletionLosesOnly(c: Settings, log: seq<StoredRecord>, session: Bytes)
    ensures LosesOnly(session, log, After(c, log, DeleteSession(session)))
  {
    if session != [] {
      forall r
        ensures multiset(OthersThan(session, log))[r] == if r.call.session == session then 0 else multiset(log)[r]
      {
        OthersAreKept(session, log, r);
      }
    }
  }

  lemma {:induction false} EvictFits(limit: int, log: seq<StoredRecord>)
    ensures Fits(limit, Evict(limit, log))
  {
    if OverBudget(limit, log) {
      EvictFits(limit, log[1..]);
    }
  }

  /** A positive budget is exceeded only by a single record, whatever is recorded or removed. */
  lemma {:induction false} BudgetHolds(c: Settings, events: seq<Event>)
    ensures c.limit > 0 ==> Total(Played(c, events)) <= c.limit || |Played(c, events)| == 1
  {
    if events != [] {
      var before, last := events[..|events| - 1], events[|events| - 1];
      BudgetHolds(c, before);
      var log := Played(c, before);
      match last
      case Record(call) => EvictFits(c.limit, log + [Stored(c, call)]);
      case DeleteSession(session) => OthersFitToo(session, log);
      case Clear =>
    }
  }

  ghost predicate IsSuffix(s: seq<StoredRecord>, of: seq<StoredRecord>) {
    |s| <= |of| && of[|of| - |s|..] == s
  }

  lemma {:induction false} EvictIsSuffix(limit: int, log: seq<StoredRecord>)
    ensures IsSuffix(Evict(limit, log), log)
  {
    if OverBudget(limit, log) {
      EvictIsSuffix(limit, log[1..]);
      var e := Evict(limit, log[1..]);
      assert log[|log| - |e|..] == log[1..][|log| - 1 - |e|..];
    }
  }

  lemma {:induction false} OthersOfSuffix(session: Bytes, s: seq<StoredRecord>, of: seq<StoredRecord>)
    requires IsSuffix(s, of)
    ensures IsSuffix(OthersThan(session, s), OthersThan(session, of))
    decreases |s|
  {
    if s != [] {
      var s', of' := s[..|s| - 1], of[..|of| - 1];
      assert of'[|of'| - |s'|..] == s';
      assert s[|s| - 1] == of[|of| - |s|..][|s| - 1] == of[|of| - 1];
      OthersOfSuffix(session, s', of');
    }
  }

  /** The budget only ever costs the oldest records: in every run of records, deletions and clears,
      the log is a suffix of what the same run leaves without a budget. */
  lemma {:induction false} BudgetDropsOldest(c: Settings, events: seq<Event>)
    ensures IsSuffix(Played(c, events), Played(c.(limit := 0), events))
  {
    if events != [] {
      var before, last := events[..|events| - 1], events[|events| - 1];
      BudgetDropsOldest(c, before);
      var log, full := Played(c, before), Played(c.(limit := 0), before);
      match last
      case Record(call) =>
        var r := Stored(c, call);
        EvictIsSuffix(c.limit, log + [r]);
        var e := Evict(c.limit, log + [r]);
        assert (full + [r])[|full| - |log|..] == log + [r];
        assert (full + [r])[|full| + 1 - |e|..] == (log + [r])[|log| + 1 - |e|..];
      case DeleteSession(session) => OthersOfSuffix(session, log, full);
      case Clear =>
    }
  }
}
