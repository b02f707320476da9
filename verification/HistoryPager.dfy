/** Reading the call log: filtering, counting and paging (internal/domain/history/recorder.go). */
module HistoryPager {
  import opened Utf8
  import opened Bounds
  import opened HistoryLog
  import opened HistoryStore
  import opened Subsequences

  // The pager that keeps only a ring of the newest matches is compared with the one that filters
  // everything and slices (historyWindow in internal/app/rest_dashboard.go).

  datatype FilterOpts = FilterOpts(service: Bytes, rpc: Bytes, session: Bytes, errorOnly: bool)

  /** Empty criteria do not filter; a record without a session is visible to every session. */
  predicate Selects(o: FilterOpts, c: CallRecord) {
    && (o.service == [] || c.service == o.service)
    && (o.rpc == [] || c.rpc == o.rpc)
    && (o.session == [] || c.session == [] || c.session == o.session)
    && (!o.errorOnly || c.code != 0 || c.error != [])
  }

  ghost function Selected(o: FilterOpts, log: seq<StoredRecord>): seq<CallRecord> {
    if log == [] then []
    else
      var earlier, last := Selected(o, log[..|log| - 1]), log[|log| - 1].call;
      if Selects(o, last) then earlier + [last] else earlier
  }

  ghost function SelectedUpTo(o: FilterOpts, log: seq<StoredRecord>, i: nat): seq<CallRecord>
    requires i <= |log|
  {
    Selected(o, log[..i])
  }

  lemma SelectedStep(o: FilterOpts, log: seq<StoredRecord>, i: nat)
    requires i < |log|
    ensures SelectedUpTo(o, log, i + 1) ==
            if Selects(o, log[i].call) then SelectedUpTo(o, log, i) + [log[i].call] else SelectedUpTo(o, log, i)
  {
    assert log[..i + 1][..i] == log[..i];
  }

  lemma SelectedEnds(o: FilterOpts, log: seq<StoredRecord>)
    ensures SelectedUpTo(o, log, 0) == [] && SelectedUpTo(o, log, |log|) == Selected(o, log)
  {
    assert log[..|log|] == log;
  }

  // ----- What is selected

  function CallsOf(log: seq<StoredRecord>): seq<CallRecord> {
    seq(|log|, i requires 0 <= i < |log| => log[i].call)
  }

  /** Nothing is returned that has another service or method than one asked for, belongs to a session
      other than one asked for, or is clean if errors are asked for. */
  ghost predicate OnlyAsked(o: FilterOpts, out: seq<CallRecord>) {
    forall c :: c in out ==>
      && (|o.service| > 0 ==> c.service == o.service)
      && (|o.rpc| > 0 ==> c.rpc == o.rpc)
      && (|o.session| > 0 && |c.session| > 0 ==> c.session == o.session)
      && (o.errorOnly ==> c.code > 0 || |c.error| > 0)
  }

  /** Every call that meets what is asked for is returned as often as it is held. */
  ghost predicate AllAsked(o: FilterOpts, out: seq<CallRecord>, log: seq<StoredRecord>) {
    forall c :: OnlyAsked(o, [c]) ==> multiset(out)[c] == multiset(CallsOf(log))[c]
  }

  /** Exactly the calls asked for, in the order of the log; without criteria, the whole log. */
  ghost predicate Answers(o: FilterOpts, out: seq<CallRecord>, log: seq<StoredRecord>) {
    && OnlyAsked(o, out) && AllAsked(o, out, log) && Subsequence(out, CallsOf(log))
    && (o == FilterOpts([], [], [], false) ==> out == CallsOf(log))
  }

  lemma SelectedAnswers(o: FilterOpts, log: seq<StoredRecord>)
    ensures Answers(o, Selected(o, log), log)
  {
    SelectedOnly(o, log);
    SelectedAll(o, log);
    SelectedInOrder(o, log);
    SelectedUnasked(o, log);
    hide Selected, OnlyAsked, AllAsked, Subsequence, CallsOf;
  }

  lemma SelectsAsked(o: FilterOpts, c: CallRecord)
    ensures Selects(o, c) <==> OnlyAsked(o, [c])
  {
  }

  lemma SelectedLast(o: FilterOpts, log: seq<StoredRecord>)
    requires log != []
    ensures var before, last := log[..|log| - 1], log[|log| - 1].call;
      && CallsOf(log) == CallsOf(before) + [last]
      && Selected(o, log) == if OnlyAsked(o, [last]) then Selected(o, before) + [last] else Selected(o, before)
  {
    SelectsAsked(o, log[|log| - 1].call);
    hide Selects, OnlyAsked;
  }

  lemma {:induction false} SelectedOnly(o: FilterOpts, log: seq<StoredRecord>)
    ensures OnlyAsked(o, Selected(o, log))
  {
    if log != [] {
      SelectedLast(o, log);
      SelectedOnly(o, log[..|log| - 1]);
      var last := log[|log| - 1].call;
      assert last in [last];
    }
  }

  lemma {:induction false} SelectedAll(o: FilterOpts, log: seq<StoredRecord>)
    ensures AllAsked(o, Selected(o, log), log)
  {
    hide OnlyAsked;
    if log != [] {
      SelectedLast(o, log);
      SelectedAll(o, log[..|log| - 1]);
    }
  }

  lemma {:induction false} SelectedInOrder(o: FilterOpts, log: seq<StoredRecord>)
    ensures Subsequence(Selected(o, log), CallsOf(log))
  {
    hide OnlyAsked, Subsequence;
    if log == [] {
      NothingPicked(CallsOf(log));
    } else {
      var before, last := log[..|log| - 1], log[|log| - 1].call;
      SelectedLast(o, log);
      SelectedInOrder(o, before);
      OneMorePicked(Selected(o, before), CallsOf(before), last);
    }
  }

  lemma {:induction false} SelectedUnasked(o: FilterOpts, log: seq<StoredRecord>)
    ensures o == FilterOpts([], [], [], false) ==> Selected(o, log) == CallsOf(log)
  {
    if log != [] {
      SelectedUnasked(o, log[..|log| - 1]);
    }
  }

  ghost predicate AnswersCount(o: FilterOpts, total: nat, log: seq<StoredRecord>) {
    exists out :: Answers(o, out, log) && total == |out|
  }

  ghost predicate AnswersPage(o: FilterOpts, page: seq<CallRecord>, total: nat, limit: int, offset: int,
                              log: seq<StoredRecord>) {
    exists all :: Answers(o, all, log) && total == |all| && IsPage(page, all, limit, offset)
  }

  /** Behind the page stand the `offset` newest, as far as there are that many; the page holds `limit`
      of the others, as far as there are that many, or all of them if no limit is set. */
  ghost predicate IsPage(page: seq<CallRecord>, all: seq<CallRecord>, limit: int, offset: int) {
    exists older, newer ::
      && all == older + page + newer
      && |newer| == (if offset <= 0 then 0 else Min(offset, |all|))
      && (limit > 0 ==> |page| <= limit)
      && (limit <= 0 || |page| < limit ==> older == [])
  }

  /** The simple pager: the newest `limit` matches after skipping the `offset` newest; all of the
      others when the limit is not positive. */
  function Window(matches: seq<CallRecord>, limit: int, offset: int): seq<CallRecord> {
    var end := FromZero(|matches| - FromZero(offset));
    var start := if limit > 0 then FromZero(end - limit) else 0;
    matches[start..end]
  }

  lemma WindowAnswers(o: FilterOpts, log: seq<StoredRecord>, limit: int, offset: int)
    ensures var all := Selected(o, log); AnswersPage(o, Window(all, limit, offset), |all|, limit, offset, log)
  {
    SelectedAnswers(o, log);
    WindowIsPage(Selected(o, log), limit, offset);
    hide Answers, IsPage, Selected, Window;
  }

  lemma CountAnswers(o: FilterOpts, log: seq<StoredRecord>)
    ensures AnswersCount(o, |Selected(o, log)|, log)
  {
    SelectedAnswers(o, log);
    hide Answers, Selected;
  }

  lemma WindowIsPage(all: seq<CallRecord>, limit: int, offset: int)
    ensures IsPage(Window(all, limit, offset), all, limit, offset)
  {
    var end := FromZero(|all| - FromZero(offset));
    var start := if limit > 0 then FromZero(end - limit) else 0;
    assert all == all[..start] + all[start..end] + all[end..];
  }

  method CallAt(store: MemoryStore, i: nat) returns (c: CallRecord)
    requires store.Valid() && i < store.count
    ensures i < |store.Calls()| && c == store.Calls()[i].call
  {
    c := store.backing[store.first + i].call;
  }

  method Filter(store: MemoryStore, o: FilterOpts) returns (out: seq<CallRecord>)
    requires store.Valid()
    ensures out == Selected(o, store.Calls()) && Answers(o, out, store.Calls())
  {
    ghost var log := store.Calls();
    SelectedEnds(o, log);
    SelectedAnswers(o, log);
    hide Selected, SelectedUpTo, Answers;
    out := [];
    for i := 0 to store.count
      invariant out == SelectedUpTo(o, log, i)
    {
      var c := CallAt(store, i);
      SelectedStep(o, log, i);
      if Selects(o, c) {
        out := out + [c];
      }
    }
  }

  method CountFilter(store: MemoryStore, o: FilterOpts) returns (total: nat)
    requires store.Valid()
    ensures total == |Selected(o, store.Calls())| && AnswersCount(o, total, store.Calls())
  {
    ghost var log := store.Calls();
    SelectedEnds(o, log);
    hide Selected, SelectedUpTo, AnswersCount, Selects;
    total := 0;
    for i := 0 to store.count
      invariant total == |SelectedUpTo(o, log, i)|
    {
      var c := CallAt(store, i);
      SelectedStep(o, log, i);
      if Selects(o, c) {
        total := total + 1;
      }
    }
    CountAnswers(o, log);
  }

  /** historyWindow without a reader that pages for itself. */
  method HistoryWindow(store: MemoryStore, o: FilterOpts, limit: int, offset: int)
    returns (page: seq<CallRecord>, total: nat)
    requires store.Valid()
    ensures page == Window(Selected(o, store.Calls()), limit, offset)
    ensures total == |Selected(o, store.Calls())|
    ensures AnswersPage(o, page, total, limit, offset, store.Calls())
  {
    hide Selected, Answers, AnswersPage;
    var calls := Filter(store, o);
    total := |calls|;
    var end := FromZero(total - FromZero(offset));
    var start := 0;
    if limit > 0 {
      start := FromZero(end - limit);
    }
    page := calls[start..end];
    assert page == Window(calls, limit, offset);
    hide *;
    WindowAnswers(o, store.Calls(), limit, offset);
  }

  /** The ring pager answers the same, for every limit and offset. */
  method FilterWindow(store: MemoryStore, o: FilterOpts, limit: int, offset: int)
    returns (page: seq<CallRecord>, total: nat)
    requires store.Valid()
    ensures page == Window(Selected(o, store.Calls()), limit, offset)
    ensures total == |Selected(o, store.Calls())|
    ensures AnswersPage(o, page, total, limit, offset, store.Calls())
  {
    var skip := FromZero(offset);
    if limit <= 0 {
      var matches := Filter(store, o);
      page, total := matches[..FromZero(|matches| - skip)], |matches|;
      assert page == Window(matches, limit, offset);
      hide *;
      WindowAnswers(o, store.Calls(), limit, offset);
      return;
    }
    var size := limit + skip;
    var ring, n := FillRing(store, o, size);
    total := n;
    ghost var matches := Selected(o, store.Calls());
    hide *;
    var kept := Min(total, size);
    var ordered := Unroll(ring, size, total, kept, matches);
    PageOfNewest(matches, limit, offset, skip, kept);
    var end := FromZero(|ordered| - skip);
    PageBounds(|ordered|, skip, limit);
    page := ordered[FromZero(end - limit)..end];
    WindowAnswers(o, store.Calls(), limit, offset);
  }

  // ----- The ring

  const NO_RECORD := CallRecord([], [], [], [], [], map[], 0, [])

  function Slot(k: nat, size: nat): (i: nat)
    requires 0 < size
    ensures i < size
  {
    k % size
  }

  /** The slot of k, which is k modulo the size, holds match k, for the newest `size` matches. */
  ghost predicate RingHolds(ring: seq<CallRecord>, size: nat, matches: seq<CallRecord>) {
    && 0 < size == |ring|
    && forall k: nat :: k < |matches| && |matches| - size <= k ==> ring[Slot(k, size)] == matches[k]
  }

  lemma RingAdds(ring: seq<CallRecord>, size: nat, matches: seq<CallRecord>, c: CallRecord)
    requires RingHolds(ring, size, matches)
    ensures Slot(|matches|, size) < |ring|
    ensures RingHolds(ring[Slot(|matches|, size) := c], size, matches + [c])
  {
    hide Slot;
    var n := |matches|;
    var next, more := ring[Slot(n, size) := c], matches + [c];
    forall k: nat | k < n + 1 && n + 1 - size <= k ensures next[Slot(k, size)] == more[k] {
      if k < n {
        SlotsDiffer(k, n, size);
      }
    }
  }

  lemma SlotsDiffer(k: nat, n: nat, size: nat)
    requires n - size < k < n && 0 < size
    ensures Slot(k, size) != Slot(n, size)
  {
    if k % size == n % size {
      var a, b := k / size, n / size;
      assert n - k == size * (b - a);
      Multiple(size, b - a);
    }
  }

  lemma Multiple(size: nat, q: int)
    ensures 0 < size * q ==> size * q >= size
  {
  }

  method FillRing(store: MemoryStore, o: FilterOpts, size: nat) returns (ring: array<CallRecord>, total: nat)
    requires store.Valid() && 0 < size
    ensures fresh(ring) && RingHolds(ring[..], size, Selected(o, store.Calls()))
    ensures total == |Selected(o, store.Calls())|
  {
    ring := new CallRecord[size](_ => NO_RECORD);
    ghost var log := store.Calls();
    SelectedEnds(o, log);
    assert RingHolds(ring[..], size, []);
    total := 0;
    for i := 0 to store.count
      invariant RingHolds(ring[..], size, SelectedUpTo(o, log, i)) && total == |SelectedUpTo(o, log, i)|
    {
      var c := CallAt(store, i);
      SelectedStep(o, log, i);
      hide *;
      if Selects(o, c) {
        RingAdds(ring[..], size, SelectedUpTo(o, log, i), c);
        SetSlot(ring, Slot(total, size), c);
        total := total + 1;
      }
    }
  }

  method SetSlot(ring: array<CallRecord>, k: int, c: CallRecord)
    requires 0 <= k < ring.Length
    modifies ring
    ensures ring[..] == old(ring[..])[k := c]
  {
    ring[k] := c;
  }

  method Unroll(ring: array<CallRecord>, size: nat, total: nat, kept: nat, ghost matches: seq<CallRecord>)
    returns (ordered: seq<CallRecord>)
    requires RingHolds(ring[..], size, matches) && total == |matches| && kept == Min(total, size)
    ensures kept <= |matches| && ordered == matches[|matches| - kept..]
  {
    hide Slot;
    ordered := [];
    for i := 0 to kept
      invariant ordered == matches[total - kept..total - kept + i]
    {
      var slot := Slot(total - kept + i, size);
      assert ring[..][slot] == matches[total - kept + i];
      ordered := ordered + [ring[slot]];
    }
  }

  lemma PageBounds(n: nat, skip: nat, limit: int)
    requires limit > 0
    ensures var end := FromZero(n - skip); 0 <= FromZero(end - limit) <= end <= n
  {
  }

  lemma PageOfNewest(matches: seq<CallRecord>, limit: int, offset: int, skip: nat, kept: nat)
    requires limit > 0 && skip == FromZero(offset) && kept == Min(|matches|, limit + skip)
    ensures var ordered := matches[|matches| - kept..];
      var end := FromZero(|ordered| - skip);
      ordered[FromZero(end - limit)..end] == Window(matches, limit, offset)
  {
  }

  // ----- Paging through

  /** The first p pages of the given size, put back in the order of the log. */
  function Pages(matches: seq<CallRecord>, size: nat, p: nat): seq<CallRecord> {
    if p == 0 then [] else Window(matches, size, (p - 1) * size) + Pages(matches, size, p - 1)
  }

  /** Page after page, newest first, nothing is repeated and nothing is missed. */
  lemma {:induction false} PagesCover(matches: seq<CallRecord>, size: nat, p: nat)
    requires size > 0
    ensures p * size >= 0 && Pages(matches, size, p) == matches[FromZero(|matches| - p * size)..]
    ensures p * size >= |matches| ==> Pages(matches, size, p) == matches
  {
    if p > 0 {
      PagesCover(matches, size, p - 1);
      NextPage(matches, size, (p - 1) * size);
      assert p * size == (p - 1) * size + size;
      hide Window;
    }
  }

  lemma NextPage(matches: seq<CallRecord>, size: nat, offset: nat)
    requires size > 0
    ensures Window(matches, size, offset) + matches[FromZero(|matches| - offset)..]
         == matches[FromZero(|matches| - (offset + size))..]
  {
    WindowIsSlice(matches, size, offset);
    hide *;
    var start, end := FromZero(|matches| - (offset + size)), FromZero(|matches| - offset);
    assert matches[start..end] + matches[end..] == matches[start..];
  }

  lemma WindowIsSlice(matches: seq<CallRecord>, size: nat, offset: nat)
    requires size > 0
    ensures var start, end := FromZero(|matches| - (offset + size)), FromZero(|matches| - offset);
      start <= end <= |matches| && Window(matches, size, offset) == matches[start..end]
  {
  }

}
