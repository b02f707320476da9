/** The store itself: a slice of a growing backing array, trimmed from the front by the budget and
    compacted in place when a session is deleted (internal/domain/history/recorder.go).

    The array is written only behind the slice or, on deletion, within it: the place written never
    runs ahead of the place read. Each method is proved against one step of the log as a value. */
module HistoryStore {
  import opened Utf8
  import opened HistoryLog

  class MemoryStore {
    const settings: Settings
    var backing: array<StoredRecord>
    var first: nat
    var count: nat
    var currentBytes: int

    ghost predicate Valid()
      reads this, backing
    {
      && first + count <= backing.Length
      && currentBytes == Total(Calls())
    }

    ghost function Calls(): seq<StoredRecord>
      reads this, backing
      requires first + count <= backing.Length
    {
      backing[first..first + count]
    }

    constructor (settings: Settings)
      ensures Valid() && Calls() == [] && this.settings == settings && fresh(backing)
    {
      this.settings := settings;
      backing := new StoredRecord[0];
      first, count, currentBytes := 0, 0, 0;
    }

    /** Go's append: in place while there is capacity, otherwise into a larger array. */
    method Append(r: StoredRecord)
      requires first + count <= backing.Length
      modifies this`backing, this`first, this`count, backing
      ensures first + count <= backing.Length && Calls() == old(Calls()) + [r]
      ensures backing == old(backing) || fresh(backing)
    {
      if first + count < backing.Length {
        backing[first + count] := r;
        count := count + 1;
      } else {
        var a := new StoredRecord[2 * count + 1](_ => r);
        for i := 0 to count
          invariant unchanged(this) && unchanged(backing) && fresh(a)
          invariant forall j :: 0 <= j < i ==> a[j] == backing[first + j]
          invariant forall j :: i <= j < a.Length ==> a[j] == r
        {
          a[i] := backing[first + i];
        }
        backing, first, count := a, 0, count + 1;
      }
    }

    method RecordOwned(call: CallRecord)
      requires Valid()
      modifies this, backing
      ensures Valid() && (backing == old(backing) || fresh(backing))
      ensures Calls() == After(settings, old(Calls()), Record(call))
    {
      hide Total, Evict, OverBudget;
      var r := Stored(settings, call);
      ghost var log := Calls() + [r];
      Append(r);
      TotalAppend(old(Calls()), r);
      hide Stored;
      currentBytes := currentBytes + r.size;
      while settings.limit > 0 && currentBytes > settings.limit && count > 1
        invariant backing == old(backing) || fresh(backing)
        invariant Holds(log) && currentBytes == Total(log)
        invariant Evict(settings.limit, log) == Evict(settings.limit, old(Calls()) + [r])
        decreases count
      {
        EvictStep(settings.limit, log);
        DropOldest(log);
        log := log[1..];
      }
      EvictStep(settings.limit, log);
      HoldsExactly(log);
    }

    method DropOldest(ghost log: seq<StoredRecord>)
      requires Holds(log) && currentBytes == Total(log) && count > 1
      modifies this`first, this`count, this`currentBytes
      ensures Holds(log[1..]) && currentBytes == Total(log[1..]) && count == old(count) - 1
    {
      TotalDropFirst(log);
      currentBytes := currentBytes - backing[first].size;
      first, count := first + 1, count - 1;
    }

    /** The slice holds `log`, element by element. */
    ghost predicate Holds(log: seq<StoredRecord>)
      reads this, backing
    {
      first + count <= backing.Length && |log| == count && forall j :: 0 <= j < count ==> backing[first + j] == log[j]
    }

    lemma HoldsExactly(log: seq<StoredRecord>)
      requires Holds(log)
      ensures Calls() == log
    {
    }

    method Clear()
      requires Valid()
      modifies this
      ensures Valid() && Calls() == [] && fresh(backing)
    {
      backing := new StoredRecord[0];
      first, count, currentBytes := 0, 0, 0;
    }

    /** Compacts over the slice it is reading: the write index never passes the read index. */
    method DeleteSession(session: Bytes) returns (deleted: nat)
      requires Valid()
      modifies this, backing
      ensures Valid() && backing == old(backing)
      ensures Calls() == After(settings, old(Calls()), HistoryLog.DeleteSession(session))
      ensures deleted == |old(Calls())| - |Calls()|
    {
      if session == [] {
        return 0;
      }
      hide OthersThan, Total;
      var kept, removed, bytesAfter := Compact(backing, first, count, session);
      count, currentBytes := kept, bytesAfter;
      deleted := removed;
    }

    static method Compact(a: array<StoredRecord>, first: nat, count: nat, session: Bytes)
      returns (kept: int, deleted: int, bytesAfter: int)
      requires first + count <= a.Length
      modifies a
      ensures 0 <= kept <= count && deleted == count - kept
      ensures var others := OthersThan(session, old(a[first..first + count]));
        a[first..first + kept] == others && bytesAfter == Total(others)
    {
      hide *;
      kept, deleted, bytesAfter := 0, 0, 0;
      ghost var was := a[first..first + count];
      CompactingStart(a[..], first, was, session);
      for i := 0 to count
        invariant Compacting(a[..], first, was, session, i, kept, deleted, bytesAfter)
      {
        ghost var before := a[..];
        CompactingNext(before, first, was, session, i, kept, deleted, bytesAfter);
        var rec := a[first + i];
        if rec.call.session == session {
          deleted := deleted + 1;
        } else {
          Put(a, first + kept, rec);
          kept := kept + 1;
          bytesAfter := bytesAfter + rec.size;
        }
      }
      CompactingEnd(a[..], first, was, session, kept, deleted, bytesAfter);
    }
  }

  method Put(a: array<StoredRecord>, k: int, r: StoredRecord)
    requires 0 <= k < a.Length
    modifies a
    ensures a[..] == old(a[..])[k := r]
  {
    a[k] := r;
  }

  /** Halfway through: the kept records stand at the front, and what is still to be read is
      untouched. */
  ghost predicate Compacting(view: seq<StoredRecord>, first: nat, was: seq<StoredRecord>, session: Bytes,
                             i: int, kept: int, deleted: int, bytes: int) {
    && 0 <= kept <= i <= |was| && deleted == i - kept && first + |was| <= |view|
    && view[first..first + kept] == OthersUpTo(session, was, i)
    && bytes == Total(OthersUpTo(session, was, i))
    && forall j :: i <= j < |was| ==> view[first + j] == was[j]
  }

  lemma CompactingStart(view: seq<StoredRecord>, first: nat, was: seq<StoredRecord>, session: Bytes)
    requires first + |was| <= |view| && was == view[first..first + |was|]
    ensures Compacting(view, first, was, session, 0, 0, 0, 0)
  {
  }

  lemma CompactingNext(view: seq<StoredRecord>, first: nat, was: seq<StoredRecord>, session: Bytes,
                       i: int, kept: int, deleted: int, bytes: int)
    requires Compacting(view, first, was, session, i, kept, deleted, bytes) && i < |was|
    ensures 0 <= first + kept <= first + i < |view|
    ensures var rec := view[first + i];
      if rec.call.session == session then Compacting(view, first, was, session, i + 1, kept, deleted + 1, bytes)
      else Compacting(view[first + kept := rec], first, was, session, i + 1, kept + 1, deleted, bytes + rec.size)
  {
    var rec := view[first + i];
    OthersStep(session, was, i);
    TotalAppend(OthersUpTo(session, was, i), rec);
    hide Total, OthersUpTo;
    if rec.call.session != session {
      SliceExtends(view, first, first + kept, rec);
    }
  }

  lemma SliceExtends(view: seq<StoredRecord>, lo: nat, hi: nat, r: StoredRecord)
    requires lo <= hi < |view|
    ensures view[hi := r][lo..hi + 1] == view[lo..hi] + [r]
  {
  }

  lemma CompactingEnd(view: seq<StoredRecord>, first: nat, was: seq<StoredRecord>, session: Bytes,
                      kept: int, deleted: int, bytes: int)
    requires Compacting(view, first, was, session, |was|, kept, deleted, bytes)
    ensures 0 <= kept <= |was| && deleted == |was| - kept && first + kept <= |view|
    ensures view[first..first + kept] == OthersThan(session, was)
    ensures bytes == Total(OthersThan(session, was))
  {
    OthersEnds(session, was);
  }
}
