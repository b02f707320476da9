/** What a filter leaves: elements of the original list, in its order.

    A loop that appends some of the elements it passes builds such a list one element at a time, and
    the lemma follows it. How often each element is left is a matter of multisets and is stated where
    the filter is. The two filters proved with it are the one that skips nil entries of an uploaded
    descriptor set and the one that selects calls from the history. */
module Subsequences {
  /** `at` gives the positions in `all` of the elements of s, one after the other. */
  ghost predicate Picks<T(!new)>(at: seq<nat>, s: seq<T>, all: seq<T>) {
    && |at| == |s|
    && (forall i, j :: 0 <= i < j < |at| ==> at[i] < at[j])
    && forall i :: 0 <= i < |at| ==> at[i] < |all| && all[at[i]] == s[i]
  }

  ghost predicate Subsequence<T(!new)>(s: seq<T>, all: seq<T>) {
    exists at: seq<nat> :: Picks(at, s, all)
  }

  lemma NothingPicked<T(!new)>(all: seq<T>)
    ensures Subsequence([], all)
  {
    assert Picks([], [], all);
  }

  lemma OneMorePicked<T(!new)>(s: seq<T>, all: seq<T>, x: T)
    requires Subsequence(s, all)
    ensures Subsequence(s, all + [x]) && Subsequence(s + [x], all + [x])
  {
    var at: seq<nat> :| Picks(at, s, all);
    assert Picks(at, s, all + [x]);
    assert Picks(at + [|all|], s + [x], all + [x]);
  }
}
