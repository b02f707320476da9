/** Insertion sort by a strict order, which stands for Go's sort functions.

    Where the order ties, the sort is stable. Go's own may not be; no contract here depends on that,
    since names that tie are equal, and import roots of one length are interchangeable for all that is
    said about them. */
module Sorting {
  function Insert<T>(less: (T, T) -> bool, x: T, s: seq<T>): seq<T> {
    if s == [] then [x]
    else if less(s[0], x) then [s[0]] + Insert(less, x, s[1..])
    else [x] + s
  }

  function Sort<T>(less: (T, T) -> bool, s: seq<T>): seq<T> {
    if s == [] then [] else Insert(less, s[0], Sort(less, s[1..]))
  }

  ghost predicate Sorted<T>(less: (T, T) -> bool, s: seq<T>) {
    forall i, j :: 0 <= i < j < |s| ==> !less(s[j], s[i])
  }

  /** A strict weak order. */
  ghost predicate IsStrictWeak<T(!new)>(less: (T, T) -> bool) {
    && (forall a, b :: less(a, b) ==> !less(b, a))
    && forall a, b, c :: less(a, c) ==> less(a, b) || less(b, c)
  }

  lemma {:induction false} InsertSorts<T(!new)>(less: (T, T) -> bool, x: T, s: seq<T>)
    requires IsStrictWeak(less) && Sorted(less, s)
    ensures Sorted(less, Insert(less, x, s)) && multiset(Insert(less, x, s)) == multiset(s) + multiset{x}
  {
    if s != [] {
      var h, rest := s[0], s[1..];
      assert s == [h] + rest;
      if less(h, x) {
        InsertSorts(less, x, rest);
        var t := Insert(less, x, rest);
        forall j | 0 <= j < |t| ensures !less(t[j], h) {
          assert t[j] in multiset(t);
          assert t[j] == x || t[j] in rest;
        }
      } else {
        forall j | 0 <= j < |s| ensures !less(s[j], x) {
          assert j == 0 || !less(s[j], h);
          Split(less, s[j], h, x);
        }
      }
    }
  }

  lemma Split<T(!new)>(less: (T, T) -> bool, a: T, b: T, c: T)
    requires IsStrictWeak(less)
    ensures less(a, c) ==> less(a, b) || less(b, c)
  {
  }

  lemma {:induction false} SortSorts<T(!new)>(less: (T, T) -> bool, s: seq<T>)
    requires IsStrictWeak(less)
    ensures Sorted(less, Sort(less, s)) && multiset(Sort(less, s)) == multiset(s)
  {
    if s != [] {
      SortSorts(less, s[1..]);
      InsertSorts(less, s[0], Sort(less, s[1..]));
      assert s == [s[0]] + s[1..];
    }
  }
}
