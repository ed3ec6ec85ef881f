/** `sortBy`: a recursive selection sort on a derived key. A key is an
    integer or `undefined`; JavaScript's `<` is false whenever either side is
    `undefined`, which makes an undefined key lose to every defined one. */
module Sorter {
  import opened Options
  import opened Sequences
  import opened Traversal

  /** The order the sort produces: defined keys ascending, `undefined` after
      every defined key. */
  predicate KeyLe(a: Option<int>, b: Option<int>)
  {
    b.None? || (a.Some? && a.value <= b.value)
  }

  /** `thisItVal < min` in JavaScript. */
  predicate JsLess(a: Option<int>, b: Option<int>)
  {
    a.Some? && b.Some? && a.value < b.value
  }

  /** The closure state of one scan of `recursiveSearch`: the least key seen
      so far (`min`) and where it was (`pushIndex`). */
  datatype Scan = Scan(min: Option<int>, pushIndex: nat)

  /** The visitor of one scan: a key replaces `min` when `min` is undefined
      and the key is not, or when it is strictly smaller. */
  function ScanVisit<T>(key: T -> Option<int>): (Scan, T, nat) -> Scan
  {
    (st: Scan, value: T, index: nat) =>
      var thisItVal := key(value);
      if (st.min.None? && thisItVal.Some?) || JsLess(thisItVal, st.min) then Scan(thisItVal, index) else st
  }

  /** `m` is where the scan of `s` stops: the first position holding a least
      key in the `KeyLe` order. */
  ghost predicate IsFirstMinimum<T>(s: seq<T>, key: T -> Option<int>, m: nat)
  {
    && m < |s|
    && (forall j :: 0 <= j < |s| ==> KeyLe(key(s[m]), key(s[j])))
    && (forall j :: 0 <= j < m ==> key(s[j]) != key(s[m]))
  }

  /** What one scan knows after visiting `s[..n]`. */
  ghost predicate ScanInvariant<T>(s: seq<T>, key: T -> Option<int>, st: Scan, n: nat)
  {
    && n <= |s|
    && (st.min.None? ==> st.pushIndex == 0 && forall j :: 0 <= j < n ==> key(s[j]).None?)
    && (st.min.Some? ==>
          && st.pushIndex < n
          && key(s[st.pushIndex]) == st.min
          && (forall j :: 0 <= j < n ==> KeyLe(st.min, key(s[j])))
          && (forall j :: 0 <= j < st.pushIndex ==> key(s[j]) != st.min))
  }

  lemma ScanTraversal<T>(s: seq<T>, key: T -> Option<int>)
    requires |s| > 0
    ensures IsFirstMinimum(s, key, Each(s, ScanVisit(key), Scan(None, 0)).pushIndex)
  {
    var inv := (st: Scan, n: nat) => ScanInvariant(s, key, st, n);
    forall st: Scan, n: nat | n < |s| && inv(st, n)
      ensures inv(ScanVisit(key)(st, s[n], n), n + 1)
    {
      assert ScanInvariant(s, key, st, n);
    }
    EachInvariant(s, ScanVisit(key), Scan(None, 0), inv);
  }

  /** One scan of `recursiveSearch` over the remaining elements. */
  function SelectMin<T>(s: seq<T>, key: T -> Option<int>): (m: nat)
    ensures |s| > 0 ==> IsFirstMinimum(s, key, m)
  {
    if |s| > 0 then ScanTraversal(s, key); Each(s, ScanVisit(key), Scan(None, 0)).pushIndex
    else Each(s, ScanVisit(key), Scan(None, 0)).pushIndex
  }

  /** The keys of `r` are in `KeyLe` order: defined keys ascending, then the
      undefined ones. */
  ghost predicate SortedByKey<T>(r: seq<T>, key: T -> Option<int>)
  {
    forall i, j :: 0 <= i < j < |r| ==> KeyLe(key(r[i]), key(r[j]))
  }

  /** The elements whose key is `k`. */
  function WithKey<T>(key: T -> Option<int>, k: Option<int>): T -> bool
  {
    x => key(x) == k
  }

  /** For every key value, `undefined` included, `r` lists the elements with
      that key in the order `s` does. */
  ghost predicate SameKeyOrder<T>(r: seq<T>, s: seq<T>, key: T -> Option<int>)
  {
    forall k :: Kept(r, WithKey(key, k)) == Kept(s, WithKey(key, k))
  }

  /** Everything left after the scan has a key no smaller than the one taken. */
  lemma RestAboveMinimum<T>(s: seq<T>, key: T -> Option<int>, m: nat)
    requires IsFirstMinimum(s, key, m)
    ensures forall x :: x in s[..m] + s[m + 1..] ==> KeyLe(key(s[m]), key(x))
  {
    var rest := s[..m] + s[m + 1..];
    forall x | x in rest
      ensures KeyLe(key(s[m]), key(x))
    {
      var k :| 0 <= k < |rest| && rest[k] == x;
      if k < m {
        assert rest[k] == s[k];
      } else {
        assert rest[k] == s[k + 1];
      }
    }
  }

  lemma SortedCons<T>(x: T, tail: seq<T>, key: T -> Option<int>)
    requires SortedByKey(tail, key)
    requires forall y :: y in tail ==> KeyLe(key(x), key(y))
    ensures SortedByKey([x] + tail, key)
  {
    var r := [x] + tail;
    forall i, j | 0 <= i < j < |r|
      ensures KeyLe(key(r[i]), key(r[j]))
    {
      assert r[j] == tail[j - 1];
      if i > 0 {
        assert r[i] == tail[i - 1];
      }
    }
  }

  /** Taking the first minimum out first does not reorder the elements of any one key. */
  lemma ScanKeepsKeyOrder<T>(s: seq<T>, key: T -> Option<int>, m: nat, p: T -> bool, k: Option<int>)
    requires IsFirstMinimum(s, key, m) && p == WithKey(key, k)
    ensures Kept(s, p) == Kept([s[m]], p) + Kept(s[..m] + s[m + 1..], p)
  {
    var before, after := s[..m], s[m + 1..];
    assert s == before + [s[m]] + after;
    if p(s[m]) {
      forall j | 0 <= j < |before|
        ensures !p(before[j])
      {
        assert before[j] == s[j];
      }
      KeptNothing(before, p);
    }
    KeptAroundOne(before, s[m], after, p);
  }

  /** Moving `x` to the front does not change what `p` keeps, as long as
      nothing before it is kept when `x` is. */
  lemma KeptAroundOne<T>(before: seq<T>, x: T, after: seq<T>, p: T -> bool)
    requires p(x) ==> Kept(before, p) == []
    ensures Kept(before + [x] + after, p) == Kept([x], p) + Kept(before + after, p)
  {
    KeptAppend(before + [x], after, p);
    KeptAppend(before, [x], p);
    KeptAppend(before, after, p);
    KeptOne(x, p);
    SwapPastEmpty(Kept(before, p), Kept([x], p), Kept(after, p));
  }

  lemma KeptOne<T>(x: T, p: T -> bool)
    ensures Kept([x], p) == if p(x) then [x] else []
  {
    assert [x][..0] == [];
  }

  /** Two adjacent pieces commute when one of them is empty. */
  lemma SwapPastEmpty<T>(a: seq<T>, b: seq<T>, c: seq<T>)
    requires a == [] || b == []
    ensures a + b + c == b + (a + c)
  {
    if a == [] {
      assert a + b == b;
    } else {
      assert a + b == a;
    }
  }

  /** Putting the first minimum in front of a sorted, stable arrangement of
      the remaining elements gives a sorted, stable arrangement of all of them. */
  lemma PlaceMinimum<T>(s: seq<T>, key: T -> Option<int>, m: nat, tail: seq<T>)
    requires IsFirstMinimum(s, key, m)
    requires multiset(tail) == multiset(s[..m] + s[m + 1..])
    requires SortedByKey(tail, key)
    requires SameKeyOrder(tail, s[..m] + s[m + 1..], key)
    ensures multiset([s[m]] + tail) == multiset(s)
    ensures SortedByKey([s[m]] + tail, key)
    ensures SameKeyOrder([s[m]] + tail, s, key)
  {
    var rest := s[..m] + s[m + 1..];
    assert s == s[..m] + [s[m]] + s[m + 1..];
    RestAboveMinimum(s, key, m);
    forall y | y in tail
      ensures KeyLe(key(s[m]), key(y))
    {
      assert y in multiset(tail);
      assert y in rest;
    }
    SortedCons(s[m], tail, key);
    forall k
      ensures Kept([s[m]] + tail, WithKey(key, k)) == Kept(s, WithKey(key, k))
    {
      var p := WithKey(key, k);
      KeptAppend([s[m]], tail, p);
      ScanKeepsKeyOrder(s, key, m, p, k);
    }
  }

  /** `sortBy(collection, iterator)`: the element found by the scan is spliced
      out and comes first, followed by the sort of what remains. The result
      is a permutation of the input in key order, with `undefined` keys last,
      and the sort is stable. */
  function SortBy<T(==)>(s: seq<T>, key: T -> Option<int>): (r: seq<T>)
    ensures multiset(r) == multiset(s)
    ensures SortedByKey(r, key)
    ensures SameKeyOrder(r, s, key)
    decreases |s|
  {
    if |s| == 0 then []
    else
      var m := SelectMin(s, key);
      var rest := s[..m] + s[m + 1..];
      var tail := if |rest| > 0 then SortBy(rest, key) else [];
      PlaceMinimum(s, key, m, tail);
      [s[m]] + tail
  }
}
