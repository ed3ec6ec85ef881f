/** The COLLECTIONS section of underbar: operations over arrays, each one
    written, as in the library, as a visitor passed to `each`. Every
    operation is connected to a declarative reference by a lemma. */
module Collections {
  import opened Options
  import opened Sequences
  import opened Traversal

  // ---------------------------------------------------------------------------
  // first

  /** `first(array)` without `n`: the element at index 0, or `undefined`. */
  function First<T>(a: seq<T>): (r: Option<T>)
    ensures r.None? <==> |a| == 0
    ensures r.Some? ==> r.value == a[0]
  {
    if |a| > 0 then Some(a[0]) else None
  }

  /** `first(array, n)`: the prefix of length `n`, cut short at the end of
      the array, and empty for `n <= 0`. */
  method FirstN<T>(a: seq<T>, n: int) returns (r: seq<T>)
    ensures n <= 0 ==> r == []
    ensures 0 <= n <= |a| ==> |r| == n
    ensures n > |a| ==> r == a
    ensures r == a[..|r|]
  {
    var l := if n <= |a| then n else |a|;
    r := [];
    var i := 0;
    while i < l
      invariant 0 <= i <= (if l < 0 then 0 else l)
      invariant r == a[..i]
    {
      r := r + [a[i]];
      i := i + 1;
    }
  }

  // ---------------------------------------------------------------------------
  // indexOf

  /** `i` is the position of the first `target` in `a`, or -1 when there is none. */
  ghost predicate IsFirstIndex<T>(a: seq<T>, target: T, i: int)
  {
    if target in a then 0 <= i < |a| && a[i] == target && (forall j :: 0 <= j < i ==> a[j] != target) else i == -1
  }

  /** The visitor of `indexOf`: records the first index holding `target`. */
  function IndexOfVisit<T(==)>(target: T): (int, T, nat) -> int
  {
    (i: int, value: T, index: nat) => if value == target && i == -1 then index else i
  }

  lemma IndexOfTraversal<T>(a: seq<T>, target: T)
    ensures IsFirstIndex(a, target, Each(a, IndexOfVisit(target), -1))
  {
    var inv := (i: int, n: nat) => n <= |a| && IsFirstIndex(a[..n], target, i);
    forall i: int, n: nat | n < |a| && inv(i, n)
      ensures inv(IndexOfVisit(target)(i, a[n], n), n + 1)
    {
      assert a[..n + 1] == a[..n] + [a[n]];
    }
    EachInvariant(a, IndexOfVisit(target), -1, inv);
    assert a[..|a|] == a;
  }

  /** `indexOf(array, target)`: the first index holding `target` (`===`), or -1. */
  function IndexOf<T(==)>(a: seq<T>, target: T): (r: int)
    ensures r == -1 <==> target !in a
    ensures r != -1 ==> 0 <= r < |a| && a[r] == target
    ensures forall j :: 0 <= j < r ==> a[j] != target
  {
    IndexOfTraversal(a, target);
    Each(a, IndexOfVisit(target), -1)
  }

  // ---------------------------------------------------------------------------
  // filter, reject

  /** The visitor of `filter`: pushes each value that passes. */
  function FilterVisit<T>(p: T -> bool): (seq<T>, T, nat) -> seq<T>
  {
    (acc: seq<T>, value: T, index: nat) => if p(value) then acc + [value] else acc
  }

  lemma FilterTraversal<T>(s: seq<T>, p: T -> bool)
    ensures Each(s, FilterVisit(p), []) == Kept(s, p)
  {
    var inv := (acc: seq<T>, n: nat) => n <= |s| && acc == Kept(s[..n], p);
    forall acc: seq<T>, n: nat | n < |s| && inv(acc, n)
      ensures inv(FilterVisit(p)(acc, s[n], n), n + 1)
    {
      assert s[..n + 1][..n] == s[..n];
    }
    EachInvariant(s, FilterVisit(p), [], inv);
    assert s[..|s|] == s;
  }

  /** `filter(collection, iterator)`: exactly the elements that pass, in order. */
  function Filter<T>(s: seq<T>, p: T -> bool): (r: seq<T>)
    ensures r == Kept(s, p)
  {
    FilterTraversal(s, p);
    Each(s, FilterVisit(p), [])
  }

  /** `reject(collection, iterator)`: `filter` with the negated iterator. */
  function Reject<T>(s: seq<T>, p: T -> bool): (r: seq<T>)
    ensures r == Kept(s, Not(p))
  {
    Filter(s, Not(p))
  }

  /** `filter` and `reject` split the input: both are order-preserving
      subsequences, every kept element passes, every rejected one fails, and
      together they hold each element of the input exactly once. */
  lemma FilterRejectPartition<T>(s: seq<T>, p: T -> bool)
    ensures Subseq(Filter(s, p), s) && Subseq(Reject(s, p), s)
    ensures forall x :: x in Filter(s, p) ==> p(x)
    ensures forall x :: x in Reject(s, p) ==> !p(x)
    ensures |Filter(s, p)| + |Reject(s, p)| == |s|
    ensures multiset(Filter(s, p)) + multiset(Reject(s, p)) == multiset(s)
  {
    KeptSubseq(s, p);
    KeptSubseq(s, Not(p));
    KeptSatisfies(s, p);
    KeptSatisfies(s, Not(p));
    KeptSplit(s, p);
    forall x | x in Reject(s, p)
      ensures !p(x)
    {
      assert Not(p)(x);
    }
  }

  // ---------------------------------------------------------------------------
  // uniq

  /** The values of `s` in the order in which each first occurs. */
  ghost function FirstOccurrences<T>(s: seq<T>): seq<T>
  {
    if |s| == 0 then []
    else
      var init := s[..|s| - 1];
      FirstOccurrences(init) + (if s[|s| - 1] in init then [] else [s[|s| - 1]])
  }

  lemma {:induction false} FirstOccurrencesElements<T>(s: seq<T>)
    ensures forall x :: x in FirstOccurrences(s) <==> x in s
    decreases |s|
  {
    if |s| > 0 {
      FirstOccurrencesElements(s[..|s| - 1]);
      assert s == s[..|s| - 1] + [s[|s| - 1]];
    }
  }

  /** The closure state of `uniq`: the array `rArray` that `duplicate` builds
      and consults, and the output that `reject` builds. */
  datatype UniqState<T> = UniqState(seen: seq<T>, out: seq<T>)

  /** One visit of `reject(array, duplicate)`: `duplicate` looks the value up
      in `rArray`, appends it there when absent, and answers `1 + index`, which
      is falsy (so the value is kept) exactly when the value was absent. */
  function UniqVisit<T(==)>(): (UniqState<T>, T, nat) -> UniqState<T>
  {
    (st: UniqState<T>, value: T, index: nat) =>
      var val := IndexOf(st.seen, value);
      var seen := if val == -1 then st.seen + [value] else st.seen;
      var duplicate := 1 + val != 0;
      UniqState(seen, if !duplicate then st.out + [value] else st.out)
  }

  lemma UniqTraversal<T>(s: seq<T>)
    ensures Each(s, UniqVisit(), UniqState([], [])).out == FirstOccurrences(s)
  {
    var inv := (st: UniqState<T>, n: nat) =>
      n <= |s| && st.seen == FirstOccurrences(s[..n]) && st.out == st.seen;
    forall st: UniqState<T>, n: nat | n < |s| && inv(st, n)
      ensures inv(UniqVisit()(st, s[n], n), n + 1)
    {
      assert s[..n + 1][..n] == s[..n];
      FirstOccurrencesElements(s[..n]);
    }
    EachInvariant(s, UniqVisit(), UniqState([], []), inv);
    assert s[..|s|] == s;
  }

  /** `uniq(array)`: each distinct value once, in order of first occurrence. */
  function Uniq<T(==)>(s: seq<T>): (r: seq<T>)
    ensures r == FirstOccurrences(s)
  {
    UniqTraversal(s);
    Each(s, UniqVisit(), UniqState([], [])).out
  }

  lemma {:induction false} FirstOccurrencesShape<T>(s: seq<T>)
    ensures NoDuplicates(FirstOccurrences(s))
    ensures Subseq(FirstOccurrences(s), s)
    decreases |s|
  {
    if |s| > 0 {
      var init := s[..|s| - 1];
      FirstOccurrencesShape(init);
      FirstOccurrencesElements(init);
      var r := FirstOccurrences(s);
      if s[|s| - 1] !in init {
        assert r == FirstOccurrences(init) + [s[|s| - 1]];
        assert r[..|r| - 1] == FirstOccurrences(init);
      } else {
        assert r == FirstOccurrences(init);
      }
    }
  }

  /** `uniq` drops nothing but repeats: no value twice, every value of the
      input present, and the survivors in their input order. */
  lemma UniqProperties<T>(s: seq<T>)
    ensures NoDuplicates(Uniq(s))
    ensures forall x :: x in Uniq(s) <==> x in s
    ensures Subseq(Uniq(s), s)
  {
    FirstOccurrencesShape(s);
    FirstOccurrencesElements(s);
  }

  /** For example, `uniq([1,2,1,3,2])` is `[1,2,3]`. */
  lemma UniqExample()
    ensures Uniq([1, 2, 1, 3, 2]) == [1, 2, 3]
  {
    assert [1, 2, 1, 3, 2][..4] == [1, 2, 1, 3];
    assert [1, 2, 1, 3][..3] == [1, 2, 1];
    assert [1, 2, 1][..2] == [1, 2];
    assert [1, 2][..1] == [1];
    assert FirstOccurrences([1]) == [1];
    assert FirstOccurrences([1, 2]) == [1, 2];
    assert FirstOccurrences([1, 2, 1]) == [1, 2];
    assert FirstOccurrences([1, 2, 1, 3]) == [1, 2, 3];
  }

  // ---------------------------------------------------------------------------
  // map, pluck

  /** The visitor of `map`: pushes the iterator's result. */
  function MapVisit<T, U>(f: T -> U): (seq<U>, T, nat) -> seq<U>
  {
    (acc: seq<U>, value: T, index: nat) => acc + [f(value)]
  }

  lemma MapTraversal<T, U>(s: seq<T>, f: T -> U)
    ensures var r := Each(s, MapVisit(f), []);
      |r| == |s| && forall i :: 0 <= i < |s| ==> r[i] == f(s[i])
  {
    var inv := (acc: seq<U>, n: nat) =>
      n <= |s| && |acc| == n && forall i :: 0 <= i < n ==> acc[i] == f(s[i]);
    EachInvariant(s, MapVisit(f), [], inv);
  }

  /** `map(array, iterator)`: the iterator's result for each element, position by position. */
  function Map<T, U>(s: seq<T>, f: T -> U): (r: seq<U>)
    ensures |r| == |s|
    ensures forall i :: 0 <= i < |s| ==> r[i] == f(s[i])
  {
    MapTraversal(s, f);
    Each(s, MapVisit(f), [])
  }

  /** `value[propertyName]` on an object: `undefined` when the property is missing. */
  function Property<V>(name: string): map<string, V> -> Option<V>
  {
    (o: map<string, V>) => if name in o then Some(o[name]) else None
  }

  /** `pluck(array, propertyName)`: each object's value for the property, or
      `undefined` for an object without it. */
  function Pluck<V>(s: seq<map<string, V>>, name: string): (r: seq<Option<V>>)
    ensures |r| == |s|
    ensures forall i :: 0 <= i < |s| && name in s[i] ==> r[i] == Some(s[i][name])
    ensures forall i :: 0 <= i < |s| && name !in s[i] ==> r[i] == None
  {
    Map(s, Property(name))
  }

  // ---------------------------------------------------------------------------
  // reduce, contains, every, some

  /** The left fold of `f` over `s` from `init`. */
  ghost function FoldLeft<T, A>(f: (A, T) -> A, init: A, s: seq<T>): A
  {
    if |s| == 0 then init else f(FoldLeft(f, init, s[..|s| - 1]), s[|s| - 1])
  }

  /** The visitor of `reduce`: replaces the accumulator by `iterator(rVal, val)`. */
  function ReduceVisit<T, A>(f: (A, T) -> A): (A, T, nat) -> A
  {
    (acc: A, value: T, index: nat) => f(acc, value)
  }

  lemma ReduceTraversal<T, A>(s: seq<T>, f: (A, T) -> A, init: A)
    ensures Each(s, ReduceVisit(f), init) == FoldLeft(f, init, s)
  {
    var inv := (acc: A, n: nat) => n <= |s| && acc == FoldLeft(f, init, s[..n]);
    forall acc: A, n: nat | n < |s| && inv(acc, n)
      ensures inv(ReduceVisit(f)(acc, s[n], n), n + 1)
    {
      assert s[..n + 1][..n] == s[..n];
    }
    EachInvariant(s, ReduceVisit(f), init, inv);
    assert s[..|s|] == s;
  }

  /** `reduce(collection, iterator, initialValue)` with the seed given: the left fold. */
  function Reduce<T, A>(s: seq<T>, f: (A, T) -> A, init: A): (r: A)
    ensures r == FoldLeft(f, init, s)
  {
    ReduceTraversal(s, f, init);
    Each(s, ReduceVisit(f), init)
  }

  /** `reduce` over numbers when the seed may be omitted: an absent seed is 0. */
  function ReduceOrZero<T>(s: seq<T>, f: (int, T) -> int, init: Option<int>): (r: int)
    ensures init.None? ==> r == FoldLeft(f, 0, s)
    ensures init.Some? ==> r == FoldLeft(f, init.value, s)
  {
    Reduce(s, f, if init.None? then 0 else init.value)
  }

  /** The documented example: summing `[1,2,3]` from seed 0 gives 6. */
  lemma ReduceSumExample()
    ensures ReduceOrZero([1, 2, 3], (a: int, b: int) => a + b, Some(0)) == 6
  {
    var s := [1, 2, 3];
    assert s[..2] == [1, 2];
    assert s[..2][..1] == [1];
  }

  /** For example, omitting the seed sums `[1,2,3]` from 0, and reducing the
      empty array gives back the seed. */
  lemma ReduceSeedExamples()
    ensures ReduceOrZero([1, 2, 3], (a: int, b: int) => a + b, None) == 6
    ensures ReduceOrZero([], (a: int, b: int) => a + b, Some(10)) == 10
  {
    var s := [1, 2, 3];
    assert s[..2] == [1, 2];
    assert s[..2][..1] == [1];
  }

  /** The combining step of `contains`: once found, stays found. */
  function ContainsStep<T(==)>(target: T): (bool, T) -> bool
  {
    (wasFound: bool, item: T) => if wasFound then true else item == target
  }

  lemma {:induction false} ContainsFold<T>(s: seq<T>, target: T)
    ensures FoldLeft(ContainsStep(target), false, s) <==> target in s
    decreases |s|
  {
    if |s| > 0 {
      ContainsFold(s[..|s| - 1], target);
      assert s == s[..|s| - 1] + [s[|s| - 1]];
    }
  }

  /** `contains(collection, target)`: whether some element is `===` to `target`. */
  function Contains<T(==)>(s: seq<T>, target: T): (r: bool)
    ensures r <==> target in s
  {
    ContainsFold(s, target);
    Reduce(s, ContainsStep(target), false)
  }

  /** The combining step of `every`: once false, stays false. */
  function EveryStep<T>(p: T -> bool): (bool, T) -> bool
  {
    (noFalse: bool, item: T) => if !noFalse then false else p(item)
  }

  lemma {:induction false} EveryFold<T>(s: seq<T>, p: T -> bool)
    ensures FoldLeft(EveryStep(p), true, s) <==> forall i :: 0 <= i < |s| ==> p(s[i])
    decreases |s|
  {
    if |s| > 0 {
      EveryFold(s[..|s| - 1], p);
    }
  }

  /** `every(collection, iterator)`: whether all elements pass; true on an empty array. */
  function Every<T>(s: seq<T>, p: T -> bool): (r: bool)
    ensures r <==> forall i :: 0 <= i < |s| ==> p(s[i])
    ensures |s| == 0 ==> r
  {
    EveryFold(s, p);
    Reduce(s, EveryStep(p), true)
  }

  /** `some(collection, iterator)`: the negation of `every` over the negated
      iterator, so whether some element passes; false on an empty array. */
  function SomePass<T>(s: seq<T>, p: T -> bool): (r: bool)
    ensures r <==> exists i :: 0 <= i < |s| && p(s[i])
    ensures |s| == 0 ==> !r
  {
    var r := !Every(s, Not(p));
    assert forall i :: 0 <= i < |s| ==> Not(p)(s[i]) == !p(s[i]);
    r
  }
}
