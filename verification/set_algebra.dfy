/** The multi-array operations of underbar: `zip`, `flatten`,
    `intersection` and `difference`. */
module SetAlgebra {
  import opened Options
  import opened Sequences
  import opened Traversal
  import Collections

  // ---------------------------------------------------------------------------
  // zip

  /** The visitor that finds the longest argument of `zip`. */
  function MaxLengthVisit<T>(): (nat, seq<T>, nat) -> nat
  {
    (maxLength: nat, val: seq<T>, index: nat) => if maxLength < |val| then |val| else maxLength
  }

  lemma MaxLengthTraversal<T>(arrays: seq<seq<T>>)
    ensures var m := Each(arrays, MaxLengthVisit(), 0);
      && (forall j :: 0 <= j < |arrays| ==> |arrays[j]| <= m)
      && (m == 0 || exists j :: 0 <= j < |arrays| && |arrays[j]| == m)
  {
    var inv := (m: nat, n: nat) =>
      && n <= |arrays|
      && (forall j :: 0 <= j < n ==> |arrays[j]| <= m)
      && (m == 0 || exists j :: 0 <= j < n && |arrays[j]| == m);
    EachInvariant(arrays, MaxLengthVisit(), 0, inv);
  }

  /** The length of the longest array, 0 when there are none. */
  function MaxLength<T>(arrays: seq<seq<T>>): (m: nat)
    ensures forall j :: 0 <= j < |arrays| ==> |arrays[j]| <= m
    ensures m == 0 || exists j :: 0 <= j < |arrays| && |arrays[j]| == m
  {
    MaxLengthTraversal(arrays);
    Each(arrays, MaxLengthVisit(), 0)
  }

  /** `zip(array1, ..., arrayN)`: one row per index up to the longest
      array's length, row `i` holding the `i`-th element of every array in
      argument order, `undefined` where an array is too short. */
  method Zip<T>(arrays: seq<seq<T>>) returns (r: seq<seq<Option<T>>>)
    ensures |r| == MaxLength(arrays)
    ensures forall i :: 0 <= i < |r| ==> |r[i]| == |arrays|
    ensures forall i, j :: 0 <= i < |r| && 0 <= j < |arrays| ==> r[i][j] == At(arrays[j], i)
  {
    var maxLength := MaxLength(arrays);
    r := [];
    var i := 0;
    while i < maxLength
      invariant 0 <= i <= maxLength && |r| == i
      invariant forall i' :: 0 <= i' < i ==> |r[i']| == |arrays|
      invariant forall i', j :: 0 <= i' < i && 0 <= j < |arrays| ==> r[i'][j] == At(arrays[j], i')
    {
      var row := [];
      var j := 0;
      while j < |arrays|
        invariant 0 <= j <= |arrays| && |row| == j
        invariant forall j' :: 0 <= j' < j ==> row[j'] == At(arrays[j'], i)
      {
        row := row + [At(arrays[j], i)];
        j := j + 1;
      }
      r := r + [row];
      i := i + 1;
    }
  }

  /** Column `j` of a table of rows, reading down while the entries are defined:
      the inverse of `zip` for its `j`-th argument. */
  function Column<T>(rows: seq<seq<Option<T>>>, j: nat): seq<T>
  {
    if |rows| == 0 || j >= |rows[0]| || rows[0][j].None? then []
    else [rows[0][j].value] + Column(rows[1..], j)
  }

  /** Zipping loses nothing: reading any argument's column back out of a
      table with `zip`'s shape gives that argument. */
  lemma {:induction false} ZipColumn<T>(arrays: seq<seq<T>>, r: seq<seq<Option<T>>>, j: nat, from: nat)
    requires j < |arrays| && from <= |r|
    requires forall j' :: 0 <= j' < |arrays| ==> |arrays[j']| <= |r|
    requires forall i :: 0 <= i < |r| ==> |r[i]| == |arrays|
    requires forall i, j' :: 0 <= i < |r| && 0 <= j' < |arrays| ==> r[i][j'] == At(arrays[j'], i)
    ensures from <= |arrays[j]| ==> Column(r[from..], j) == arrays[j][from..]
    ensures from > |arrays[j]| ==> Column(r[from..], j) == []
    decreases |r| - from
  {
    if from < |r| {
      ZipColumn(arrays, r, j, from + 1);
      assert r[from..][1..] == r[from + 1..];
      assert r[from..][0] == r[from];
      if from < |arrays[j]| {
        assert arrays[j][from..] == [arrays[j][from]] + arrays[j][from + 1..];
      }
    }
  }

  /** The table `zip` builds, and reading its column `j` back returns the
      `j`-th argument. */
  method ZipUnzip<T>(arrays: seq<seq<T>>) returns (r: seq<seq<Option<T>>>)
    ensures |r| == MaxLength(arrays)
    ensures forall i :: 0 <= i < |r| ==> |r[i]| == |arrays|
    ensures forall i, j :: 0 <= i < |r| && 0 <= j < |arrays| ==> r[i][j] == At(arrays[j], i)
    ensures forall j :: 0 <= j < |arrays| ==> Column(r, j) == arrays[j]
  {
    r := Zip(arrays);
    forall j | 0 <= j < |arrays|
      ensures Column(r, j) == arrays[j]
    {
      ZipColumn(arrays, r, j, 0);
      assert r[0..] == r;
      assert arrays[j][0..] == arrays[j];
    }
  }

  // ---------------------------------------------------------------------------
  // flatten

  /** A value that is either a non-array value or an array of such values. */
  datatype Nested<T> = Leaf(value: T) | Node(children: seq<Nested<T>>)

  /** `getArrayElements(array)` on an array: each element, left to right, is
      pushed when it is not an array and has its own elements concatenated
      when it is. */
  function ArrayElements<T>(cs: seq<Nested<T>>): seq<T>
    decreases cs
  {
    if |cs| == 0 then []
    else ArrayElements(cs[..|cs| - 1]) + Contribution(cs[|cs| - 1])
  }

  /** What one element adds to the output of `getArrayElements`: itself when
      it is not an array, its own elements when it is. */
  function Contribution<T>(val: Nested<T>): seq<T>
    decreases val
  {
    match val
    case Leaf(v) => [v]
    case Node(ds) => ArrayElements(ds)
  }

  /** `flatten(nestedArray)`: the non-array values inside an array, at any
      depth; a top-level input that is not an array gives the empty array. */
  function Flatten<T>(n: Nested<T>): (r: seq<T>)
    ensures n.Leaf? ==> r == []
    ensures n.Node? && n.children == [] ==> r == []
  {
    match n
    case Leaf(_) => []
    case Node(cs) => ArrayElements(cs)
  }

  /** `x` is a non-array value at some depth inside `n` (`n` itself included). */
  ghost predicate Occurs<T>(n: Nested<T>, x: T)
  {
    match n
    case Leaf(v) => v == x
    case Node(cs) => exists i :: 0 <= i < |cs| && Occurs(cs[i], x)
  }

  /** Flattening distributes over concatenation: the values come out in
      left-to-right order of the sub-arrays. */
  lemma {:induction false} ArrayElementsAppend<T>(a: seq<Nested<T>>, b: seq<Nested<T>>)
    ensures ArrayElements(a + b) == ArrayElements(a) + ArrayElements(b)
    decreases |b|
  {
    if |b| == 0 {
      assert a + b == a;
    } else {
      var b' := b[..|b| - 1];
      var last := b[|b| - 1];
      assert (a + b)[..|a + b| - 1] == a + b';
      assert (a + b)[|a + b| - 1] == last;
      assert ArrayElements(a + b) == ArrayElements(a + b') + Contribution(last);
      ArrayElementsAppend(a, b');
      assert ArrayElements(b) == ArrayElements(b') + Contribution(last);
    }
  }

  /** The values flatten returns are exactly the values that occur at some
      depth inside the array. */
  lemma {:induction false} ArrayElementsContents<T>(cs: seq<Nested<T>>)
    ensures forall x :: x in ArrayElements(cs) <==> exists i :: 0 <= i < |cs| && Occurs(cs[i], x)
    decreases cs
  {
    if |cs| > 0 {
      var init := cs[..|cs| - 1];
      var val := cs[|cs| - 1];
      ArrayElementsContents(init);
      ContributionContents(val);
      forall x
        ensures x in ArrayElements(cs) <==> exists i :: 0 <= i < |cs| && Occurs(cs[i], x)
      {
        assert x in ArrayElements(cs) <==> x in ArrayElements(init) || x in Contribution(val);
        if exists i :: 0 <= i < |cs| && Occurs(cs[i], x) {
          var i :| 0 <= i < |cs| && Occurs(cs[i], x);
          if i < |init| {
            assert init[i] == cs[i];
          }
        }
        if exists i :: 0 <= i < |init| && Occurs(init[i], x) {
          var i :| 0 <= i < |init| && Occurs(init[i], x);
          assert cs[i] == init[i];
        }
      }
    }
  }

  lemma {:induction false} ContributionContents<T>(val: Nested<T>)
    ensures forall x :: x in Contribution(val) <==> Occurs(val, x)
    decreases val
  {
    if val.Node? {
      ArrayElementsContents(val.children);
    }
  }

  lemma FlattenContents<T>(n: Nested<T>)
    ensures forall x :: x in Flatten(n) <==> n.Node? && Occurs(n, x)
  {
    if n.Node? {
      ArrayElementsContents(n.children);
    }
  }

  /** Flattening an array that is already flat gives back its values. */
  lemma {:induction false} FlattenFlat<T>(xs: seq<T>)
    ensures Flatten(Node(seq(|xs|, i requires 0 <= i < |xs| => Leaf(xs[i])))) == xs
    decreases |xs|
  {
    if |xs| > 0 {
      var init := xs[..|xs| - 1];
      var cs := seq(|xs|, i requires 0 <= i < |xs| => Leaf(xs[i]));
      FlattenFlat(init);
      assert cs[..|cs| - 1] == seq(|init|, i requires 0 <= i < |init| => Leaf(init[i]));
      assert Contribution(cs[|cs| - 1]) == [xs[|xs| - 1]];
      assert xs == init + [xs[|xs| - 1]];
    }
  }

  /** Flattening is idempotent: flattening the flattened values again changes nothing. */
  lemma FlattenIdempotent<T>(n: Nested<T>)
    ensures var once := Flatten(n);
      Flatten(Node(seq(|once|, i requires 0 <= i < |once| => Leaf(once[i])))) == once
  {
    FlattenFlat(Flatten(n));
  }

  /** A nested array is spliced in at its position: what it contributes is
      its own flattening, between the values of the elements before it and
      those after it. */
  lemma FlattenSplice<T>(a: seq<Nested<T>>, ds: seq<Nested<T>>, b: seq<Nested<T>>)
    ensures Flatten(Node(a + [Node(ds)] + b)) == Flatten(Node(a)) + Flatten(Node(ds)) + Flatten(Node(b))
  {
    var sub: seq<Nested<T>> := [Node(ds)];
    ArrayElementsAppend(a + sub, b);
    ArrayElementsAppend(a, sub);
    assert sub[..0] == [];
    assert ArrayElements(sub) == Contribution(Node(ds));
  }

  /** An empty sub-array contributes nothing at its position in any array;
      with `FlattenSplice` this holds at every depth. */
  lemma EmptySubarrayVanishes<T>(a: seq<Nested<T>>, b: seq<Nested<T>>)
    ensures Flatten(Node(a + [Node([])] + b)) == Flatten(Node(a + b))
  {
    FlattenSplice(a, [], b);
    ArrayElementsAppend(a, b);
  }

  /** The non-array values of `n` in depth-first, left-to-right order,
      defined from the front: the first element's values, then the rest's. */
  ghost function Leaves<T>(n: Nested<T>): seq<T>
    decreases n
  {
    match n
    case Leaf(v) => [v]
    case Node(cs) => LeavesOf(cs)
  }

  ghost function LeavesOf<T>(cs: seq<Nested<T>>): seq<T>
    decreases cs
  {
    if |cs| == 0 then [] else Leaves(cs[0]) + LeavesOf(cs[1..])
  }

  lemma {:induction false} ArrayElementsLeaves<T>(cs: seq<Nested<T>>)
    ensures ArrayElements(cs) == LeavesOf(cs)
    decreases cs
  {
    if |cs| > 0 {
      var head: seq<Nested<T>> := [cs[0]];
      assert cs == head + cs[1..];
      ArrayElementsAppend(head, cs[1..]);
      assert head[..0] == [];
      assert ArrayElements(head) == Contribution(cs[0]);
      ContributionLeaves(cs[0]);
      ArrayElementsLeaves(cs[1..]);
    }
  }

  lemma {:induction false} ContributionLeaves<T>(val: Nested<T>)
    ensures Contribution(val) == Leaves(val)
    decreases val
  {
    if val.Node? {
      ArrayElementsLeaves(val.children);
    }
  }

  /** `flatten` of an array lists every non-array value inside it, at any
      depth, each as often as it occurs, in depth-first left-to-right order. */
  lemma FlattenDepthFirst<T>(n: Nested<T>)
    ensures Flatten(n) == if n.Leaf? then [] else Leaves(n)
  {
    if n.Node? {
      ArrayElementsLeaves(n.children);
    }
  }

  // ---------------------------------------------------------------------------
  // intersection, difference

  /** The test `contains(arg, val)` applied by `intersection` and `difference`. */
  function In<T(==)>(arg: seq<T>): T -> bool
  {
    val => Collections.Contains(arg, val)
  }

  /** `x` is in every one of `others`. */
  ghost predicate InAll<T>(others: seq<seq<T>>, x: T)
  {
    forall j :: 0 <= j < |others| ==> x in others[j]
  }

  /** `x` is in none of `others`. */
  ghost predicate InNone<T>(others: seq<seq<T>>, x: T)
  {
    forall j :: 0 <= j < |others| ==> x !in others[j]
  }

  lemma InAllSnoc<T>(others: seq<seq<T>>, n: nat, x: T)
    requires n < |others|
    ensures InAll(others[..n + 1], x) == (InAll(others[..n], x) && x in others[n])
    ensures InNone(others[..n + 1], x) == (InNone(others[..n], x) && x !in others[n])
  {
    assert others[..n + 1] == others[..n] + [others[n]];
  }

  /** The visitor of `intersection`: keeps what the next array contains. */
  function IntersectionVisit<T(==)>(): (seq<T>, seq<T>, nat) -> seq<T>
  {
    (returnArray: seq<T>, arg: seq<T>, index: nat) => Collections.Filter(returnArray, In(arg))
  }

  /** The visitor of `difference`: drops what the next array contains. */
  function DifferenceVisit<T(==)>(): (seq<T>, seq<T>, nat) -> seq<T>
  {
    (remaining: seq<T>, arg: seq<T>, index: nat) => Collections.Reject(remaining, In(arg))
  }

  lemma IntersectionTraversal<T(!new)>(first: seq<T>, others: seq<seq<T>>)
    ensures var r := Each(others, IntersectionVisit(), first);
      && Subseq(r, first)
      && forall x :: multiset(r)[x] == if InAll(others, x) then multiset(first)[x] else 0
  {
    var inv := (r: seq<T>, n: nat) =>
      && n <= |others|
      && Subseq(r, first)
      && forall x :: multiset(r)[x] == if InAll(others[..n], x) then multiset(first)[x] else 0;
    SubseqRefl(first);
    forall r: seq<T>, n: nat | n < |others| && inv(r, n)
      ensures inv(IntersectionVisit()(r, others[n], n), n + 1)
    {
      IntersectionStep(first, others, r, n);
    }
    EachInvariant(others, IntersectionVisit(), first, inv);
    assert others[..|others|] == others;
  }

  /** `intersection(first, other1, ..., otherN)`: the elements of `first`
      that every other array contains, in `first`'s order and with
      `first`'s multiplicity. */
  function Intersection<T(==,!new)>(first: seq<T>, others: seq<seq<T>>): (r: seq<T>)
    ensures Subseq(r, first)
    ensures forall x :: multiset(r)[x] == if InAll(others, x) then multiset(first)[x] else 0
  {
    IntersectionTraversal(first, others);
    Each(others, IntersectionVisit(), first)
  }

  lemma IntersectionStep<T(!new)>(first: seq<T>, others: seq<seq<T>>, r: seq<T>, n: nat)
    requires n < |others| && Subseq(r, first)
    requires forall x :: multiset(r)[x] == if InAll(others[..n], x) then multiset(first)[x] else 0
    ensures Subseq(IntersectionVisit()(r, others[n], n), first)
    ensures forall x :: multiset(IntersectionVisit()(r, others[n], n))[x] == (if InAll(others[..n + 1], x) then multiset(first)[x] else 0)
  {
    var keep := In(others[n]);
    var r' := Collections.Filter(r, keep);
    assert IntersectionVisit()(r, others[n], n) == r';
    KeptSubseq(r, keep);
    SubseqTrans(r', r, first);
    KeptMultiplicity(r, keep);
    forall x
      ensures multiset(r')[x] == if InAll(others[..n + 1], x) then multiset(first)[x] else 0
    {
      InAllSnoc(others, n, x);
      assert keep(x) == (x in others[n]);
    }
  }

  lemma DifferenceStep<T(!new)>(first: seq<T>, others: seq<seq<T>>, r: seq<T>, n: nat)
    requires n < |others| && Subseq(r, first)
    requires forall x :: multiset(r)[x] == if InNone(others[..n], x) then multiset(first)[x] else 0
    ensures Subseq(DifferenceVisit()(r, others[n], n), first)
    ensures forall x :: multiset(DifferenceVisit()(r, others[n], n))[x] == (if InNone(others[..n + 1], x) then multiset(first)[x] else 0)
  {
    var keep := Not(In(others[n]));
    var r' := Collections.Reject(r, In(others[n]));
    assert DifferenceVisit()(r, others[n], n) == r';
    KeptSubseq(r, keep);
    SubseqTrans(r', r, first);
    KeptMultiplicity(r, keep);
    forall x
      ensures multiset(r')[x] == if InNone(others[..n + 1], x) then multiset(first)[x] else 0
    {
      InAllSnoc(others, n, x);
      assert keep(x) == (x !in others[n]);
    }
  }

  lemma DifferenceTraversal<T(!new)>(first: seq<T>, others: seq<seq<T>>)
    ensures var r := Each(others, DifferenceVisit(), first);
      && Subseq(r, first)
      && forall x :: multiset(r)[x] == if InNone(others, x) then multiset(first)[x] else 0
  {
    var inv := (r: seq<T>, n: nat) =>
      && n <= |others|
      && Subseq(r, first)
      && forall x :: multiset(r)[x] == if InNone(others[..n], x) then multiset(first)[x] else 0;
    SubseqRefl(first);
    forall r: seq<T>, n: nat | n < |others| && inv(r, n)
      ensures inv(DifferenceVisit()(r, others[n], n), n + 1)
    {
      DifferenceStep(first, others, r, n);
    }
    EachInvariant(others, DifferenceVisit(), first, inv);
    assert others[..|others|] == others;
  }

  /** `difference(array, other1, ..., otherN)`: the elements of `array` that
      no other array contains, in order and with their multiplicity. */
  function Difference<T(==,!new)>(first: seq<T>, others: seq<seq<T>>): (r: seq<T>)
    ensures Subseq(r, first)
    ensures forall x :: multiset(r)[x] == if InNone(others, x) then multiset(first)[x] else 0
  {
    DifferenceTraversal(first, others);
    Each(others, DifferenceVisit(), first)
  }
}
