/** `each`, the one traversal primitive the library builds everything on.
    The JavaScript visitor communicates only by mutating variables of its
    enclosing closure, so the model makes that closure state explicit: a
    visitor is a function from (state, value, index) to the next state, and
    a traversal threads the state through every element in index order. */
module Traversal {

  /** Visits `s[i]`, `s[i+1]`, ... in turn, starting from closure state `st`. */
  function EachFrom<T, S>(s: seq<T>, i: nat, visit: (S, T, nat) -> S, st: S): S
    requires i <= |s|
    decreases |s| - i
  {
    if i == |s| then st else EachFrom(s, i + 1, visit, visit(st, s[i], i))
  }

  /** The closure state after `each(s, visit)`. */
  function Each<T, S>(s: seq<T>, visit: (S, T, nat) -> S, st: S): S
  {
    EachFrom(s, 0, visit, st)
  }

  lemma {:induction false} EachFromInvariant<T, S>(s: seq<T>, i: nat, visit: (S, T, nat) -> S, st: S, inv: (S, nat) -> bool)
    requires i <= |s| && inv(st, i)
    requires forall st': S, j: nat :: j < |s| && inv(st', j) ==> inv(visit(st', s[j], j), j + 1)
    ensures inv(EachFrom(s, i, visit, st), |s|)
    decreases |s| - i
  {
    if i < |s| {
      EachFromInvariant(s, i + 1, visit, visit(st, s[i], i), inv);
    }
  }

  /** The proof rule for a traversal: a property of the closure state that
      holds before index 0 and survives each visit in index order holds
      once every element has been visited. */
  lemma EachInvariant<T, S>(s: seq<T>, visit: (S, T, nat) -> S, st: S, inv: (S, nat) -> bool)
    requires inv(st, 0)
    requires forall st': S, j: nat :: j < |s| && inv(st', j) ==> inv(visit(st', s[j], j), j + 1)
    ensures inv(Each(s, visit, st), |s|)
  {
    EachFromInvariant(s, 0, visit, st, inv);
  }

  lemma {:induction false} EachFromSnoc<T, S>(s: seq<T>, x: T, i: nat, visit: (S, T, nat) -> S, st: S)
    requires i <= |s|
    ensures EachFrom(s + [x], i, visit, st) == visit(EachFrom(s, i, visit, st), x, |s|)
    decreases |s| - i
  {
    if i < |s| {
      assert (s + [x])[i] == s[i];
      EachFromSnoc(s, x, i + 1, visit, visit(st, s[i], i));
    }
  }

  /** Traversal is in ascending index order: traversing `s + [x]` is
      traversing `s` and then visiting `x`, at index `|s|`, last. */
  lemma EachSnoc<T, S>(s: seq<T>, x: T, visit: (S, T, nat) -> S, st: S)
    ensures Each(s + [x], visit, st) == visit(Each(s, visit, st), x, |s|)
    ensures Each([], visit, st) == st
  {
    EachFromSnoc(s, x, 0, visit, st);
  }
}
