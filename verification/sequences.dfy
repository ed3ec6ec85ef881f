/** Reference notions over sequences that the library's operations are
    measured against: selection by a predicate and order-preserving
    subsequences. They are written declaratively, independently of the
    callback-driven code that the operations themselves follow. */
module Sequences {

  /** The predicate that holds exactly where `p` does not. */
  function Not<T>(p: T -> bool): T -> bool
  {
    x => !p(x)
  }

  /** `r` is obtained from `s` by deleting some elements and keeping the
      relative order of the rest. */
  ghost predicate Subseq<T>(r: seq<T>, s: seq<T>)
    decreases |s|
  {
    if |s| == 0 then |r| == 0
    else
      || Subseq(r, s[..|s| - 1])
      || (|r| > 0 && r[|r| - 1] == s[|s| - 1] && Subseq(r[..|r| - 1], s[..|s| - 1]))
  }

  /** The elements of `s` that satisfy `p`, in their order in `s`. */
  ghost function Kept<T>(s: seq<T>, p: T -> bool): seq<T>
  {
    if |s| == 0 then []
    else Kept(s[..|s| - 1], p) + (if p(s[|s| - 1]) then [s[|s| - 1]] else [])
  }

  /** No value occurs twice. */
  ghost predicate NoDuplicates<T>(s: seq<T>)
  {
    forall i, j :: 0 <= i < j < |s| ==> s[i] != s[j]
  }

  lemma {:induction false} SubseqRefl<T>(s: seq<T>)
    ensures Subseq(s, s)
    decreases |s|
  {
    if |s| > 0 {
      SubseqRefl(s[..|s| - 1]);
    }
  }

  lemma {:induction false} SubseqTrans<T>(a: seq<T>, b: seq<T>, c: seq<T>)
    requires Subseq(a, b) && Subseq(b, c)
    ensures Subseq(a, c)
    decreases |c|
  {
    if |c| == 0 {
    } else if Subseq(b, c[..|c| - 1]) {
      SubseqTrans(a, b, c[..|c| - 1]);
    } else {
      var b' := b[..|b| - 1];
      var c' := c[..|c| - 1];
      assert |b| > 0 && b[|b| - 1] == c[|c| - 1] && Subseq(b', c');
      if Subseq(a, b') {
        SubseqTrans(a, b', c');
      } else {
        SubseqTrans(a[..|a| - 1], b', c');
      }
    }
  }

  lemma {:induction false} KeptAppend<T>(a: seq<T>, b: seq<T>, p: T -> bool)
    ensures Kept(a + b, p) == Kept(a, p) + Kept(b, p)
    decreases |b|
  {
    if |b| == 0 {
      assert a + b == a;
    } else {
      var b' := b[..|b| - 1];
      assert (a + b)[..|a + b| - 1] == a + b';
      KeptAppend(a, b', p);
    }
  }

  /** Every kept element satisfies the predicate. */
  lemma {:induction false} KeptSatisfies<T>(s: seq<T>, p: T -> bool)
    ensures forall x :: x in Kept(s, p) ==> p(x)
    decreases |s|
  {
    if |s| > 0 {
      KeptSatisfies(s[..|s| - 1], p);
    }
  }

  /** The kept elements form an order-preserving subsequence. */
  lemma {:induction false} KeptSubseq<T>(s: seq<T>, p: T -> bool)
    ensures Subseq(Kept(s, p), s)
    decreases |s|
  {
    if |s| > 0 {
      var s' := s[..|s| - 1];
      KeptSubseq(s', p);
      var r := Kept(s, p);
      if p(s[|s| - 1]) {
        assert r == Kept(s', p) + [s[|s| - 1]];
        assert r[..|r| - 1] == Kept(s', p);
      } else {
        assert r == Kept(s', p);
      }
    }
  }

  /** Selection keeps every occurrence of a passing value and none of a failing one. */
  lemma {:induction false} KeptMultiplicity<T>(s: seq<T>, p: T -> bool)
    ensures forall x :: multiset(Kept(s, p))[x] == if p(x) then multiset(s)[x] else 0
    decreases |s|
  {
    if |s| > 0 {
      var s' := s[..|s| - 1];
      KeptMultiplicity(s', p);
      assert s == s' + [s[|s| - 1]];
    }
  }

  /** One more element goes to exactly one side of the split. */
  lemma KeptSplitStep<T>(s: seq<T>, p: T -> bool)
    requires |s| > 0
    ensures var s', x := s[..|s| - 1], s[|s| - 1];
      if p(x) then Kept(s, p) == Kept(s', p) + [x] && Kept(s, Not(p)) == Kept(s', Not(p))
      else Kept(s, p) == Kept(s', p) && Kept(s, Not(p)) == Kept(s', Not(p)) + [x]
  {
    assert Not(p)(s[|s| - 1]) == !p(s[|s| - 1]);
  }

  /** Adding the last element of `s` to one of two parts of a split of
      the rest splits `s`. */
  lemma SplitExtend<T>(s: seq<T>, a: seq<T>, b: seq<T>, a': seq<T>, b': seq<T>, left: bool)
    requires |s| > 0
    requires multiset(a) + multiset(b) == multiset(s[..|s| - 1])
    requires left ==> a' == a + [s[|s| - 1]] && b' == b
    requires !left ==> a' == a && b' == b + [s[|s| - 1]]
    ensures multiset(a') + multiset(b') == multiset(s)
  {
    var s', x := s[..|s| - 1], s[|s| - 1];
    assert s == s' + [x];
    assert multiset(s) == multiset(s') + multiset{x};
    if left {
      assert multiset(a') == multiset(a) + multiset{x};
    } else {
      assert multiset(b') == multiset(b) + multiset{x};
    }
  }

  lemma {:induction false} KeptSplitBag<T>(s: seq<T>, p: T -> bool)
    ensures multiset(Kept(s, p)) + multiset(Kept(s, Not(p))) == multiset(s)
    decreases |s|
  {
    if |s| > 0 {
      var s' := s[..|s| - 1];
      KeptSplitBag(s', p);
      KeptSplitStep(s, p);
      SplitExtend(s, Kept(s', p), Kept(s', Not(p)), Kept(s, p), Kept(s, Not(p)), p(s[|s| - 1]));
    }
  }

  lemma {:induction false} KeptSplitCount<T>(s: seq<T>, p: T -> bool)
    ensures |Kept(s, p)| + |Kept(s, Not(p))| == |s|
    decreases |s|
  {
    if |s| > 0 {
      KeptSplitCount(s[..|s| - 1], p);
      KeptSplitStep(s, p);
    }
  }

  /** Selecting by `p` and by its negation splits `s` with nothing lost or shared. */
  lemma KeptSplit<T>(s: seq<T>, p: T -> bool)
    ensures multiset(Kept(s, p)) + multiset(Kept(s, Not(p))) == multiset(s)
    ensures |Kept(s, p)| + |Kept(s, Not(p))| == |s|
  {
    KeptSplitBag(s, p);
    KeptSplitCount(s, p);
  }

  lemma {:induction false} KeptNothing<T>(s: seq<T>, p: T -> bool)
    requires forall i :: 0 <= i < |s| ==> !p(s[i])
    ensures Kept(s, p) == []
    decreases |s|
  {
    if |s| > 0 {
      KeptNothing(s[..|s| - 1], p);
    }
  }
}
