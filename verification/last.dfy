/** `last(array, n)`. Without `n` it returns the last element. With `n` the
    loop walks `i` from `n` down to 1 and prepends `array[i]`, which yields
    `array[1..n]` rather than the last `n` elements, and reads past the end
    when `n` equals the length. Both the code as written and the evidently
    intended suffix are modelled. */
module LastElements {
  import opened Options

  /** `last(array)` without `n`: the element at `length - 1`, or `undefined`. */
  function Last<T>(a: seq<T>): (r: Option<T>)
    ensures r.None? <==> |a| == 0
    ensures r.Some? ==> r.value == a[|a| - 1]
  {
    At(a, |a| - 1)
  }

  /** The loop `for (i = n; i > 0; i--) rArray.unshift(array[i])`, from
      `i` down, prepending onto `acc`. */
  function UnshiftDown<T>(a: seq<T>, i: int, acc: seq<Option<T>>): (r: seq<Option<T>>)
    ensures i <= 0 ==> r == acc
    ensures i > 0 ==> |r| == |acc| + i
    ensures i > 0 ==> forall k :: 0 <= k < i ==> r[k] == At(a, k + 1)
    ensures i > 0 ==> forall j :: i <= j < |r| ==> r[j] == acc[j - i]
    decreases i
  {
    if i <= 0 then acc
    else
      var acc' := [At(a, i)] + acc;
      var r := UnshiftDown(a, i - 1, acc');
      assert r[i - 1] == acc'[0];
      r
  }

  /** Every element of `a`, as defined values. */
  function Defined<T>(a: seq<T>): (r: seq<Option<T>>)
    ensures |r| == |a| && forall k :: 0 <= k < |a| ==> r[k] == Some(a[k])
  {
    seq(|a|, k requires 0 <= k < |a| => Some(a[k]))
  }

  /** `last(array, n)` as written: the whole array when it is shorter than
      `n`, and otherwise `array[1], ..., array[n]`. */
  function LastNAsWritten<T>(a: seq<T>, n: int): (r: seq<Option<T>>)
    ensures |a| < n ==> r == Defined(a)
    ensures n <= |a| ==> |r| == (if n < 0 then 0 else n) && forall k :: 0 <= k < |r| ==> r[k] == At(a, k + 1)
  {
    if |a| < n then Defined(a) else UnshiftDown(a, n, [])
  }

  /** The as-written code misses the last element: `last([1,2,3], 1)` is
      `[2]`, and `last([1,2], 2)` is `[2, undefined]`. */
  lemma LastNAsWrittenCounterexample()
    ensures LastNAsWritten([1, 2, 3], 1) == [Some(2)]
    ensures Last([1, 2, 3]) == Some(3)
    ensures LastNAsWritten([1, 2], 2) == [Some(2), None]
  {
    var r := LastNAsWritten([1, 2, 3], 1);
    assert r[0] == At([1, 2, 3], 1);
    var q := LastNAsWritten([1, 2], 2);
    assert q[0] == At([1, 2], 1) && q[1] == At([1, 2], 2);
  }

  /** `last(array, n)` as evidently intended: the last `n` elements, the
      whole array when it has fewer, none for `n <= 0`. */
  function LastN<T>(a: seq<T>, n: int): (r: seq<T>)
    ensures |r| == if n <= 0 then 0 else if n <= |a| then n else |a|
    ensures r == a[|a| - |r|..]
  {
    if n <= 0 then [] else if n <= |a| then a[|a| - n..] else a
  }

  /** For `n = 1` the intended `last(array, n)` agrees with `last(array)`. */
  lemma LastNOfOne<T>(a: seq<T>)
    ensures |a| > 0 ==> LastN(a, 1) == [Last(a).value]
    ensures |a| == 0 ==> LastN(a, 1) == [] && Last(a) == None
  {
  }

  /** Exactly when the code as written returns the intended last `n`
      elements: always for `n <= 0` or `n` beyond the length, never for `n`
      equal to the length (it reads past the end), and otherwise only when
      `array[1..n]` happens to equal the last `n` elements. */
  lemma {:induction false} LastNAsWrittenAgrees<T>(a: seq<T>, n: int)
    ensures LastNAsWritten(a, n) == Defined(LastN(a, n)) <==>
      n <= 0 || |a| < n || (n < |a| && a[1..n + 1] == a[|a| - n..])
  {
    var w := LastNAsWritten(a, n);
    var d := Defined(LastN(a, n));
    if 0 < n <= |a| {
      assert |w| == n && |d| == n;
      if n == |a| {
        assert w[n - 1] == None;
        assert w != d;
      } else {
        var front, back := a[1..n + 1], a[|a| - n..];
        if w == d {
          forall k | 0 <= k < n
            ensures front[k] == back[k]
          {
            assert w[k] == Some(a[k + 1]) && d[k] == Some(a[|a| - n + k]);
          }
        }
        if front == back {
          forall k | 0 <= k < n
            ensures w[k] == d[k]
          {
            assert front[k] == back[k];
          }
        }
      }
    } else if n <= 0 {
      assert w == [] && d == [];
    }
  }
}
