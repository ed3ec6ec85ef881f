/** The FUNCTIONS section of underbar: `once` and `memoize`, decorators that
    keep private state in the closure of the wrapper they return. Each is
    modelled twice: as a pure state machine (one call is a step from state to
    state, a run of calls is a fold of steps) about which the properties are
    proved, and as a class whose fields are the closure variables and whose
    `Call` method is the wrapper. The wrapped function is a pure function
    value; the number of times it runs is counted explicitly. */
module Decorators {

  // ---------------------------------------------------------------------------
  // once

  /** The closure of `once`: `alreadyCalled` is `Called?`, and `result` is
      the value stored by the first call. */
  datatype OnceGuard<R> = NotCalled | Called(result: R)

  /** The outcome of one call of a wrapper: the state afterwards, the value
      returned, and whether the wrapped function ran. */
  datatype Step<S, R> = Step(state: S, returned: R, ran: bool)

  /** One call of the wrapper returned by `once(f)`. */
  function OnceCall<A, R>(f: A -> R, g: OnceGuard<R>, arg: A): (out: Step<OnceGuard<R>, R>)
    ensures out.state == Called(out.returned)
    ensures out.ran <==> g.NotCalled?
    ensures g.Called? ==> out.returned == g.result && out.state == g
    ensures g.NotCalled? ==> out.returned == f(arg)
  {
    match g
    case NotCalled => var result := f(arg); Step(Called(result), result, true)
    case Called(result) => Step(g, result, false)
  }

  /** The results of a run of calls and the number of times the wrapped function ran. */
  datatype Run<S, R> = Run(state: S, results: seq<R>, calls: nat)

  /** Calls the `once` wrapper with each of `args` in turn, starting from `g`. */
  function OnceRun<A, R>(f: A -> R, g: OnceGuard<R>, args: seq<A>): Run<OnceGuard<R>, R>
    decreases |args|
  {
    if |args| == 0 then Run(g, [], 0)
    else
      var prev := OnceRun(f, g, args[..|args| - 1]);
      var step := OnceCall(f, prev.state, args[|args| - 1]);
      Run(step.state, prev.results + [step.returned], prev.calls + if step.ran then 1 else 0)
  }

  /** A fresh `once` wrapper runs the wrapped function exactly once over any
      non-empty run of calls, whatever the arguments, and every call, the
      first included, returns the result of that first call. */
  lemma {:induction false} OnceRunsAtMostOnce<A, R>(f: A -> R, args: seq<A>)
    ensures OnceRun(f, NotCalled, args).calls == if |args| == 0 then 0 else 1
    ensures |OnceRun(f, NotCalled, args).results| == |args|
    ensures forall i :: 0 <= i < |args| ==> OnceRun(f, NotCalled, args).results[i] == f(args[0])
    ensures |args| > 0 ==> OnceRun(f, NotCalled, args).state == Called(f(args[0]))
    decreases |args|
  {
    if |args| > 0 {
      var init := args[..|args| - 1];
      OnceRunsAtMostOnce(f, init);
      if |init| > 0 {
        assert init[0] == args[0];
      }
    }
  }

  /** The wrapper returned by `once(func)`, with its closure as fields. */
  class Once<A, R> {
    const f: A -> R
    var guard: OnceGuard<R>
    ghost var calls: nat

    /** The wrapped function has run once if and only if the guard is set. */
    ghost predicate Valid()
      reads this
    {
      calls == if guard.Called? then 1 else 0
    }

    constructor (f: A -> R)
      ensures this.f == f && guard == NotCalled && calls == 0 && Valid()
    {
      this.f := f;
      guard := NotCalled;
      calls := 0;
    }

    /** A call of the wrapper: runs `f` only while the guard is unset, and
        always returns the stored first result. */
    method Call(arg: A) returns (r: R)
      requires Valid()
      modifies this
      ensures Valid() && calls <= 1
      ensures guard == Called(r)
      ensures old(guard).Called? ==> r == old(guard).result && calls == old(calls)
      ensures old(guard).NotCalled? ==> r == f(arg) && calls == 1
      ensures Step(guard, r, calls != old(calls)) == OnceCall(f, old(guard), arg)
    {
      if guard.NotCalled? {
        var result := f(arg);
        guard := Called(result);
        calls := calls + 1;
      }
      r := guard.result;
    }
  }

  // ---------------------------------------------------------------------------
  // memoize

  /** One call of the wrapper returned by `memoize(f)`. `keyOf` is the
      conversion of the argument to a property name of the cache object
      (JavaScript's string conversion), so arguments with the same key share
      one cache entry. */
  function MemoCall<A, K(==), R>(f: A -> R, keyOf: A -> K, cache: map<K, R>, arg: A): (out: Step<map<K, R>, R>)
    ensures out.state.Keys == cache.Keys + {keyOf(arg)}
    ensures forall k :: k in cache ==> out.state[k] == cache[k]
    ensures out.returned == out.state[keyOf(arg)]
    ensures out.ran <==> keyOf(arg) !in cache
    ensures out.ran ==> out.returned == f(arg)
  {
    var key := keyOf(arg);
    var missing := key !in cache;
    var cache' := if missing then cache[key := f(arg)] else cache;
    Step(cache', cache'[key], missing)
  }

  /** Calls the `memoize` wrapper with each of `args` in turn, starting from `cache`. */
  function MemoRun<A, K(==), R>(f: A -> R, keyOf: A -> K, cache: map<K, R>, args: seq<A>): Run<map<K, R>, R>
    decreases |args|
  {
    if |args| == 0 then Run(cache, [], 0)
    else
      var prev := MemoRun(f, keyOf, cache, args[..|args| - 1]);
      var step := MemoCall(f, keyOf, prev.state, args[|args| - 1]);
      Run(step.state, prev.results + [step.returned], prev.calls + if step.ran then 1 else 0)
  }

  /** The distinct keys of a run of arguments. */
  ghost function KeysOf<A, K>(keyOf: A -> K, args: seq<A>): set<K>
  {
    set i | 0 <= i < |args| :: keyOf(args[i])
  }

  lemma KeysOfSnoc<A, K>(keyOf: A -> K, args: seq<A>)
    requires |args| > 0
    ensures KeysOf(keyOf, args) == KeysOf(keyOf, args[..|args| - 1]) + {keyOf(args[|args| - 1])}
  {
    var init := args[..|args| - 1];
    assert forall i :: 0 <= i < |init| ==> args[i] == init[i];
  }

  lemma {:induction false} MemoRunKeys<A, K, R>(f: A -> R, keyOf: A -> K, args: seq<A>)
    ensures MemoRun(f, keyOf, map[], args).state.Keys == KeysOf(keyOf, args)
    ensures MemoRun(f, keyOf, map[], args).calls == |KeysOf(keyOf, args)|
    ensures |MemoRun(f, keyOf, map[], args).results| == |args|
    decreases |args|
  {
    if |args| > 0 {
      MemoRunKeys(f, keyOf, args[..|args| - 1]);
      KeysOfSnoc(keyOf, args);
    }
  }

  /** The last call of a run, in terms of the run before it. */
  lemma MemoRunSnoc<A, K, R>(f: A -> R, keyOf: A -> K, args: seq<A>)
    requires |args| > 0
    ensures var prev := MemoRun(f, keyOf, map[], args[..|args| - 1]);
      var step := MemoCall(f, keyOf, prev.state, args[|args| - 1]);
      && MemoRun(f, keyOf, map[], args).state == step.state
      && MemoRun(f, keyOf, map[], args).results == prev.results + [step.returned]
  {
  }

  /** Entries only accumulate: a later call never changes an earlier entry,
      and every earlier call's result is still the cached value for its key. */
  lemma {:induction false} MemoRunReturnsCached<A, K, R>(f: A -> R, keyOf: A -> K, args: seq<A>)
    ensures |MemoRun(f, keyOf, map[], args).results| == |args|
    ensures forall i :: 0 <= i < |args| ==>
      keyOf(args[i]) in MemoRun(f, keyOf, map[], args).state
      && MemoRun(f, keyOf, map[], args).results[i] == MemoRun(f, keyOf, map[], args).state[keyOf(args[i])]
    decreases |args|
  {
    if |args| > 0 {
      var n := |args| - 1;
      var init := args[..n];
      MemoRunReturnsCached(f, keyOf, init);
      MemoRunSnoc(f, keyOf, args);
      var prev := MemoRun(f, keyOf, map[], init);
      var step := MemoCall(f, keyOf, prev.state, args[n]);
      var out := MemoRun(f, keyOf, map[], args);
      forall i | 0 <= i < |args|
        ensures keyOf(args[i]) in out.state && out.results[i] == out.state[keyOf(args[i])]
      {
        if i < n {
          assert args[i] == init[i];
          assert out.results[i] == prev.results[i];
        } else {
          assert out.results[i] == step.returned;
        }
      }
    }
  }

  lemma {:induction false} MemoRunFirstValue<A, K, R>(f: A -> R, keyOf: A -> K, args: seq<A>)
    ensures forall i :: 0 <= i < |args| && keyOf(args[i]) !in KeysOf(keyOf, args[..i]) ==>
      keyOf(args[i]) in MemoRun(f, keyOf, map[], args).state
      && MemoRun(f, keyOf, map[], args).state[keyOf(args[i])] == f(args[i])
    decreases |args|
  {
    if |args| > 0 {
      var n := |args| - 1;
      var init := args[..n];
      MemoRunFirstValue(f, keyOf, init);
      MemoRunKeys(f, keyOf, init);
      MemoRunSnoc(f, keyOf, args);
      var prev := MemoRun(f, keyOf, map[], init);
      var out := MemoRun(f, keyOf, map[], args);
      var step := MemoCall(f, keyOf, prev.state, args[n]);
      assert out.state == step.state;
      forall i | 0 <= i < |args| && keyOf(args[i]) !in KeysOf(keyOf, args[..i])
        ensures keyOf(args[i]) in out.state && out.state[keyOf(args[i])] == f(args[i])
      {
        var key := keyOf(args[i]);
        if i < n {
          assert args[..i] == init[..i];
          assert args[i] == init[i];
          assert key in prev.state && prev.state[key] == f(args[i]);
        } else {
          assert args[..i] == init;
          assert key !in prev.state;
        }
      }
    }
  }

  /** Over any run of calls of a fresh `memoize` wrapper, the wrapped function
      runs exactly once per distinct key; the cache then holds exactly those
      keys, each with the result for the first argument that had that key,
      and every call returns the cached value for its key. */
  lemma MemoRunsOncePerKey<A, K, R>(f: A -> R, keyOf: A -> K, args: seq<A>)
    ensures MemoRun(f, keyOf, map[], args).state.Keys == KeysOf(keyOf, args)
    ensures MemoRun(f, keyOf, map[], args).calls == |KeysOf(keyOf, args)|
    ensures |MemoRun(f, keyOf, map[], args).results| == |args|
    ensures forall i :: 0 <= i < |args| ==>
      MemoRun(f, keyOf, map[], args).results[i] == MemoRun(f, keyOf, map[], args).state[keyOf(args[i])]
    ensures forall i :: 0 <= i < |args| && keyOf(args[i]) !in KeysOf(keyOf, args[..i]) ==>
      MemoRun(f, keyOf, map[], args).state[keyOf(args[i])] == f(args[i])
  {
    MemoRunKeys(f, keyOf, args);
    MemoRunReturnsCached(f, keyOf, args);
    MemoRunFirstValue(f, keyOf, args);
  }

  /** The wrapper returned by `memoize(func)`, with its closure as fields. */
  class Memo<A, K(==), R> {
    const f: A -> R
    const keyOf: A -> K
    var cache: map<K, R>
    ghost var calls: nat

    /** The wrapped function has run once per cache entry. */
    ghost predicate Valid()
      reads this
    {
      calls == |cache.Keys|
    }

    constructor (f: A -> R, keyOf: A -> K)
      ensures this.f == f && this.keyOf == keyOf && cache == map[] && calls == 0 && Valid()
    {
      this.f := f;
      this.keyOf := keyOf;
      cache := map[];
      calls := 0;
    }

    /** A call of the wrapper: computes and stores `f(param)` only when the
        cache has no entry for its key, and returns the cached value. */
    method Call(param: A) returns (r: R)
      requires Valid()
      modifies this
      ensures Valid()
      ensures cache.Keys == old(cache).Keys + {keyOf(param)}
      ensures forall k :: k in old(cache) ==> cache[k] == old(cache)[k]
      ensures r == cache[keyOf(param)]
      ensures keyOf(param) !in old(cache) ==> r == f(param) && calls == old(calls) + 1
      ensures keyOf(param) in old(cache) ==> calls == old(calls)
    {
      var key := keyOf(param);
      if key !in cache {
        cache := cache[key := f(param)];
        calls := calls + 1;
      }
      r := cache[key];
    }
  }
}
