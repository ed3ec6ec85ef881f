/** The OBJECTS section of underbar: `extend` and `defaults`, which copy the
    properties of each source object, left to right, into a target object.
    Objects are finite maps from property names to values. */
module Objects {

  /** The index of the last source that has property `k`, or -1. */
  function LastWith<V>(sources: seq<map<string, V>>, k: string): (j: int)
    ensures -1 <= j < |sources|
    ensures j == -1 <==> forall i :: 0 <= i < |sources| ==> k !in sources[i]
    ensures j >= 0 ==> k in sources[j] && forall i :: j < i < |sources| ==> k !in sources[i]
    decreases |sources|
  {
    if |sources| == 0 then -1
    else if k in sources[|sources| - 1] then |sources| - 1
    else LastWith(sources[..|sources| - 1], k)
  }

  /** The index of the first source that has property `k`, or -1. */
  function FirstWith<V>(sources: seq<map<string, V>>, k: string): (j: int)
    ensures -1 <= j < |sources|
    ensures j == -1 <==> forall i :: 0 <= i < |sources| ==> k !in sources[i]
    ensures j >= 0 ==> k in sources[j] && forall i :: 0 <= i < j ==> k !in sources[i]
    decreases |sources|
  {
    if |sources| == 0 then -1
    else
      var j := FirstWith(sources[..|sources| - 1], k);
      if j >= 0 then j
      else if k in sources[|sources| - 1] then |sources| - 1
      else -1
  }

  /** The union of the property names of all sources. */
  ghost function SourceKeys<V>(sources: seq<map<string, V>>): set<string>
  {
    if |sources| == 0 then {} else SourceKeys(sources[..|sources| - 1]) + sources[|sources| - 1].Keys
  }

  /** A property is a source key exactly when some source has it, so when
      there is both a first and a last source with it. */
  lemma {:induction false} SourceKeysHave<V>(sources: seq<map<string, V>>, k: string)
    ensures k in SourceKeys(sources) <==> LastWith(sources, k) >= 0
    ensures k in SourceKeys(sources) <==> FirstWith(sources, k) >= 0
    decreases |sources|
  {
    if |sources| > 0 {
      SourceKeysHave(sources[..|sources| - 1], k);
    }
  }

  lemma SourceKeysSnoc<V>(ss: seq<map<string, V>>, src: map<string, V>)
    ensures SourceKeys(ss + [src]) == SourceKeys(ss) + src.Keys
  {
    assert (ss + [src])[..|ss|] == ss;
  }

  /** Appending a source does not move the first source with `k`; it only
      supplies one when there was none. */
  lemma FirstWithSnoc<V>(ss: seq<map<string, V>>, src: map<string, V>, k: string)
    ensures FirstWith(ss + [src], k) == if FirstWith(ss, k) >= 0 then FirstWith(ss, k) else if k in src then |ss| else -1
  {
    assert (ss + [src])[..|ss|] == ss;
  }

  /** One source copied by `extend`: every property of `src` is assigned. */
  function AssignAll<V>(obj: map<string, V>, src: map<string, V>): (r: map<string, V>)
    ensures r.Keys == obj.Keys + src.Keys
    ensures forall k :: k in src ==> r[k] == src[k]
    ensures forall k :: k in obj && k !in src ==> r[k] == obj[k]
  {
    obj + src
  }

  /** One source copied by `defaults`: a property of `src` is assigned only
      where `obj` has none. */
  function AssignMissing<V>(obj: map<string, V>, src: map<string, V>): (r: map<string, V>)
    ensures r.Keys == obj.Keys + src.Keys
    ensures forall k :: k in obj ==> r[k] == obj[k]
    ensures forall k :: k in src && k !in obj ==> r[k] == src[k]
  {
    map k | k in obj.Keys + src.Keys :: if k in obj then obj[k] else src[k]
  }

  /** `r` is what `extend(obj, sources...)` must produce. */
  ghost predicate Extended<V>(obj: map<string, V>, sources: seq<map<string, V>>, r: map<string, V>)
  {
    && r.Keys == obj.Keys + SourceKeys(sources)
    && forall k :: k in r ==> (var j := LastWith(sources, k); if j >= 0 then r[k] == sources[j][k] else k in obj && r[k] == obj[k])
  }

  /** `r` is what `defaults(obj, sources...)` must produce. */
  ghost predicate Defaulted<V>(obj: map<string, V>, sources: seq<map<string, V>>, r: map<string, V>)
  {
    && r.Keys == obj.Keys + SourceKeys(sources)
    && (forall k :: k in obj ==> r[k] == obj[k])
    && forall k :: k in r && k !in obj ==> FirstWith(sources, k) >= 0 && r[k] == sources[FirstWith(sources, k)][k]
  }

  /** The value `extend` gives one property is the last source's value once
      another source is appended. */
  lemma ExtendStepAt<V>(obj: map<string, V>, ss: seq<map<string, V>>, src: map<string, V>, prev: map<string, V>, k: string)
    requires Extended(obj, ss, prev)
    requires k in prev || k in src
    ensures var j := LastWith(ss + [src], k);
      if j >= 0 then AssignAll(prev, src)[k] == (ss + [src])[j][k] else k in obj && AssignAll(prev, src)[k] == obj[k]
  {
    var ss' := ss + [src];
    assert ss'[..|ss|] == ss;
    if k !in src {
      assert LastWith(ss', k) == LastWith(ss, k);
      var j := LastWith(ss, k);
      if j >= 0 {
        assert ss'[j] == ss[j];
      }
    }
  }

  /** The properties one more source adds to what has been assigned so far. */
  lemma AssignStepKeys<V>(obj: map<string, V>, ss: seq<map<string, V>>, src: map<string, V>, prev: map<string, V>, r: map<string, V>)
    requires prev.Keys == obj.Keys + SourceKeys(ss)
    requires r.Keys == prev.Keys + src.Keys
    ensures r.Keys == obj.Keys + SourceKeys(ss + [src])
  {
    SourceKeysSnoc(ss, src);
  }

  lemma ExtendStep<V>(obj: map<string, V>, ss: seq<map<string, V>>, src: map<string, V>, prev: map<string, V>)
    requires Extended(obj, ss, prev)
    ensures Extended(obj, ss + [src], AssignAll(prev, src))
  {
    var ss', r := ss + [src], AssignAll(prev, src);
    AssignStepKeys(obj, ss, src, prev, r);
    forall k | k in r
      ensures var j := LastWith(ss', k); if j >= 0 then r[k] == ss'[j][k] else k in obj && r[k] == obj[k]
    {
      ExtendStepAt(obj, ss, src, prev, k);
    }
  }

  /** The value `defaults` gives one property not owned by `obj` is still
      the first source's value once another source is appended. */
  lemma DefaultsStepAt<V>(obj: map<string, V>, ss: seq<map<string, V>>, src: map<string, V>, prev: map<string, V>, k: string)
    requires Defaulted(obj, ss, prev)
    requires k !in obj && (k in prev || k in src)
    ensures FirstWith(ss + [src], k) >= 0
    ensures AssignMissing(prev, src)[k] == (ss + [src])[FirstWith(ss + [src], k)][k]
  {
    FirstWithSnoc(ss, src, k);
    if k in prev {
      var j := FirstWith(ss, k);
      assert (ss + [src])[j] == ss[j];
    } else {
      SourceKeysHave(ss, k);
    }
  }

  lemma DefaultsStep<V>(obj: map<string, V>, ss: seq<map<string, V>>, src: map<string, V>, prev: map<string, V>)
    requires Defaulted(obj, ss, prev)
    ensures Defaulted(obj, ss + [src], AssignMissing(prev, src))
  {
    var ss', r := ss + [src], AssignMissing(prev, src);
    AssignStepKeys(obj, ss, src, prev, r);
    forall k | k in r && k !in obj
      ensures FirstWith(ss', k) >= 0 && r[k] == ss'[FirstWith(ss', k)][k]
    {
      DefaultsStepAt(obj, ss, src, prev, k);
    }
  }

  /** `extend(obj, source1, ..., sourceN)`: every property of every source is
      assigned into `obj` in turn, so the result has the properties of `obj`
      and of all sources, and each property holds the value of the last
      source that has it, or `obj`'s own value if no source has it. */
  method Extend<V>(obj: map<string, V>, sources: seq<map<string, V>>) returns (r: map<string, V>)
    ensures r.Keys == obj.Keys + SourceKeys(sources)
    ensures forall k :: k in r ==> (var j := LastWith(sources, k); if j >= 0 then r[k] == sources[j][k] else k in obj && r[k] == obj[k])
  {
    r := obj;
    var i := 0;
    assert sources[..0] == [];
    while i < |sources|
      invariant 0 <= i <= |sources|
      invariant Extended(obj, sources[..i], r)
    {
      // the visitor `obj[key] = value`, applied to every property of sources[i]
      assert sources[..i + 1] == sources[..i] + [sources[i]];
      ExtendStep(obj, sources[..i], sources[i], r);
      r := AssignAll(r, sources[i]);
      i := i + 1;
    }
    assert sources[..i] == sources;
  }

  /** `defaults(obj, source1, ..., sourceN)`: like `extend`, but a property is
      assigned only when `obj` does not have it yet, so `obj`'s own values are
      never overwritten and otherwise the first source that has a property
      decides its value. */
  method Defaults<V>(obj: map<string, V>, sources: seq<map<string, V>>) returns (r: map<string, V>)
    ensures r.Keys == obj.Keys + SourceKeys(sources)
    ensures forall k :: k in obj ==> r[k] == obj[k]
    ensures forall k :: k in r && k !in obj ==> FirstWith(sources, k) >= 0 && r[k] == sources[FirstWith(sources, k)][k]
  {
    r := obj;
    var i := 0;
    assert sources[..0] == [];
    while i < |sources|
      invariant 0 <= i <= |sources|
      invariant Defaulted(obj, sources[..i], r)
    {
      // the visitor `if (!obj.hasOwnProperty(key)) obj[key] = value`, applied to every property of sources[i]
      assert sources[..i + 1] == sources[..i] + [sources[i]];
      DefaultsStep(obj, sources[..i], sources[i], r);
      r := AssignMissing(r, sources[i]);
      i := i + 1;
    }
    assert sources[..i] == sources;
  }
}
