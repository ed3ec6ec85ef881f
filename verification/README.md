# underbar in Dafny

A model of underbar, a small JavaScript library of collection primitives.
It covers traversal (`each`), search (`first`, `indexOf`), filtering
(`filter`, `reject`, `uniq`), transformation (`map`, `pluck`), aggregation
(`reduce`, `contains`, `every`, `some`), and object merging (`extend`,
`defaults`). It also covers the decorators `once` and `memoize`, the
multi-array operations (`zip`, `flatten`, `intersection`, `difference`) and
the selection sort `sortBy`.

Arrays are `seq`. Objects are `map<string, V>`. JavaScript's `undefined` is
`Option.None`. Iterators and predicates are pure Dafny functions.

The library builds almost everything on `each`. Its callbacks talk back only
by mutating variables of the enclosing closure. The model makes that state
explicit: a visitor is a function `(state, value, index) -> state`, and
`Traversal.Each` threads the state through the array in index order. Each
operation is written the way the library writes it, as a visitor passed to
`Each`. A lemma then connects it to an independent declarative reference
(`Sequences.Kept`, `Collections.FirstOccurrences`, `Collections.FoldLeft`,
`Sorter.IsFirstMinimum`, ...). `Traversal.EachInvariant` is the proof rule
those lemmas share.

Modules:

- `Options`: the `Option` datatype (`undefined`).
- `Sequences`: reference notions, namely selection by a predicate
  (`Kept`), order-preserving subsequence (`Subseq`) and `NoDuplicates`.
- `Traversal`: `each`.
- `Collections`: `first`, `indexOf`, `filter`, `reject`, `uniq`, `map`,
  `pluck`, `reduce`, `contains`, `every`, `some`.
- `Objects`: `extend`, `defaults`.
- `Decorators`: `once` and `memoize`. Each one is modelled as a pure state
  machine, and the properties are proved there. Each one is also modelled as
  a class whose fields are the closure variables, with a ghost counter of
  how often the wrapped function ran.
- `SetAlgebra`: `zip`, `flatten` over `Nested<T> = Leaf(T) | Node(seq<Nested<T>>)`,
  `intersection`, `difference`.
- `Sorter`: `sortBy`, with keys of type `Option<int>`.
- `LastElements`: `last`, both as written and as evidently intended (see Findings).

Three behaviours of the code worth knowing:

- `each` tests `collection.isArray`, which no array has. Arrays therefore
  take the `for ... in` branch. For a dense array that branch visits indices
  in ascending order but passes them as strings, and `indexOf` converts them
  back with `parseInt`. The model visits in index order and passes the index
  as a number. The observable results of the modelled operations are the same.
- `flatten` of a top-level value that is not an array returns `[]`; it does
  not pass the value through.
- `invoke` does not forward its `args`; it is left out (see below).

## Model

| member | source | states |
|---|---|---|
| Traversal.EachSnoc | src/underbar.js:51-61 | `each` visits in ascending index order: traversing `s + [x]` is traversing `s`, then visiting `x` last, at index `|s|` |
| Traversal.EachInvariant | src/underbar.js:51-61 | a property of the closure state that holds initially and survives every visit, in index order, holds after the traversal |
| Collections.First | src/underbar.js:26-28 | `first` without `n` is the element at index 0, and `undefined` exactly for the empty array |
| Collections.FirstN | src/underbar.js:19-25 | `first(array, n)` is a prefix of the array of length `n`; it is empty for `n <= 0` and the whole array when `n` exceeds the length |
| Collections.IndexOf | src/underbar.js:65-76 | the result is -1 iff the target is absent; otherwise it is an index holding the target, with no earlier occurrence |
| Collections.Filter | src/underbar.js:79-87 | the output of the `each`-based filter is exactly the passing elements in input order (`Kept`) |
| Collections.Reject | src/underbar.js:90-97 | `reject` keeps exactly the failing elements in input order |
| Collections.FilterRejectPartition | src/underbar.js:79-97 | filter and reject are order-preserving subsequences; kept elements pass and rejected ones fail; lengths sum to the input's; multisets sum to the input's |
| Collections.Uniq | src/underbar.js:100-108 | `reject` with the stateful `duplicate` test yields the values in order of first occurrence |
| Collections.UniqProperties | src/underbar.js:100-108 | the output of `uniq` has no repeated value, holds every value of the input, and is a subsequence of it |
| Collections.UniqExample | src/underbar.js:100-108 | for example, `uniq([1,2,1,3,2])` is `[1,2,3]` |
| Collections.Map | src/underbar.js:112-122 | `map` has the input's length, and position `i` holds the iterator applied to input `i` |
| Collections.Pluck | src/underbar.js:133-140 | position `i` holds object `i`'s value for the property, or `undefined` when the object lacks it |
| Collections.Reduce | src/underbar.js:164-169 | `reduce` equals the left fold of the iterator from the seed |
| Collections.ReduceOrZero | src/underbar.js:164-169 | an omitted seed behaves as seed 0; a given seed is used as is |
| Collections.ReduceSumExample | src/underbar.js:158-162 | the documented example: summing `[1,2,3]` from seed 0 gives 6 |
| Collections.ReduceSeedExamples | src/underbar.js:164-169 | summing `[1,2,3]` with the seed omitted gives 6; reducing `[]` from seed 10 gives 10 |
| Collections.Contains | src/underbar.js:172-181 | `contains` is true iff the target occurs in the array |
| Collections.Every | src/underbar.js:185-192 | `every` is true iff every element passes; true on the empty array |
| Collections.SomePass | src/underbar.js:196-212 | `some`, computed as the negation of `every` with the negated predicate, is true iff some element passes; false on the empty array |
| Objects.Extend | src/underbar.js:233-241 | result keys are `obj`'s keys plus all source keys; each key holds the value from the last source having it, else `obj`'s value |
| Objects.Defaults | src/underbar.js:245-253 | result keys are the same union; `obj`'s values are never overwritten; any other key holds the value from the first source having it |
| Decorators.OnceCall | src/underbar.js:274-283 | one wrapper call runs `func` iff the guard is unset, sets the guard, and returns the stored first result |
| Decorators.Once.Call | src/underbar.js:274-283 | the class form of the `once` wrapper: one call runs `func` only while the guard is unset, then returns the stored first result; the ghost run counter stays at most 1, and each call is the step `OnceCall` |
| Decorators.OnceRunsAtMostOnce | src/underbar.js:266-284 | over any run of calls on a fresh wrapper, `func` runs exactly once (none for no calls), and every call returns `func` applied to the first call's argument |
| Decorators.MemoCall | src/underbar.js:294-299 | a call writes a cache entry only when its key is absent, never changes an existing entry, runs `func` iff the key was absent, and returns the entry |
| Decorators.Memo.Call | src/underbar.js:294-299 | the class form of the `memoize` wrapper: one call adds only its own key to the cache, never changes an existing entry, runs `func` only on a miss, and returns the entry; the ghost run counter equals the number of entries |
| Decorators.MemoRunKeys | src/underbar.js:292-300 | after any run of calls on a fresh wrapper, the cache holds exactly the keys of the arguments, `func` has run once per distinct key, and there is one result per call |
| Decorators.MemoRunReturnsCached | src/underbar.js:294-298 | every call of a run returns the value its key has in the final cache, since entries are never overwritten |
| Decorators.MemoRunFirstValue | src/underbar.js:295-297 | the cached value for a key is `func` of the first argument with that key |
| Decorators.MemoRunsOncePerKey | src/underbar.js:292-300 | over any run of calls on a fresh wrapper, `func` runs once per distinct key; the cache holds exactly those keys, each with the first such argument's result; every call returns its key's entry |
| SetAlgebra.MaxLength | src/underbar.js:378-381 | the scan over the arguments finds a length no array exceeds and that some array has (0 when there are none) |
| SetAlgebra.Zip | src/underbar.js:375-389 | there are as many rows as the longest array has elements; each row has one entry per array; entry `(i, j)` is array `j`'s `i`-th element, or `undefined` past its end |
| SetAlgebra.ZipUnzip | src/underbar.js:375-389 | `zip` builds as many rows as the longest array, each with one cell per array holding that array's element at the row index or `undefined`; reading column `j` down to the first `undefined` gives back array `j` |
| SetAlgebra.Flatten | src/underbar.js:395-413 | a top-level value that is not an array, and an empty array, flatten to `[]` |
| SetAlgebra.FlattenContents | src/underbar.js:395-413 | a value is in the flattened output iff the input is an array and the value occurs at some depth inside it |
| SetAlgebra.ArrayElementsAppend | src/underbar.js:397-410 | flattening the elements of an array distributes over splitting those elements into a left and a right part |
| SetAlgebra.FlattenSplice | src/underbar.js:400-406 | a nested array contributes its own flattening at its position, between the values of the elements before and after it |
| SetAlgebra.FlattenDepthFirst | src/underbar.js:395-413 | `flatten` of an array is its depth-first, left-to-right list of non-array values, every occurrence kept, as given by an independent definition from the front |
| SetAlgebra.FlattenFlat | src/underbar.js:395-413 | flattening an already flat array gives back its values |
| SetAlgebra.FlattenIdempotent | src/underbar.js:395-413 | flattening the flattened values again changes nothing |
| SetAlgebra.EmptySubarrayVanishes | src/underbar.js:400-406 | an empty nested array contributes nothing at its position in any array; with `FlattenSplice` this holds at every depth |
| SetAlgebra.Intersection | src/underbar.js:417-429 | the result is a subsequence of the first array; each value keeps all its occurrences if every other array contains it and none otherwise |
| SetAlgebra.Difference | src/underbar.js:433-444 | the result is a subsequence of the first array; each value keeps all its occurrences if no other array contains it and none otherwise |
| Sorter.SelectMin | src/underbar.js:351-359 | one scan with the strict `<` finds the first position holding a least key, where `undefined` is above every defined key |
| Sorter.PlaceMinimum | src/underbar.js:361-365 | splicing out the first least element and putting it before a sorted, stable arrangement of the rest keeps the arrangement a permutation, sorted and stable |
| Sorter.SortBy | src/underbar.js:347-368 | the output is a permutation of the input; its keys are nondecreasing, with every `undefined` key after all defined ones; elements with the same key, `undefined` included, keep their input order |
| LastElements.Last | src/underbar.js:44-46 | `last` without `n` is the final element, and `undefined` exactly for the empty array |
| LastElements.LastNAsWritten | src/underbar.js:34-43 | as written, `last(array, n)` returns the whole array when it is shorter than `n`, otherwise the elements at indices 1 to `n` |
| LastElements.LastNAsWrittenCounterexample | src/underbar.js:39-41 | `last([1,2,3], 1)` is `[2]`, not `[3]`; `last([1,2], 2)` is `[2, undefined]` |
| LastElements.LastN | src/underbar.js:31-47 | the intended `last(array, n)` is the suffix of length `n`; it is capped at the array's length and empty for `n <= 0` |
| LastElements.LastNOfOne | src/underbar.js:31-47 | the intended `last(array, 1)` is `[last(array)]`, and empty for the empty array |
| LastElements.LastNAsWrittenAgrees | src/underbar.js:34-43 | the code as written returns the last `n` elements exactly when `n <= 0`, `n` exceeds the length, or `n` is below the length and `array[1..n]` equals the last `n` elements; never when `n` equals the length |

## Left out

- `delay`: it schedules a call with `setTimeout`. That is timer and asynchronous behaviour.
- `shuffle`: its output depends on `Math.random`, so it has no deterministic result to state.
- `invoke`: it uses dynamic method lookup and `this` binding, and ignores its `args`. All that is left to state is that it returns its input.
- `chain` and `throttle`: they are empty stubs.
- Traversal of objects by `each` (`for ... in` order, inherited properties): only arrays are traversed. The order inside one source cannot matter to `extend` and `defaults`, since its keys are distinct.
- Objects.Extend: a source with a truthy `isArray` property is walked by `each` as an array, by index up to its `length`, so JavaScript copies only `source[0]` to `source[length - 1]`, under the keys 0 to `length - 1`, and nothing when `length` is not a positive number; the model copies every property. It also does not model aliasing: in JavaScript `extend(a, b, a)` sees `a` already updated by `b`, while the model treats every source as a value taken before the call.
- Objects.Defaults: the same two cases as `extend`, a source with a truthy `isArray` property, and `obj` appearing again among the sources, are not modelled.
- Decorators.OnceCall: `func` is assumed to return normally and not to call the wrapper again. The guard is set only after `func` returns (src/underbar.js:278-279), so a `func` that throws or re-enters runs again, and "at most once" does not hold then. The same applies to Decorators.OnceRunsAtMostOnce and Decorators.Once.Call.
- Decorators.MemoCall: `func` is assumed to return normally and not to call the wrapper again. The entry is written only after `func` returns (src/underbar.js:296), so a throwing or re-entrant `func` runs again for the same key, and "once per key" does not hold then. The same applies to the `MemoRun` lemmas and Decorators.Memo.Call.
- `every` and `some` without an iterator: they rely on loose equality with `true` and a special case for strings. Predicates are modelled as functions to `bool` only.
- `===` is Dafny equality. JavaScript's `NaN !== NaN` and reference identity of objects are not modelled.
- `hasOwnProperty`, as used by `defaults` and `memoize`, is modelled as plain key membership. Prototype properties are not modelled.
- `memoize` converts its argument to a property name. That conversion is the parameter `keyOf`, so arguments with equal names share an entry; the conversion itself is not modelled.
- `once`: the `this` receiver and multiple arguments are not modelled. The wrapped function takes one argument value.
- `sortBy`: keys are integers or `undefined`. String keys, mixed-type comparison and the property-name form of the iterator are not modelled. A property name is represented by a key function.
- `zip`: all arrays share one element type.
- `intersection` with no arguments returns `undefined`. That case is not modelled; the first array is a parameter.
- `first(array, n)` and `last(array, n)` with a non-integer `n` are not modelled.
- The classes `Decorators.Once` and `Decorators.Memo` mirror the pure state machines. Their `Call` contracts speak of the state before and after a call; the properties over runs of calls are proved on the state machines.

## Findings

| source | as written | input that shows it | evidently intended | confidence | as-written member | corrected member |
|---|---|---|---|---|---|---|
| src/underbar.js:39-41 | when `n` is at most the length, the loop prepends `array[i]` for `i` from `n` down to 1, giving the elements at indices 1 to `n` | `last([1,2,3], 1)` gives `[2]`; `last([1,2], 2)` gives `[2, undefined]` | the last `n` elements, indices `length - n` to `length - 1` | high; not executed | LastElements.LastNAsWritten (shown by LastElements.LastNAsWrittenCounterexample) | LastElements.LastN (property: LastElements.LastNAsWrittenAgrees) |
