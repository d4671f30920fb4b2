# Underscore-style utilities, modelled in Dafny

This project models `src/underscore_tests.js`, a small Underscore-style
library of array, object and function helpers. The model follows the code
as written, including where it departs from Underscore and from its own
comments:

- JavaScript arrays are Dafny sequences.
- Plain objects are `map<string, V>`.
- "undefined" is `None` of an `Option`.
- A user-supplied iterator is a total Dafny function. A predicate's boolean
  result stands for the truthiness of what the JavaScript iterator
  returned.

Modules:

- `Wrappers` holds `Option`.
- `SequenceOps` covers `first`, `last`, `indexOf`, `filter`, `reject`,
  `uniq`, `map`, `pluck`, `reduce`, `contains`, `every` and `some`.
- `ObjectOps` covers `extend` and `defaults`, with reference merge
  definitions for the two precedence policies.
- `FunctionOps` models `once` as a state machine, including calls whose
  wrapped function throws.
- `Sorting` covers `sortBy`: a stable insertion sort, with proofs of
  permutation, order and stability.
- `OrderingOps` covers `zip`, `flatten`, `intersection` and `difference`.

Where the code and the library's documented intent differ, the model
follows the code:

- `reduce` raises no error on an empty array. The accumulator starts at the initial
  value when that value is truthy and at 0 otherwise, so an empty array
  reduces to the start value.
- `last(a, n)` copies `a` from index `n - 1` on, so for `0 < n <= a.length` it
  returns `a[n-1..]`. A negative `n` gives `1 - n` undefined slots followed
  by all of `a` (see Findings).
- `intersection` reads only its first two arguments. It keeps every
  occurrence of a shared element of the first array (see Findings).
- `difference` changes its first argument in place and returns it. Each
  element of the other arrays splices out only the first remaining equal
  element (see Findings).
- `extend` returns a fresh object and leaves `obj` unchanged.
- `defaults` changes `obj` in place and returns undefined. The model
  returns the updated contents of `obj`.
- `once` returns a wrapper that always returns undefined, not the first
  call's result (see Findings).
- `sortBy` sorts by a computed key when given a function. It sorts by
  `.length` when given the string `'length'`. Any other string gives an
  empty array, not a sort by that property (see Findings).
- `every` without an iterator returns true for any input.
- `some` without an iterator returns true exactly when an element is the
  string `'yes'` or the boolean `true`.

## Model

| member | source | states |
|---|---|---|
| SequenceOps.First | src/underscore_tests.js:18-32 | falsy `n` gives `a[0]` (undefined when empty); negative `n` gives an empty array; positive `n` gives the first `min(n, a.length)` elements in order |
| SequenceOps.Last | src/underscore_tests.js:36-55 | falsy `n` gives the last element; `n > a.length` copies `a`; `0 < n <= a.length` gives `a[n-1..]`; negative `n` gives `1 - n` undefined slots then all of `a` |
| SequenceOps.LastOfThree | src/underscore_tests.js:44-47 | as written, `last([1, 2, 3], 1)` is `[1, 2, 3]`, not `[3]` |
| SequenceOps.LastCorrected | src/underscore_tests.js:34-55 | intended `last`: the last `min(n, a.length)` elements, in order, ending at the end of `a` |
| SequenceOps.LastCorrectedOfOne | src/underscore_tests.js:34-35 | corrected `last(a, 1)` is the one-element array of `last(a)` |
| SequenceOps.IndexOf | src/underscore_tests.js:67-74 | result is -1 exactly when `target` is absent; otherwise `a[r] == target` and no earlier element equals it |
| SequenceOps.IndexOfIsFirstOccurrence | src/underscore_tests.js:95-99 | `indexOf` finds `a[i]` at `i` exactly when `a[i]` does not occur before `i` (the test `uniq` applies) |
| SequenceOps.Filter | src/underscore_tests.js:77-83 | the result is no longer than the input and holds exactly the input elements that pass the test |
| SequenceOps.FilterCount | src/underscore_tests.js:77-83 | every occurrence of a passing element is kept and no occurrence of a failing one |
| SequenceOps.FilterConcat | src/underscore_tests.js:77-83 | filtering distributes over concatenation, so kept elements stay in input order |
| SequenceOps.FilterIsSubsequence | src/underscore_tests.js:77-83 | the filtered result is a subsequence of the input |
| SequenceOps.Reject | src/underscore_tests.js:86-92 | holds exactly the input elements that fail the test |
| SequenceOps.FilterRejectPartition | src/underscore_tests.js:77-92 | `filter` and `reject` together are a permutation of the input, and each element lands in exactly one of them |
| SequenceOps.Dedup | src/underscore_tests.js:94-101 | reference duplicate removal: no duplicates, same set of elements as the input |
| SequenceOps.Uniq | src/underscore_tests.js:95-101 | the `indexOf(elem) === index` filter equals the reference `Dedup`, has no duplicates and keeps every value |
| SequenceOps.UniqIdempotent | src/underscore_tests.js:94-101 | removing duplicates twice is removing them once |
| SequenceOps.DedupIsSubsequence | src/underscore_tests.js:95-101 | `uniq` keeps the first occurrences in input order |
| SequenceOps.Map | src/underscore_tests.js:105-111 | same length as the input, and element `i` is the iterator applied to input element `i` |
| SequenceOps.Pluck | src/underscore_tests.js:116-123 | one entry per object: the object's value under the key, undefined exactly when the key is missing |
| SequenceOps.Reduce | src/underscore_tests.js:143-154 | the left fold of the iterator starting at the initial value if truthy, else 0; an empty input yields that start value |
| SequenceOps.FoldLeftConcat | src/underscore_tests.js:149-151 | reducing a concatenation is reducing the second part from the first part's result |
| SequenceOps.ReduceAddIsSum | src/underscore_tests.js:143-154 | reducing with addition adds the elements to the start value |
| SequenceOps.Contains | src/underscore_tests.js:157-162 | on an array, true exactly when `target` is an element |
| SequenceOps.Every | src/underscore_tests.js:176-191 | true without an iterator; otherwise true exactly when every element passes |
| SequenceOps.Any | src/underscore_tests.js:195-219 | false on an empty array; with an iterator, true exactly when some element passes; without one, true exactly when some element is `'yes'` or `true` |
| ObjectOps.MergeLookup | src/underscore_tests.js:231-242 | under later-wins merging, a key is present exactly when some object has it, with the value from the last object holding it |
| ObjectOps.FirstWinsLookup | src/underscore_tests.js:246-267 | under earlier-wins merging, a key is present exactly when some object has it, with the value from the first object holding it |
| ObjectOps.CopyAll | src/underscore_tests.js:236-238 | copying every key of `item` into `target`, in any key order, gives `target` overridden by `item` |
| ObjectOps.CopyMissing | src/underscore_tests.js:250-261 | copying only the keys `target` lacks, in any key order, gives `item` overridden by `target` |
| ObjectOps.Extend | src/underscore_tests.js:231-242 | the result has exactly the keys of `obj` and the sources; the last source holding a key decides its value; keys only in `obj` keep their value |
| ObjectOps.MergeKey | src/underscore_tests.js:231-242 | a key is in the `extend` result exactly when `obj` or a source has it; if only `obj` has it, its value is `obj`'s |
| ObjectOps.MergeLastSource | src/underscore_tests.js:235-239 | a key takes the value of the last source that holds it |
| ObjectOps.Defaults | src/underscore_tests.js:246-267 | `obj` gains exactly the keys of the sources; keys already in `obj` keep their value; a missing key takes the value of the first source holding it |
| ObjectOps.FirstWinsKey | src/underscore_tests.js:246-267 | a key is in the `defaults` result exactly when `obj` or a source has it; if `obj` has it, its value is `obj`'s |
| ObjectOps.FirstWinsFirstSource | src/underscore_tests.js:249-261 | a key `obj` lacks takes the value of the first source that holds it |
| ObjectOps.FirstWinsIsReversedMerge | src/underscore_tests.js:231-267 | `defaults` precedence over a list of objects is `extend` precedence over the reversed list |
| FunctionOps.Invoke | src/underscore_tests.js:277-285 | a call whose wrapped function returns: afterwards the flag is set; from a reachable state the wrapped function has run exactly once; a call after the flag is set changes nothing |
| FunctionOps.OnceCallsFuncOnce | src/underscore_tests.js:275-285 | after `k` calls of a fresh wrapper whose wrapped function returns, it has run once if `k > 0` and never otherwise |
| FunctionOps.InvokeAfterRunIsNoOp | src/underscore_tests.js:279-284 | once the flag is set, any number of further calls leaves the state unchanged |
| FunctionOps.Call | src/underscore_tests.js:279-284 | a call with the flag set changes nothing; otherwise the wrapped function runs once more, and the flag is set only if that run returns rather than throws |
| FunctionOps.OnceRunsUntilFirstReturn | src/underscore_tests.js:277-285 | over any sequence of call outcomes, the wrapped function runs once per call up to and including the first run that returns, and never after; the flag is set exactly when some run returned |
| FunctionOps.ThrowThenReturnRunsTwice | src/underscore_tests.js:281-282 | a first run that throws leaves the flag clear, so the next call runs the wrapped function a second time |
| FunctionOps.WrapperResult | src/underscore_tests.js:278-284 | as written, a call updates the state as `Invoke` does and returns undefined |
| FunctionOps.OnceForgetsFirstResult | src/underscore_tests.js:275-284 | as written, the second call does not return the first call's result, while the intended wrapper returns it on both calls |
| FunctionOps.Remember | src/underscore_tests.js:275-276 | intended `once`: the first call runs the wrapped function and keeps its result; a later call returns the kept result and runs nothing |
| FunctionOps.OnceRemembersFirstResult | src/underscore_tests.js:275-276 | intended `once`: over any number of calls the wrapped function runs once at most, and every call returns the first call's result |
| Sorting.InsertSorted | src/underscore_tests.js:364 | inserting into a sequence sorted by key keeps it sorted |
| Sorting.InsertStable | src/underscore_tests.js:364 | inserting keeps, for each key, the elements carrying it in order, with the new element last |
| Sorting.StableSortCorrect | src/underscore_tests.js:364-386 | the key sort returns a permutation of the input, ordered by key, with equal keys in input order |
| Sorting.SortBy | src/underscore_tests.js:351-405 | with a key function, a stable sorted permutation by key; with `'length'`, a stable permutation with non-decreasing lengths; with any other name, an empty array |
| Sorting.SortByNameDiscardsAll | src/underscore_tests.js:355-376 | as written, a non-empty collection sorted by a property name other than `'length'` comes back empty, so it is not a permutation of the input |
| Sorting.SortByCorrected | src/underscore_tests.js:346-350 | intended `sortBy`: a permutation of the input, sorted stably by the key function or by the named property |
| Sorting.SortByCorrectedAgreesOnKeys | src/underscore_tests.js:355-364 | with a key function, the intended and the written `sortBy` give the same array |
| Sorting.LengthLessIsStrictTotalOrder | src/underscore_tests.js:388-395 | `<` on lengths is a strict total order, so `compareLength` is a consistent comparator |
| Sorting.TextLessIsStrictTotalOrder | src/underscore_tests.js:378-386 | lexicographic `<` on strings is a strict total order, so string keys can be sorted |
| OrderingOps.Zip | src/underscore_tests.js:412-442 | as many rows as the longest argument; each row has one slot per argument, holding that argument's element at the row index or undefined past its end |
| OrderingOps.Flatten | src/underscore_tests.js:446-472 | the non-array leaves at any depth, depth first and left to right: a value is in the result exactly when it is a leaf somewhere inside one of the elements |
| OrderingOps.FlattenConcat | src/underscore_tests.js:446-472 | flattening distributes over concatenation |
| OrderingOps.FlattenLeaves | src/underscore_tests.js:446-472 | flattening an already flat array returns it unchanged |
| OrderingOps.FlattenIdempotent | src/underscore_tests.js:446-472 | flattening the result of `flatten` again changes nothing |
| OrderingOps.FlattenWithWorkList | src/underscore_tests.js:457-467 | a work-list traversal yields exactly the depth-first, left-to-right leaves of the recursive definition |
| OrderingOps.Intersection | src/underscore_tests.js:476-487 | holds exactly the elements of `first` found in `second`, each occurrence in `first` kept, as a subsequence of `first` |
| OrderingOps.IntersectionKeepsDuplicates | src/underscore_tests.js:478-483 | `intersection([1, 2, 2, 3], [2, 3, 4])` is `[2, 2, 3]` |
| OrderingOps.IntersectionAll | src/underscore_tests.js:474-475 | intended `intersection` of any number of arrays: exactly the elements of the first array found in every other array, as a subsequence of the first |
| OrderingOps.IntersectionAllOfTwo | src/underscore_tests.js:474-487 | for two arrays, the intended `intersection` equals the written one |
| OrderingOps.IntersectionIgnoresThird | src/underscore_tests.js:476-483 | as written, `intersection([1, 2], [1, 2], [2])` keeps 1, which the intended `intersection` drops because the third array lacks it |
| OrderingOps.RemoveFirst | src/underscore_tests.js:501-504 | an absent value leaves the array unchanged; a present one makes it one element shorter |
| OrderingOps.RemoveFirstCount | src/underscore_tests.js:501-504 | as a count, exactly one occurrence of the value is removed, if there is one, and every other value is untouched |
| OrderingOps.RemoveFirstSplices | src/underscore_tests.js:501-504 | the occurrence removed is the first one, with everything else kept in order |
| OrderingOps.RemoveEachCount | src/underscore_tests.js:499-506 | removing one occurrence per listed value is multiset difference |
| OrderingOps.RemoveEachConcat | src/underscore_tests.js:499-506 | removing the values of `vs + ws` is removing those of `vs`, then those of `ws` |
| OrderingOps.RemoveEachOf | src/underscore_tests.js:500-505 | the inner loop removes one occurrence per element of one argument |
| OrderingOps.Difference | src/underscore_tests.js:491-509 | the result is the first array with one occurrence removed per element of the others, in order; as counts, a multiset difference; values absent from the others are untouched |
| OrderingOps.DifferenceOfOneOneTwo | src/underscore_tests.js:499-506 | as written, `difference([1, 1, 2], [1])` is `[1, 2]` and still holds 1 |
| OrderingOps.ConcatMembership | src/underscore_tests.js:491-497 | an element is in the joined other arrays exactly when one of them holds it |
| OrderingOps.DifferenceCorrected | src/underscore_tests.js:489-509 | intended `difference`: the result is a subsequence of the first array; a value found in another array is gone, and every other value keeps all its occurrences |
| OrderingOps.DifferenceCorrectedKeepsOnlyUnshared | src/underscore_tests.js:489-490 | intended `difference` keeps exactly the elements of the first array found in none of the others |

## Left out

- `each`, `invoke`, `memoize`, `delay` and `shuffle` are not modelled. `each` only calls back into user code for its effects. `invoke` collects the result of calling a method looked up by name at run time (`array[methodName]()`), and dynamic method lookup on arbitrary values has no counterpart here. `memoize` has an empty body apart from a console log. `delay` depends on the clock (`setTimeout`). `shuffle` depends on `Math.random`.
- `contains` on a plain object (the `for (key in collection)` branch) and on other values is not modelled; only the array branch is.
- Sorting.SortBy: undefined keys (the `a.orderQuery === undefined` case of `compare`) and keys of mixed types are not modelled. The key order is a parameter required to be a strict total order.
- Sorting.SortBy: the `.length` of each element is a parameter, `lengthOf`. An element without a `length` property is not modelled.
- Sorting.SortBy: calling it with `undefined` or `null` as the criterion throws at `iterator.constructor`; this error is not modelled. Any other criterion that is neither a function nor `'length'` (a number, a boolean, a plain object) fails both tests and yields an empty array, as `ByName` with a name other than `'length'` does.
- Sorting.TextLess orders strings by character, not by UTF-16 code unit.
- `Array.prototype.sort` is taken to be stable, as section 22.1.3.27 of ECMAScript 2019 requires; the model is a stable insertion sort.
- SequenceOps.First and SequenceOps.Last: `n` is an integer. Fractional and NaN counts, and the comparison with `array.length` under coercion, are not modelled.
- SequenceOps.Reduce: elements and the accumulator are integers. Other accumulator types and a falsy non-numeric initial value are not modelled. Although the comment says it reduces "an array or object", a plain object has no `forEach` and makes it throw a TypeError; only arrays are modelled.
- SequenceOps.IndexOf: JavaScript's `===` is modelled as Dafny `==`, which is reflexive. NaN, which is not `===` to itself, and the identity comparison of objects are not modelled; under `===`, `indexOf(NaN)` is -1 even when NaN is present, so "-1 exactly when absent" holds only for values equal to themselves. The same applies to `contains`, `intersection` and `difference`, which all test with `indexOf`.
- SequenceOps.Uniq: equality is `==`, as for `indexOf`. Under `===`, `uniq([NaN])` is empty, so "keeps every value" holds only for values equal to themselves.
- SequenceOps.Any: elements are limited to undefined, null, booleans, integers and strings, enough for the `=== 'yes'` and `indexOf(true)` tests.
- In-place updates (`defaults`, `difference`) are modelled as returned values. Aliasing between arguments is not modelled.
- Sparse arrays, array holes and inherited (prototype) properties seen by `for ... in` are not modelled.
- SequenceOps.Pluck: an object is its own properties only. `item[propertyName]` also finds inherited properties, so `pluck([{}], 'toString')` yields a function where the model yields undefined; the prototype chain is not modelled.
- `extend` and `defaults` read their sources through `arguments`. The model takes them as a sequence of maps. Sources that are not objects are not modelled.
- FunctionOps.Invoke: the wrapped function's own effects and arguments are not modelled; only the number of times it runs is counted. `Invoke` is a call whose wrapped function returns; `Call` also covers one that throws. A re-entrant call, made from inside the wrapped function before `ran = true` is reached, runs it again and is not modelled: calls are taken one after another.
- OrderingOps.Intersection: the model always has a second array. `intersection(a)` with one argument and a non-empty `a` throws a TypeError at `arrayTwo.indexOf`, because `arrayTwo` is undefined; this error is not modelled.
- OrderingOps.Flatten: `item.constructor` throws on null or undefined elements. The model's leaves are always ordinary values, so this error is not modelled.
- Dafny integers are unbounded; JavaScript numbers are doubles. Large values and rounding are not modelled.

## Findings

| source | as written | input that shows it | evidently intended | confidence | as-written member | corrected member |
|---|---|---|---|---|---|---|
| src/underscore_tests.js:44-47 | `last(a, n)` copies from index `n - 1` to the end | `last([1, 2, 3], 1)` gives `[1, 2, 3]` | the last `n` elements, `[3]` | high; not executed | SequenceOps.LastOfThree | SequenceOps.LastCorrected |
| src/underscore_tests.js:277-285 | the wrapper has no `return`, so every call returns undefined | the second call of `once(() => 5)` returns undefined | later calls return the first call's result, 5 | high; not executed | FunctionOps.OnceForgetsFirstResult | FunctionOps.OnceRemembersFirstResult |
| src/underscore_tests.js:355-376 | a string criterion other than `'length'` fills no work array | `sortBy(people, 'name')` gives `[]` | the people sorted by their `name` property | high; not executed | Sorting.SortByNameDiscardsAll | Sorting.SortByCorrected |
| src/underscore_tests.js:476-483 | only the first two arguments are read | `intersection([1, 2], [1, 2], [2])` gives `[1, 2]` | the items shared by all arrays, `[2]` | high; not executed | OrderingOps.IntersectionIgnoresThird | OrderingOps.IntersectionAll |
| src/underscore_tests.js:499-506 | each element of the other arrays splices out only the first equal element of the first array | `difference([1, 1, 2], [1])` gives `[1, 2]` | only elements present in just the first array remain: `[2]` | medium; not executed | OrderingOps.DifferenceOfOneOneTwo | OrderingOps.DifferenceCorrected |
