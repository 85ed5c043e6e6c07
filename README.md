# A verified model of a small functional utility library

The library in `lib/index.ts` is a set of helpers over JavaScript arrays, strings and plain objects. This project models its core in Dafny:

- **list operations:** `take`, `drop`, `dropLast`, `dropWhile`, `uniq`, `reverse`, `zip`, `range`, `repeat`, `flatten`, `append`, `concat`, `head`, `last`, `tail`, `len`, `includes`, `isEmpty`;
- **higher-order array operations:** `map`, `filter`, `find`, `findIndex`, `some`, `every`;
- **string operations:** `join`, `startsWith`, `endsWith`;
- **folds:** `foldl` and `foldr`, which consume their argument array in place;
- **object operations:** `assoc`, `assocPath` and `dissoc`, the last of which deletes a key in place.

Most operations in the library are a single `Array.prototype.reduce` with a callback. The model follows that shape:

- `Builtins.ReducePrefix` is `reduce` with an initial value, after visiting the first `n` elements.
- Each operation is `Reduce(step, init, list)`, where `step` is the library's own callback.
- Each operation's contract is a characterisation. An induction over the prefix proves it (the `…Prefix` lemmas).
- Callbacks receive the element, its index and the whole array, as in JavaScript.

The slicing operations go through `Builtins.Slice`, which resolves indexes as `Array.prototype.slice` does: a negative index counts from the end, and both ends are clamped.

`undefined` is `Wrappers.Option.Undefined`. An exception is `Wrappers.Result.Err`. The `Undefined` that `Searches.DropWhile` returns is different: it is a sentinel for the case in which every element satisfies the predicate. There the library never returns `undefined`; it returns `[undefined]` or recurses without end (see "## Left out").

State that the library changes in place is modelled with classes:

- **`foldl`/`foldr`:** the array is a `Builtins.JsArray` whose `elems` field `shift` and `pop` reassign.
- **`dissoc`:** the object is an `Objects.JsObject` whose `fields` map `delete` reassigns.

`foldl` and `foldr` are methods with `while` loops, proved against the functional folds `Folds.FoldLeft` and `Folds.FoldRight`.

Modules:

- `wrappers.dfy`: `Option` and `Result`.
- `builtins.dfy`: `reduce`, `slice`, `indexOf`, `Array.from`, and the array object.
- `lists.dfy`: the structural list operations.
- `transforms.dfy`: `map`, `filter` and `uniq`.
- `searches.dfy`: the searches and `dropWhile`.
- `strings.dfy`: the string operations.
- `folds.dfy`: the folds.
- `objects.dfy`: the object operations.

## Model

| member | source | states |
|---|---|---|
| Builtins.JsArray.Shift | lib/index.ts:118 | `list.shift()` removes and returns the first element; on an empty array it returns `undefined` and changes nothing |
| Builtins.JsArray.Pop | lib/index.ts:132 | `list.pop()` removes and returns the last element; on an empty array it returns `undefined` and changes nothing |
| Lists.Append | lib/index.ts:9-12 | the new element is the last one, and dropping the last element gives back the original list |
| Lists.Concat | lib/index.ts:59 | taking `list1.length` elements of the result gives `list1`; dropping them gives `list2` |
| Lists.Head | lib/index.ts:109 | `undefined` exactly for an empty array, otherwise the first element |
| Lists.Last | lib/index.ts:123 | `undefined` exactly for an empty array, otherwise the last element |
| Lists.Tail | lib/index.ts:137-138 | `[]` for an empty array; otherwise the first element followed by the result rebuilds the array |
| Lists.Take | lib/index.ts:285 | the result is a prefix of the list, of the length `slice(0, n)` resolves `n` to (negative `n` counts from the end) |
| Lists.Drop | lib/index.ts:271 | the result is the suffix after the resolved index `n` |
| Lists.DropLast | lib/index.ts:273-274 | as written: a prefix; all but the last `n` for `0 <= n <= length`; the whole list for negative `n`; for `n` beyond the length, the length that `slice` gives a negative end |
| Lists.DropLastClamped | lib/index.ts:273-274 | corrected `dropLast`: all but the last `n` elements, and `[]` once `n` reaches the length |
| Lists.TakeDropSplit | lib/index.ts:285 | `take(n)` followed by `drop(n)` is the original list, and `take(n)` has `n` elements |
| Lists.DropLastIsTake | lib/index.ts:273-274 | within bounds `dropLast(n)` is `take(length - n)`, and the dropped part follows it |
| Lists.DropLastPastLength | lib/index.ts:273-274 | `dropLast(7, [1,2,3,4,5])` as written is `[1,2,3]`, whereas the corrected version gives `[]` |
| Lists.DropLastClampedAgrees | lib/index.ts:273-274 | the corrected `dropLast` equals the written one whenever `n` does not exceed the length |
| Lists.TailIsDropOne | lib/index.ts:137-138 | `tail` is `drop(1)` |
| Lists.HeadTailRebuild | lib/index.ts:137-138 | for a non-empty array, `head` followed by `tail` is the array |
| Lists.LenPrefix | lib/index.ts:178-179 | the counting reducer has counted exactly `n` after `n` elements |
| Lists.Len | lib/index.ts:178-179 | `len` is the number of elements |
| Lists.IsEmpty | lib/index.ts:261 | true exactly for the empty array |
| Lists.EmptinessAgrees | lib/index.ts:261 | `isEmpty` agrees with `len(list) == 0` and with `head(list) === undefined` |
| Lists.Includes | lib/index.ts:144-145 | true exactly when the element occurs in the list |
| Lists.Range | lib/index.ts:255-256 | `b - a` elements (none if `b < a`), the `i`-th being `a + i` |
| Lists.RangeExample | lib/index.ts:255-256 | `range(2, 8)` is `[2, 3, 4, 5, 6, 7]` |
| Lists.RangeSplit | lib/index.ts:255-256 | adjacent ranges concatenate into one |
| Lists.RangeIncludes | lib/index.ts:255-256 | `x` is in `range(a, b)` exactly when `a <= x < b` |
| Lists.Repeat | lib/index.ts:258-259 | `n` copies of `el` (none for negative `n`) |
| Lists.RepeatAdds | lib/index.ts:258-259 | `repeat(el, m)` followed by `repeat(el, n)` is `repeat(el, m + n)` |
| Lists.ZipPrefix | lib/index.ts:249-253 | after `n` steps the accumulator holds the first `n` pairs |
| Lists.Zip | lib/index.ts:249-253 | one pair per element of `list1`, paired with `list2[i]`, or with `undefined` past the end of `list2` |
| Lists.ZipUnzip | lib/index.ts:249-253 | for lists of equal length, both lists can be read back from the pairs |
| Lists.ReversePrefix | lib/index.ts:221-222 | after `n` steps the accumulator is the first `n` elements in reverse order |
| Lists.Reverse | lib/index.ts:221-226 | same length, and element `j` is element `length - 1 - j` of the input |
| Lists.ReverseInvolutive | lib/index.ts:221-226 | reversing twice gives back the input |
| Lists.ReverseLastFirst | lib/index.ts:221-226 | the reverse is the last element followed by the reverse of the rest |
| Lists.ReverseFirstLast | lib/index.ts:221-226 | the reverse is the reverse of the tail followed by the first element |
| Lists.FlattenPrefix | lib/index.ts:104-105 | after `n` steps the accumulator is the concatenation of the first `n` inner arrays |
| Lists.Flatten | lib/index.ts:104-105 | `flatten` is the concatenation of the inner arrays, in order |
| Lists.FlattenConcat | lib/index.ts:104-105 | flattening distributes over concatenation of the outer array |
| Transforms.MapPrefix | lib/index.ts:195-199 | after `n` steps the accumulator is `fn` applied to the first `n` elements |
| Transforms.Map | lib/index.ts:192-201 | same length, and element `i` is `fn(list[i], i, list)` |
| Transforms.Selected | lib/index.ts:211-214 | the positions whose element satisfies `fn`, strictly ascending: exactly those positions appear |
| Transforms.FilterPrefix | lib/index.ts:211-215 | after `n` steps the accumulator holds the elements at the selected positions below `n`, in order |
| Transforms.Filter | lib/index.ts:203-219 | the result is the elements at exactly those positions where `fn` holds, in their original order |
| Transforms.FilterKeepsAll | lib/index.ts:203-219 | a callback that holds everywhere keeps the whole list |
| Transforms.MapThenFilterTrue | lib/index.ts:192-219 | filtering a mapped list with an always-true callback returns the mapped list |
| Transforms.DedupElements | lib/index.ts:246-247 | the reference deduplication keeps exactly the values of its input |
| Transforms.DedupDistinct | lib/index.ts:246-247 | the reference deduplication repeats no value |
| Transforms.DedupOfDistinct | lib/index.ts:246-247 | the reference deduplication leaves a list without repeats unchanged |
| Transforms.UniqPrefix | lib/index.ts:246-247 | filtering the first `n` elements by "`indexOf` is my position" is the deduplication of that prefix |
| Transforms.Uniq | lib/index.ts:246-247 | the filter keeps element `j` exactly when its value is absent before `j`; the result has no repeats and the same values as the list, and equals the first-occurrence deduplication |
| Transforms.UniqIdempotent | lib/index.ts:246-247 | `uniq(uniq(xs))` is `uniq(xs)` |
| Transforms.UniqOfDistinct | lib/index.ts:246-247 | a list without repeated values is its own `uniq` |
| Transforms.UniqOfRepeat | lib/index.ts:246-259 | `uniq(repeat(el, n))` is `[el]` for positive `n` |
| Searches.FindIndexPrefix | lib/index.ts:172-175 | after `n` steps the accumulator is the least matching index below `n`, or -1 if there is none |
| Searches.FindIndex | lib/index.ts:168-176 | -1 exactly when no element matches; otherwise the least index whose element matches |
| Searches.FindPrefix | lib/index.ts:160-163 | after `n` steps: `undefined` exactly when nothing matched; otherwise a match after which only falsy matches were overtaken |
| Searches.Find | lib/index.ts:156-164 | as written: `undefined` exactly when nothing matches; otherwise the first non-falsy match, or the last match when all matches are falsy |
| Searches.FindFirst | lib/index.ts:156-164 | corrected `find`: `undefined` exactly when nothing matches; otherwise the first match |
| Searches.FindAgreesWithoutFalsy | lib/index.ts:156-164 | on arrays with no falsy element, `find` as written returns the first match |
| Searches.FindSkipsFalsyMatch | lib/index.ts:156-164 | `find(x => x < 2, [0, 1])` as written returns `1`; the corrected version returns `0` |
| Searches.SomePrefix | lib/index.ts:232-235 | after `n` steps the accumulator says whether one of the first `n` elements matched |
| Searches.Some | lib/index.ts:228-236 | true exactly when some element satisfies `fn` |
| Searches.EveryPrefix | lib/index.ts:98-101 | after `n` steps the accumulator says whether all of the first `n` elements matched |
| Searches.Every | lib/index.ts:94-102 | true exactly when every element satisfies `fn` |
| Searches.SomeEveryDuality | lib/index.ts:94-236 | `every(fn)` is `!some(!fn)`, and `some(fn)` holds exactly when `findIndex(fn) != -1` |
| Searches.DropWhile | lib/index.ts:276-279 | the suffix that starts at the first element failing `pred`; every earlier element satisfies `pred`; `Undefined` exactly when all elements do |
| Searches.DropWhileIsDropFindIndex | lib/index.ts:276-279 | `dropWhile(pred)` is `drop(k)` where `k` is `findIndex(!pred)` |
| Strings.JoinPrefix | lib/index.ts:148-151 | after `n` steps the accumulator is the first `n` strings joined, with a trailing delimiter unless the end was reached |
| Strings.Join | lib/index.ts:147-152 | the strings with `delimiter` between neighbours and none at either end |
| Strings.JoinEmptyDelimiter | lib/index.ts:147-152 | with the default delimiter `''`, `join` is the plain concatenation of the strings (this is not the library's `flatten`, whose `concat` does not spread strings) |
| Strings.JoinExample | lib/index.ts:147-152 | `join(['hello,', 'world'], ' ')` is `'hello, world'` |
| Strings.StartsWith | lib/index.ts:265-266 | true exactly when `str1` is a prefix of `str2` |
| Strings.EndsWith | lib/index.ts:268-269 | true exactly when `str1` is a suffix of `str2`, including when `str1` is longer and the slice start is negative |
| Strings.EndsWithIsReversedStartsWith | lib/index.ts:265-269 | `endsWith(a, b)` is `startsWith(reverse(a), reverse(b))` |
| Folds.FoldL | lib/index.ts:111-121 | returns the left fold of the original array from `result`, and leaves the array empty |
| Folds.FoldR | lib/index.ts:125-135 | returns the left fold of the reversed original array from `result`, and leaves the array empty |
| Folds.FoldrIsRightFold | lib/index.ts:125-135 | what `foldr` computes is the right fold with the reducer's arguments swapped |
| Folds.FoldrEqualsFoldl | lib/index.ts:111-135 | for a reducer whose later arguments may be swapped (such as `add`), `foldr` and `foldl` agree |
| Folds.SumExample | lib/index.ts:111-135 | `foldl` and `foldr` of `add` from 0 over `[1, 2, 3, 4, 5]` both give 15 |
| Objects.Assoc | lib/index.ts:16-20 | the keys of `obj` plus `k`; `k` maps to `v`, and every other key keeps its value |
| Objects.Target | lib/index.ts:27 | the keys `setValue` walks: the path itself, or the key "undefined" for an empty path |
| Objects.SetValue | lib/index.ts:26-38 | the inner recursive `setValue`: its contract is stated by the lemmas `SetValueFails` (when it throws), `SetValueSets` (the path reaches `v`) and `SetValueFrame` (every other path keeps its value) |
| Objects.AssocPath | lib/index.ts:22-40 | `assocPath(path)(v, obj)`: its contract is stated by the lemmas `AssocPathFails`, `AssocPathSets`, `AssocPathFrame` and `AssocPathSingleKey` |
| Objects.SetValueFails | lib/index.ts:26-38 | `setValue` throws exactly when the path has at least two keys and following all but its last two keys reaches `undefined` |
| Objects.SetValueSets | lib/index.ts:26-38 | when `setValue` succeeds, following the path in the result reaches `v` |
| Objects.SetValueFrame | lib/index.ts:26-38 | when `setValue` succeeds, every path that leaves the set path at some level reaches the same value as before |
| Objects.AssocPathFails | lib/index.ts:22-40 | `assocPath` throws exactly when the path has three or more keys and following all but its last two keys reaches `undefined` |
| Objects.AssocPathSets | lib/index.ts:22-40 | when `assocPath` succeeds, the value at the path is `v` |
| Objects.AssocPathFrame | lib/index.ts:22-40 | when `assocPath` succeeds, every other path keeps its value |
| Objects.AssocPathSingleKey | lib/index.ts:16-40 | `assocPath([k])(v, obj)` is `assoc(k, v, obj)` |
| Objects.AssocPathExample | lib/index.ts:22-40 | setting `a.b.c` to 10 in `{a: {b: {c: 3}, d: 2}, e: 1}` changes only that value |
| Objects.Without | lib/index.ts:67 | `delete obj[k]` leaves the keys other than `k`, with their values |
| Objects.DissocUndoesAssoc | lib/index.ts:16-69 | deleting a key that `assoc` added gives back the original object |
| Objects.AssocUndoesDissoc | lib/index.ts:16-69 | putting a deleted key back with its old value gives back the original object |
| Objects.Dissoc | lib/index.ts:63-69 | returns the same object, whose fields are now its old fields without `k` |
| Objects.DissocExample | lib/index.ts:63-69 | `dissoc('c', {a: 1, b: 2, c: 3})` leaves `{a: 1, b: 2}` |

## Left out

- `add`, `div`, `subtr`, `mult`, `dec`, `inc` and `sum`: numeric arithmetic on JavaScript floating-point numbers is not part of this model.
- `compose`, `once`, `tee`, `apply`, `id`, `pluck`, `not` and `trim` are not part of this model. They are function plumbing, closures holding hidden state, or calls into the runtime's string functions.
- `dissocPath` is not part of this model.
- Numbers are integers. `range` and `repeat` with fractional or `NaN` bounds are not modelled. Equality in `indexOf` (`includes`, `uniq`) is Dafny equality, so the strict-equality quirks of `NaN` and `-0` are not modelled.
- Lists.Includes and Transforms.Uniq: JavaScript `===` compares arrays and objects by reference, while Dafny equality compares values. So `includes([1], [[1]])` is false in the library and `uniq([[1], [1]])` keeps both elements, but on element types like `seq` or `Objects.Value` the model treats equal contents as equal. Reference identity of array and object elements is not modelled.
- Lists.Range and Lists.Repeat: `Array.from({ length })` throws a RangeError once the length exceeds 2^32 - 1, the largest array length. The model returns a sequence of any length and does not model that error.
- Strings are sequences of characters. `reverse` of a string is the reversal of its characters; the UTF-16 code unit split done by `split('')` is not modelled.
- Strings.Join: takes an array of strings; `join` of other values depends on JavaScript's conversion to string, which is not modelled.
- Transforms.Map: the curried `map(fn)(list)` is modelled as the uncurried `Map(fn, list)`.
- Transforms.Filter: the curried branch behind `!list === undefined` can never run (the test is always false), so only the direct call is modelled.
- Searches.Find: JavaScript truthiness of the elements is passed in as the parameter `falsy`, since which values are falsy depends on their runtime type.
- Searches.DropWhile: when every element satisfies the predicate, the library goes on to call the predicate on `undefined`. Its result then depends on what the predicate does with `undefined`: `[undefined]`, or unbounded recursion. The model returns `Undefined` there.
- Objects.AssocPath: values are integers and plain objects. Strings, arrays, `null` and functions as values, prototype properties, getters, and the insertion order of keys are not modelled.
- Objects.Dissoc: the key is a string; symbol keys and non-configurable properties are not modelled.
- Aliasing between the array passed to `foldl`/`foldr` and other references is modelled only through the `JsArray` object; the reducer cannot see or change that array.

## Findings

| source | as written | input that shows it | evidently intended | confidence | as-written member | corrected member |
|---|---|---|---|---|---|---|
| lib/index.ts:156-164 | the reducer tests `!firstFound`, so a match that is falsy (`0`, `''`, `false`) is overtaken by a later match | `find(x => x < 2, [0, 1])` returns `1` | the first element that satisfies `fn`, here `0` | not executed | Searches.FindSkipsFalsyMatch | Searches.FindFirst |
| lib/index.ts:273-274 | `list.slice(0, list.length - n)` with `n` greater than the length passes a negative end, which `slice` counts from the end | `dropLast(7, [1, 2, 3, 4, 5])` returns `[1, 2, 3]` | `[]`: dropping more elements than exist leaves none | not executed | Lists.DropLastPastLength | Lists.DropLastClamped |
