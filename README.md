# Form-builder tree helpers in Dafny

This project models the object-manipulation helpers of a browser-based form
builder (`src/utils/helpers.ts`), and proves properties of the model:

- `isObject` is the plain-object test.
- `getNestedValue` reads a value through a dot-delimited path such as
  `"address.city"`.
- `setNestedValue` writes a value through such a path, in place. Along the
  way it creates or replaces intermediate objects.
- `deepMerge` merges a source object into a shallow copy of a target. It
  recurses where both sides hold plain objects. Everywhere else the source
  value wins.

JavaScript values are the datatype `JsValues.Json`. Each value is a finite,
acyclic tree with value semantics. It can be `undefined`, `null`, a boolean,
an integer, a string, an array or a plain object. `TypeOf` follows `typeof`,
so `null` and arrays are `"object"` too.

Property access works on a value's own keys:

- A plain object has the keys of its map.
- An array has the canonical index strings `"0"`, `"1"`, … below its length.
- `HasKey` is `key in v`.
- `Member` is `v[key]`.
- `Put` is `v[key] = x`.

Paths are split with `DotPath.Split`, which behaves as `path.split('.')`: it
never returns an empty list, and `""` splits to `[""]`.

The modules follow the functions of `helpers.ts`:

- `JsValues`: values, `typeof`, `isObject`, own-key membership, reads and
  writes.
- `DotPath`: splitting a path and joining its segments again.
- `SeqFacts`: slicing and concatenation facts for sequences of any element
  type, which the path proofs use.
- `NestedGet`: the getter, through the recursive specification `Lookup` and
  the imperative `GetNestedValue`.
- `NestedSet`: the setter.
  - The caller's object is the class `JsRecord`. Its method `SetNestedValue`
    runs the loop of `helpers.ts` and changes the object's `fields`.
  - In `helpers.ts`, the loop's local `current` references a node inside the
    caller's object. The model therefore also keeps the path `at` from the
    root to that node, and it writes every update of `current` back into the
    root at `at` with `PutAt`.
  - The method is proved equal to the recursive specification `Assign` /
    `SetNested`, and the properties are proved about that.
- `Merging`: `DeepMerge` is a method that loops over the source's keys, in
  any order, and calls itself recursively. It is proved equal to the
  recursive function `MergeMaps`, and the properties are proved about
  `MergeMaps`.

`split` never returns an empty list, so the setter's guard
`if (!lastKey) return` fires only when the last segment is empty: for `""`
and for any path ending in a dot, such as `"a."`
(`NestedSet.SetNestedEmptyLastKey`, `DotPath.SplitLastEmpty`).

## Model

| member | source | states |
|---|---|---|
| JsValues.TypeOf | src/utils/helpers.ts:91 | `typeof` gives one of "undefined", "boolean", "number", "string", "object", and "object" exactly for `null`, arrays and plain objects |
| JsValues.HasKey | src/utils/helpers.ts:52 | `key in v` holds only on objects and arrays: on a plain object exactly for its keys, on an array exactly for the decimal rendering of an index below its length |
| JsValues.IsObject | src/utils/helpers.ts:90-92 | `typeof === 'object'`, not `null`, not an array: true exactly for plain objects |
| JsValues.ArrayIndex | src/utils/helpers.ts:52-53 | an array has a key exactly when the key is the decimal rendering of an index below its length; the index found renders as that key |
| JsValues.Member | src/utils/helpers.ts:53 | `v[key]` is `undefined` for a key `v` does not have, the map entry on an object, and on an array the element at the index the key names |
| JsValues.Put | src/utils/helpers.ts:79-84 | `v[key] = x`: an object gains `key`, and its other keys are unchanged; an array keeps its length; afterwards `key` is present exactly when it was already present or `v` is an object, and then it reads `x`; every other key reads as before; a write that does not land leaves `v` unchanged |
| JsValues.PutPut | src/utils/helpers.ts:79-84 | a second write to the same key wins over the first |
| JsValues.PutMember | src/utils/helpers.ts:79-84 | writing back the value a key already holds changes nothing |
| DotPath.Split | src/utils/helpers.ts:45 | `split('.')` returns at least one segment; no segment contains a dot; joining the segments with dots gives the path back |
| DotPath.SplitJoin | src/utils/helpers.ts:45 | splitting the join of dot-free segments gives those segments back |
| DotPath.SplitDotFree | src/utils/helpers.ts:45 | a dot-free path is a single segment |
| DotPath.SplitCons | src/utils/helpers.ts:45 | a leading dot-free segment followed by a dot splits off as the first segment |
| DotPath.Init | src/utils/helpers.ts:71 | `keys.pop()`: the segments before the last are one fewer, and followed by `Last` they give the list back |
| DotPath.SplitLastEmpty | src/utils/helpers.ts:70-73 | the last segment is empty exactly when the path is empty or ends in a dot |
| NestedGet.Lookup | src/utils/helpers.ts:48-57 | the getter's walk: no segments give the value itself; a first key the value does not have (or a value that is not an object) gives `undefined` |
| NestedGet.GetNestedValue | src/utils/helpers.ts:41-60 | the loop with its early returns computes `Lookup` of the root along the split path |
| NestedGet.LookupSnoc | src/utils/helpers.ts:48-57 | one more segment reads that key of the value reached so far, `undefined` when the key is absent |
| NestedGet.LookupConcat | src/utils/helpers.ts:48-57 | reading along `a + b` reads `b` from the value that `a` reaches |
| NestedGet.LookupCons | src/utils/helpers.ts:52-53 | a leading key reads that key's member first, present or not |
| NestedGet.LookupUndefined | src/utils/helpers.ts:49-50 | nothing can be read below `undefined` |
| NestedGet.GetMissingIsUndefined | src/utils/helpers.ts:48-56 | once the value reached lacks a key, or is not an object, every longer path through that key reads `undefined` |
| NestedGet.GetNestedStep | src/utils/helpers.ts:45-57 | for a path string, a leading dot-free segment reads that key of the root, and the rest of the path is read from there |
| NestedSet.NeedsFreshObject | src/utils/helpers.ts:78 | an intermediate key is kept exactly when it is present and holds a plain object or an array; otherwise it is given `{}` |
| NestedSet.NextObject | src/utils/helpers.ts:78-81 | the value the setter descends into is always of type "object" and never `null` |
| NestedSet.Assign | src/utils/helpers.ts:77-84 | the walk writes into an object under its first intermediate key, or under the last key when there are no intermediates, and keeps its other keys; an array keeps its length |
| NestedSet.SetNested | src/utils/helpers.ts:70-84 | an empty last segment leaves the object unchanged; otherwise the object gains the path's first segment; every other top-level key is kept |
| NestedSet.JsRecord.SetNestedValue | src/utils/helpers.ts:65-85 | the in-place loop, with its write-back through the cursor into the caller's object, leaves `fields` equal to `SetNested` of the old object |
| NestedSet.AssignThenLookup | src/utils/helpers.ts:77-84 | with no array on the way, reading the written path afterwards gives the written value |
| NestedSet.GetAfterSet | src/utils/helpers.ts:41-85 | `getNestedValue(setNestedValue(obj, path, v), path)` is `v` when the last segment is non-empty and no intermediate holds an array |
| NestedSet.SetNestedEmptyLastKey | src/utils/helpers.ts:70-73 | an empty path, or one ending in a dot, changes nothing |
| NestedSet.SetNestedStep | src/utils/helpers.ts:77-84 | setting `key.rest` writes, under `key`, the result of setting `rest` inside the object the setter descends into |
| NestedSet.SetNestedReplacesNonObject | src/utils/helpers.ts:78-81 | a key that is absent, holds a non-object or holds `null` is replaced by a fresh object that receives `rest` |
| NestedSet.SetNestedDescends | src/utils/helpers.ts:78-81 | an existing plain object under `key` is kept, and the setter writes `rest` into it |
| NestedSet.SetNestedKeepsArray | src/utils/helpers.ts:78-81 | an existing array under `key` is kept, still an array and with the same length, not replaced by `{}` |
| NestedSet.SetNestedSingle | src/utils/helpers.ts:70-84 | a path of one non-empty dot-free segment writes that key of the object, with no walk |
| NestedSet.DestructiveOverwriteExample | src/utils/helpers.ts:78-84 | `{a: 5}` set at `"a.b"` to `1` becomes `{a: {b: 1}}`; the scalar is lost |
| NestedSet.AssignFrame | src/utils/helpers.ts:77-84 | along every path that leaves the written path at some segment, every key is present exactly when it was before, and the path reads as before |
| NestedSet.SetNestedFrame | src/utils/helpers.ts:65-85 | after `setNestedValue`, along every path that diverges from the split path, every key is present exactly when it was before (a key holding `undefined` included), and the path reads as before |
| Merging.DeepMerge | src/utils/helpers.ts:8-36 | the loop over the source's keys, together with the recursion, returns `MergeMaps(target, source)`; its keys are the target's keys plus the source's keys; a key only the target has keeps the target's value; a source key that does not merge recursively takes the source value as it is; otherwise the key holds the recursive merge; the inputs are values, so they remain unchanged |
| Merging.MergesRecursively | src/utils/helpers.ts:19-24 | the recursion condition holds exactly when both values are plain objects; the array tests add nothing to `isObject` |
| Merging.MergeMaps | src/utils/helpers.ts:8-36 | the merged object has the keys of both; a key only the target has keeps its value; a source value that is not a plain object replaces the target's; where both hold plain objects the merged value is a plain object with the keys of both |
| Merging.MergeEmptySource | src/utils/helpers.ts:12-35 | merging an empty source gives the target back |
| Merging.MergeSelf | src/utils/helpers.ts:12-35 | merging an object with itself gives it back, at every depth |
| Merging.MergeIdempotent | src/utils/helpers.ts:12-35 | merging the same source a second time changes nothing |
| Merging.MergeSourceWins | src/utils/helpers.ts:14-31 | along a path through the source's plain objects to a value that is not a plain object, the result reads that source value |
| Merging.MergeKeepsTarget | src/utils/helpers.ts:12-28 | along a path through plain objects on both sides, up to a key the source lacks, the result reads as the target |
| Merging.MergeNestedExample | src/utils/helpers.ts:16-31 | `deepMerge({a: 1, b: {c: 2}}, {b: {c: 3, d: 4}})` is `{a: 1, b: {c: 3, d: 4}}` |
| Merging.MergeArrayExample | src/utils/helpers.ts:19-31 | `deepMerge({a: [1, 2]}, {a: [3]})` is `{a: [3]}`: arrays are replaced, never merged element by element |

## Left out

- `generateId`, `safeJsonParse` and `debounce` are outside the modelled core. They depend on clocks, randomness, the JSON parser and timers.
- The router and the schema types are outside the modelled core. They are configuration and type declarations, with no behaviour to prove.
- Values are finite acyclic trees with value semantics, so the model does not cover:
  - shared references or other aliasing between inputs and outputs;
  - the result of `deepMerge` sharing nested objects with its inputs;
  - cyclic inputs (see the last line of this list).
- Only own keys are modelled, so the model does not capture:
  - properties inherited through the prototype chain (`key in obj` sees `"toString"` in JavaScript);
  - `Object.prototype.hasOwnProperty`, which becomes plain own-key enumeration.
- An array's `length` property is not modelled as a key. In JavaScript `"length" in arr` holds, which matters in three places, and the model treats `length` like any other non-index key of an array in all of them:
  - as an intermediate segment, `setNestedValue` assigns `{}` to `arr.length`, which throws a `RangeError`; the model has no exceptions;
  - as the last segment, `setNestedValue` assigns the value to `arr.length`, which shortens or lengthens the array; the model drops that write (`JsValues.Put`);
  - `getNestedValue(o, "a.length")` returns the array's length; the model reads `undefined` (`JsValues.Member`).
- JavaScript can write into an array under a key that is not an index, or at an out-of-range index: it stores an extra property or extends the array. The model drops such a write instead, and with it everything the setter would have written below it.
- Numbers are unbounded integers: floating point and `NaN` are not modelled. They play no part in these helpers, which only compare, copy and store values.
- The order of `for...in` is not modelled. The merge loop may pick the source keys in any order, and the result is proved the same for every order.
- `NestedSet.GetAfterSet` requires that no intermediate segment holds an array. In JavaScript the round trip also holds through arrays, except for the segment `length`: a non-index or out-of-range key creates a property or grows the array, and the getter finds it again. The model drops such writes, so in the model a value written through an array reads back only when every key into an array is an in-range index; the lemma does not state that case.
- The code has no guard against cyclic input, and the model's values are acyclic, so the model says nothing about it. `deepMerge` recurses on a key only when the output and the source both hold plain objects there (`helpers.ts` lines 19-28), so a finite target bounds the depth whatever the source holds. Over a finite target, a cyclic source terminates, and the result shares the cycle: `deepMerge({}, s)` with `s.self = s` copies `s` across at once. The recursion never ends only when both sides hold plain objects along the same endless key path, as in `deepMerge(x, x)` with `x.self = x`. `getNestedValue` and `setNestedValue` walk a finite path, so they always terminate.
