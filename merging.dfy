/**
 * `deepMerge` and the `isObject` test it uses: merge `source` into a
 * shallow copy of `target`, recursing where both sides hold plain objects
 * and letting the source value replace the target value everywhere else.
 *
 * With value semantics `target` and `source` are never changed; sharing of
 * nested objects between the result and the inputs is not observable here.
 */
module Merging {
  import opened JsValues
  import opened DotPath
  import opened SeqFacts
  import opened NestedGet

  /** The condition under which `deepMerge` recurses on a key: both values
      pass `isObject`, and neither is an array. */
  predicate MergesRecursively(sourceValue: Json, targetValue: Json)
    ensures MergesRecursively(sourceValue, targetValue) <==> sourceValue.Obj? && targetValue.Obj?
  {
    IsObject(sourceValue) && IsObject(targetValue) && !sourceValue.Arr? && !targetValue.Arr?
  }

  /** The object `deepMerge(target, source)` returns. */
  function MergeMaps(target: map<string, Json>, source: map<string, Json>): (r: map<string, Json>)
    ensures r.Keys == target.Keys + source.Keys
    ensures forall k :: k in target && k !in source ==> r[k] == target[k]
    ensures forall k :: k in source && !source[k].Obj? ==> r[k] == source[k]
    ensures forall k :: k in source && k in target && source[k].Obj? && target[k].Obj? ==>
      r[k].Obj? && r[k].fields.Keys == target[k].fields.Keys + source[k].fields.Keys
    decreases Obj(source)
  {
    map k | k in target.Keys + source.Keys ::
      if k !in source then target[k]
      else if MergesRecursively(source[k], Member(Obj(target), k)) then
        Obj(MergeMaps(target[k].fields, source[k].fields))
      else source[k]
  }

  /** `deepMerge(target, source)`: a shallow copy of `target`, then each own
      key of `source` in turn, in whatever order the enumeration yields. */
  method DeepMerge(target: map<string, Json>, source: map<string, Json>) returns (output: map<string, Json>)
    ensures output == MergeMaps(target, source)
    ensures output.Keys == target.Keys + source.Keys
    ensures forall k :: k in target && k !in source ==> output[k] == target[k]
    ensures forall k :: k in source && !MergesRecursively(source[k], Member(Obj(target), k)) ==>
      output[k] == source[k]
    ensures forall k :: k in source && MergesRecursively(source[k], Member(Obj(target), k)) ==>
      output[k] == Obj(MergeMaps(target[k].fields, source[k].fields))
    decreases Obj(source)
  {
    output := target;
    var pending := source.Keys;
    while pending != {}
      invariant MergedSoFar(target, source, pending, output)
      decreases pending
    {
      var key :| key in pending;
      var sourceValue := source[key];
      var targetValue := Member(Obj(output), key);
      assert targetValue == Member(Obj(target), key);
      ghost var before, expected := output, MergeMaps(target, source)[key];
      if MergesRecursively(sourceValue, targetValue) {
        var merged := DeepMerge(targetValue.fields, sourceValue.fields);
        output := output[key := Obj(merged)];
      } else {
        output := output[key := sourceValue];
      }
      assert output == before[key := expected];
      MergeStep(target, source, pending, before, key);
      pending := pending - {key};
    }
    MergeDone(target, source, output);
    MergeMapsRule(target, source);
  }

  /** The loop's invariant: the keys of `source` outside `pending` are
      merged, every other key still holds the target's value. */
  ghost predicate MergedSoFar(target: map<string, Json>, source: map<string, Json>,
                              pending: set<string>, output: map<string, Json>)
  {
    && pending <= source.Keys
    && output.Keys == target.Keys + (source.Keys - pending)
    && forall k :: k in output ==>
         output[k] == if k in pending || k !in source then target[k] else MergeMaps(target, source)[k]
  }

  lemma MergeStep(target: map<string, Json>, source: map<string, Json>,
                  pending: set<string>, output: map<string, Json>, key: string)
    requires MergedSoFar(target, source, pending, output)
    requires key in pending
    ensures MergedSoFar(target, source, pending - {key}, output[key := MergeMaps(target, source)[key]])
  {
  }

  lemma MergeDone(target: map<string, Json>, source: map<string, Json>, output: map<string, Json>)
    requires MergedSoFar(target, source, {}, output)
    ensures output == MergeMaps(target, source)
  {
    assert output.Keys == MergeMaps(target, source).Keys;
  }

  /** The rule `MergeMaps` follows key by key. */
  lemma MergeMapsRule(target: map<string, Json>, source: map<string, Json>)
    ensures var r := MergeMaps(target, source);
      && r.Keys == target.Keys + source.Keys
      && (forall k :: k in target && k !in source ==> r[k] == target[k])
      && (forall k :: k in source && !MergesRecursively(source[k], Member(Obj(target), k)) ==> r[k] == source[k])
      && (forall k :: k in source && MergesRecursively(source[k], Member(Obj(target), k)) ==>
            r[k] == Obj(MergeMaps(target[k].fields, source[k].fields)))
  {
  }

  /** Merging in an empty source gives the target back. */
  lemma MergeEmptySource(target: map<string, Json>)
    ensures MergeMaps(target, map[]) == target
  {
  }

  /** Merging an object with itself gives it back, at every depth. */
  lemma {:induction false} MergeSelf(m: map<string, Json>)
    ensures MergeMaps(m, m) == m
    decreases Obj(m)
  {
    var r := MergeMaps(m, m);
    forall k | k in m ensures r[k] == m[k] {
      if MergesRecursively(m[k], Member(Obj(m), k)) {
        MergeSelf(m[k].fields);
      }
    }
  }

  /** Merging the same source a second time changes nothing. */
  lemma {:induction false} MergeIdempotent(target: map<string, Json>, source: map<string, Json>)
    ensures MergeMaps(MergeMaps(target, source), source) == MergeMaps(target, source)
    decreases Obj(source)
  {
    var once := MergeMaps(target, source);
    var twice := MergeMaps(once, source);
    forall k | k in once ensures twice[k] == once[k] {
      if k in source && MergesRecursively(source[k], Member(Obj(once), k)) {
        if MergesRecursively(source[k], Member(Obj(target), k)) {
          MergeIdempotent(target[k].fields, source[k].fields);
        } else {
          MergeSelf(source[k].fields);
        }
      }
    }
  }

  /** `deepMerge({a: 1, b: {c: 2}}, {b: {c: 3, d: 4}})` is `{a: 1, b: {c: 3, d: 4}}`. */
  lemma MergeNestedExample()
    ensures MergeMaps(map["a" := Num(1), "b" := Obj(map["c" := Num(2)])],
                      map["b" := Obj(map["c" := Num(3), "d" := Num(4)])])
         == map["a" := Num(1), "b" := Obj(map["c" := Num(3), "d" := Num(4)])]
  {
    var inner := MergeMaps(map["c" := Num(2)], map["c" := Num(3), "d" := Num(4)]);
    assert inner == map["c" := Num(3), "d" := Num(4)];
  }

  /** `deepMerge({a: [1, 2]}, {a: [3]})` is `{a: [3]}`: arrays are replaced,
      never merged element by element. */
  lemma MergeArrayExample()
    ensures MergeMaps(map["a" := Arr([Num(1), Num(2)])], map["a" := Arr([Num(3)])])
         == map["a" := Arr([Num(3)])]
  {
  }

  // ---- the merge read along paths ----

  /** `q` runs through plain objects of `v` to a key `v` holds whose value is
      not a plain object: a scalar, `null`, `undefined` or an array. */
  predicate EndsOnLeaf(v: Json, q: seq<string>)
    decreases |q|
  {
    && q != [] && v.Obj? && q[0] in v.fields
    && if |q| == 1 then !v.fields[q[0]].Obj? else EndsOnLeaf(v.fields[q[0]], q[1..])
  }

  /** The source wins: wherever the source holds a value that is not a plain
      object, reached through plain objects, the result holds that value. */
  lemma {:induction false} MergeSourceWins(target: map<string, Json>, source: map<string, Json>, q: seq<string>)
    requires EndsOnLeaf(Obj(source), q)
    ensures Lookup(Obj(MergeMaps(target, source)), q) == Lookup(Obj(source), q)
    decreases |q|
  {
    var key, rest := q[0], q[1..];
    var r := MergeMaps(target, source);
    HeadTail(q);
    LookupCons(Obj(r), key, rest);
    LookupCons(Obj(source), key, rest);
    if |q| > 1 && MergesRecursively(source[key], Member(Obj(target), key)) {
      MergeSourceWins(target[key].fields, source[key].fields, rest);
    }
  }

  /** `q` runs through plain objects of both `t` and `s` until a key that
      `s` does not have. */
  predicate LeavesSource(t: Json, s: Json, q: seq<string>)
    decreases |q|
  {
    && q != [] && t.Obj? && s.Obj?
    && (q[0] !in s.fields || (q[0] in t.fields && LeavesSource(t.fields[q[0]], s.fields[q[0]], q[1..])))
  }

  /** The target shows through: along a path on which both sides hold plain
      objects until the source stops, the result reads as the target. */
  lemma {:induction false} MergeKeepsTarget(target: map<string, Json>, source: map<string, Json>, q: seq<string>)
    requires LeavesSource(Obj(target), Obj(source), q)
    ensures Lookup(Obj(MergeMaps(target, source)), q) == Lookup(Obj(target), q)
    decreases |q|
  {
    var key, rest := q[0], q[1..];
    var r := MergeMaps(target, source);
    HeadTail(q);
    LookupCons(Obj(r), key, rest);
    LookupCons(Obj(target), key, rest);
    if key in source {
      MergeKeepsTarget(target[key].fields, source[key].fields, rest);
    }
  }
}
