/**
 * `getNestedValue`: read a value through a dot-delimited path.
 */
module NestedGet {
  import opened JsValues
  import opened DotPath
  import opened SeqFacts

  /** The walk of `getNestedValue` over already split segments: stop with
      `undefined` on `null`/`undefined`, on a value that is not an object and
      on a missing key; otherwise descend. */
  function Lookup(current: Json, keys: seq<string>): (r: Json)
    ensures keys == [] ==> r == current
    ensures keys != [] && !HasKey(current, keys[0]) ==> r == Undefined
    decreases |keys|
  {
    if keys == [] then current
    else if current == Null || current == Undefined then Undefined
    else if TypeOf(current) == "object" && HasKey(current, keys[0]) then
      Lookup(Member(current, keys[0]), keys[1..])
    else Undefined
  }

  /** `getNestedValue(obj, path)`, with the loop and early returns of `helpers.ts`. */
  method GetNestedValue(obj: map<string, Json>, path: string) returns (r: Json)
    ensures r == Lookup(Obj(obj), Split(path))
  {
    var keys := Split(path);
    var current := Obj(obj);
    var i := 0;
    while i < |keys|
      invariant 0 <= i <= |keys|
      invariant Lookup(current, keys[i..]) == Lookup(Obj(obj), keys)
    {
      var key := keys[i];
      assert keys[i..][1..] == keys[i + 1..];
      if current == Null || current == Undefined {
        return Undefined;
      }
      if TypeOf(current) == "object" && HasKey(current, key) {
        current := Member(current, key);
      } else {
        return Undefined;
      }
      i := i + 1;
    }
    r := current;
  }

  /** One more segment reads that key of the value reached so far, and
      yields `undefined` when it is absent. */
  lemma {:induction false} LookupSnoc(v: Json, keys: seq<string>, key: string)
    ensures Lookup(v, keys + [key]) == Member(Lookup(v, keys), key)
    decreases |keys|
  {
    if keys == [] {
      assert [] + [key] == [key];
      assert [key][1..] == [];
    } else {
      assert (keys + [key])[0] == keys[0];
      assert (keys + [key])[1..] == keys[1..] + [key];
      if v != Null && v != Undefined && TypeOf(v) == "object" && HasKey(v, keys[0]) {
        LookupSnoc(Member(v, keys[0]), keys[1..], key);
      }
    }
  }

  /** Reading along `a + b` is reading `b` from the value that `a` reaches,
      `undefined` included. */
  lemma {:induction false} LookupConcat(v: Json, a: seq<string>, b: seq<string>)
    ensures Lookup(v, a + b) == Lookup(Lookup(v, a), b)
    decreases |a|
  {
    if a == [] {
      assert [] + b == b;
    } else {
      assert (a + b)[0] == a[0];
      assert (a + b)[1..] == a[1..] + b;
      if v != Null && v != Undefined && TypeOf(v) == "object" && HasKey(v, a[0]) {
        LookupConcat(Member(v, a[0]), a[1..], b);
      } else {
        LookupUndefined(b);
      }
    }
  }

  /** Reading through a key is reading from its member, present or not. */
  lemma LookupCons(v: Json, key: string, rest: seq<string>)
    ensures Lookup(v, [key] + rest) == Lookup(Member(v, key), rest)
  {
    assert ([key] + rest)[0] == key && ([key] + rest)[1..] == rest;
    if !HasKey(v, key) {
      LookupUndefined(rest);
    }
  }

  /** Nothing can be read below `undefined`. */
  lemma LookupUndefined(b: seq<string>)
    ensures Lookup(Undefined, b) == Undefined
  {
  }

  /** Absence at any depth yields `undefined`, never a partial result: once
      the value reached by `a` lacks `key` (or is not an object), every
      longer path through it reads `undefined`. */
  lemma GetMissingIsUndefined(v: Json, a: seq<string>, key: string, rest: seq<string>)
    requires !HasKey(Lookup(v, a), key)
    ensures Lookup(v, a + [key] + rest) == Undefined
  {
    LookupConcat(v, a + [key], rest);
    LookupSnoc(v, a, key);
  }

  /** Over a path string: a leading dot-free segment reads that key of the
      root, and the rest of the path is read from there. */
  lemma GetNestedStep(obj: map<string, Json>, key: string, rest: string)
    requires '.' !in key
    ensures Lookup(Obj(obj), Split(key + "." + rest))
         == Lookup(Member(Obj(obj), key), Split(rest))
  {
    SplitCons(key, rest);
    LookupConcat(Obj(obj), [key], Split(rest));
    LookupSnoc(Obj(obj), [], key);
    assert [] + [key] == [key];
  }
}
