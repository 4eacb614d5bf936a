/**
 * `setNestedValue`: write a value through a dot-delimited path, creating or
 * replacing intermediate objects on the way, in the caller's object.
 *
 * JavaScript objects are shared references; here they are values. The
 * setter's local `current` refers to a node inside the caller's object, so
 * the model keeps, beside a copy of that node, the path `at` from the root
 * to it, and every write through `current` is written back into the root at
 * `at`. The walk is specified by the recursive function `Assign`.
 */
module NestedSet {
  import opened JsValues
  import opened DotPath
  import opened SeqFacts
  import opened NestedGet

  /** The setter's test for an intermediate key: absent, not of type
      "object", or `null`. Such a key is given a fresh `{}`. */
  predicate NeedsFreshObject(current: Json, key: string)
    ensures !NeedsFreshObject(current, key) <==>
      HasKey(current, key) && (Member(current, key).Obj? || Member(current, key).Arr?)
  {
    !HasKey(current, key) || TypeOf(Member(current, key)) != "object" || Member(current, key) == Null
  }

  /** The object the setter descends into under `key`: the existing one,
      or the fresh `{}` it stores there first. */
  function NextObject(current: Json, key: string): (r: Json)
    ensures TypeOf(r) == "object" && r != Null
  {
    if NeedsFreshObject(current, key) then Obj(map[]) else Member(current, key)
  }

  /** The walk of `setNestedValue` from `current` through the intermediate
      `keys`, writing `value` under `last` at the end; the result is the new
      value of `current`. */
  function Assign(current: Json, keys: seq<string>, last: string, value: Json): (r: Json)
    ensures current.Obj? ==> r.Obj? && r.fields.Keys == current.fields.Keys + {if keys == [] then last else keys[0]}
    ensures current.Arr? ==> r.Arr? && |r.elems| == |current.elems|
    decreases |keys|
  {
    if keys == [] then Put(current, last, value)
    else
      Put(current, keys[0], Assign(NextObject(current, keys[0]), keys[1..], last, value))
  }

  /** The caller's object after `setNestedValue(obj, path, value)`. */
  function SetNested(obj: map<string, Json>, path: string, value: Json): (r: map<string, Json>)
    ensures Last(Split(path)) == "" ==> r == obj
    ensures Last(Split(path)) != "" ==> r.Keys == obj.Keys + {Split(path)[0]}
    ensures forall k :: k in obj && k != Split(path)[0] ==> r[k] == obj[k]
  {
    var keys := Split(path);
    if Last(keys) == "" then obj else Assign(Obj(obj), Init(keys), Last(keys), value).fields
  }

  /** Every key of `path` is present, one level after the other, from `v`. */
  predicate Reachable(v: Json, path: seq<string>)
    decreases |path|
  {
    path == [] || (HasKey(v, path[0]) && Reachable(Member(v, path[0]), path[1..]))
  }

  /** `v` with the value at an existing `path` replaced by `x`; `v` itself
      when the path is not there. */
  function PutAt(v: Json, path: seq<string>, x: Json): (r: Json)
    ensures path != [] ==> (r.Obj? <==> v.Obj?)
    decreases |path|
  {
    if path == [] then x
    else if HasKey(v, path[0]) then Put(v, path[0], PutAt(Member(v, path[0]), path[1..], x))
    else v
  }

  /** The caller's object, which `setNestedValue` updates in place. */
  class JsRecord {
    var fields: map<string, Json>

    constructor (fields: map<string, Json>)
      ensures this.fields == fields
    {
      this.fields := fields;
    }

    /** `setNestedValue(this, path, value)`. */
    method SetNestedValue(path: string, value: Json)
      modifies this
      ensures fields == SetNested(old(fields), path, value)
    {
      var keys := Split(path);
      var lastKey := Last(keys);
      keys := Init(keys);
      if lastKey == "" {
        return;
      }
      ghost var goal := Assign(Obj(fields), keys, lastKey, value);
      var current := Obj(fields);
      var at: seq<string> := [];  // where `current` sits in the root
      for i := 0 to |keys|
        invariant at == keys[..i]
        invariant Reachable(Obj(fields), at) ==>
          current == Lookup(Obj(fields), at) &&
          PutAt(Obj(fields), at, Assign(current, keys[i..], lastKey, value)) == goal
        invariant !Reachable(Obj(fields), at) ==> current == Undefined && Obj(fields) == goal
      {
        var key := keys[i];
        ghost var root, before := Obj(fields), current;
        DropCons(keys, i);
        if NeedsFreshObject(current, key) {
          current := Put(current, key, Obj(map[]));
          fields := PutAt(Obj(fields), at, current).fields;
        }
        WalkStep(root, at, before, key, keys[i + 1..], lastKey, value, goal);
        current := Member(current, key);
        at := at + [key];
        TakeSnoc(keys, i);
      }
      if !Reachable(Obj(fields), at) {
        PutAtUnreachable(Obj(fields), at, Put(current, lastKey, value));
      }
      current := Put(current, lastKey, value);
      fields := PutAt(Obj(fields), at, current).fields;
      assert Obj(fields) == goal;
      SetNestedIsAssign(old(fields), path, value);
    }
  }

  /** One iteration of the setter's loop keeps its invariant. */
  lemma WalkStep(root: Json, at: seq<string>, current: Json, key: string,
                 rest: seq<string>, last: string, value: Json, goal: Json)
    requires Reachable(root, at) ==>
      current == Lookup(root, at) &&
      PutAt(root, at, Assign(current, [key] + rest, last, value)) == goal
    requires !Reachable(root, at) ==> current == Undefined && root == goal
    ensures
      var replace := NeedsFreshObject(current, key);
      var current1 := if replace then Put(current, key, Obj(map[])) else current;
      var root1 := if replace then PutAt(root, at, current1) else root;
      var next := Member(current1, key);
      (Reachable(root1, at + [key]) ==>
         next == Lookup(root1, at + [key]) &&
         PutAt(root1, at + [key], Assign(next, rest, last, value)) == goal) &&
      (!Reachable(root1, at + [key]) ==> next == Undefined && root1 == goal)
  {
    var replace := NeedsFreshObject(current, key);
    var current1 := if replace then Put(current, key, Obj(map[])) else current;
    var root1 := if replace then PutAt(root, at, current1) else root;
    var next := Member(current1, key);
    assert ([key] + rest)[0] == key && ([key] + rest)[1..] == rest;
    var y := Assign(next, rest, last, value);
    if !Reachable(root, at) {
      PutAtUnreachable(root, at, current1);
      ReachableSnoc(root, at, key);
    } else if replace && HasKey(current1, key) {
      PutAtReach(root, at, current1);
      ReachableSnoc(root1, at, key);
      LookupSnoc(root1, at, key);
      PutAtSnoc(root1, at, key, y);
      PutPut(current, key, Obj(map[]), y);
      PutAtPutAt(root, at, current1, Put(current, key, y));
    } else if replace {
      PutAtSelf(root, at);
      ReachableSnoc(root, at, key);
    } else {
      ReachableSnoc(root, at, key);
      LookupSnoc(root, at, key);
      PutAtSnoc(root, at, key, y);
    }
  }

  // ---- the path-level algebra the loop proof uses ----

  /** A path is there when its first key is and the rest is there below it. */
  lemma ReachableCons(v: Json, key: string, rest: seq<string>)
    ensures Reachable(v, [key] + rest) == (HasKey(v, key) && Reachable(Member(v, key), rest))
  {
    assert ([key] + rest)[0] == key && ([key] + rest)[1..] == rest;
  }

  lemma {:induction false} ReachableSnoc(v: Json, p: seq<string>, key: string)
    ensures Reachable(v, p + [key]) <==> Reachable(v, p) && HasKey(Lookup(v, p), key)
    decreases |p|
  {
    if p == [] {
      assert [] + [key] == [key] && [key][1..] == [];
    } else {
      assert (p + [key])[0] == p[0] && (p + [key])[1..] == p[1..] + [key];
      assert [p[0]] + p[1..] == p;
      LookupCons(v, p[0], p[1..]);
      if HasKey(v, p[0]) {
        ReachableSnoc(Member(v, p[0]), p[1..], key);
      }
    }
  }

  lemma {:induction false} PutAtUnreachable(v: Json, p: seq<string>, x: Json)
    requires !Reachable(v, p)
    ensures PutAt(v, p, x) == v
    decreases |p|
  {
    if HasKey(v, p[0]) {
      PutAtUnreachable(Member(v, p[0]), p[1..], x);
      PutMember(v, p[0]);
    }
  }

  lemma {:induction false} PutAtReach(v: Json, p: seq<string>, x: Json)
    requires Reachable(v, p)
    ensures Reachable(PutAt(v, p, x), p) && Lookup(PutAt(v, p, x), p) == x
    decreases |p|
  {
    if p != [] {
      PutAtReach(Member(v, p[0]), p[1..], x);
      assert [p[0]] + p[1..] == p;
      LookupCons(PutAt(v, p, x), p[0], p[1..]);
    }
  }

  lemma {:induction false} PutAtPutAt(v: Json, p: seq<string>, x: Json, y: Json)
    ensures PutAt(PutAt(v, p, x), p, y) == PutAt(v, p, y)
    decreases |p|
  {
    if p != [] && HasKey(v, p[0]) {
      var m := Member(v, p[0]);
      PutAtPutAt(m, p[1..], x, y);
      PutPut(v, p[0], PutAt(m, p[1..], x), PutAt(m, p[1..], y));
    }
  }

  lemma {:induction false} PutAtSelf(v: Json, p: seq<string>)
    ensures PutAt(v, p, Lookup(v, p)) == v
    decreases |p|
  {
    if p != [] && HasKey(v, p[0]) {
      assert [p[0]] + p[1..] == p;
      LookupCons(v, p[0], p[1..]);
      PutAtSelf(Member(v, p[0]), p[1..]);
      PutMember(v, p[0]);
    }
  }

  lemma {:induction false} PutAtSnoc(v: Json, p: seq<string>, key: string, y: Json)
    requires Reachable(v, p) && HasKey(Lookup(v, p), key)
    ensures PutAt(v, p + [key], y) == PutAt(v, p, Put(Lookup(v, p), key, y))
    decreases |p|
  {
    if p == [] {
      assert [] + [key] == [key] && [key][1..] == [];
    } else {
      assert (p + [key])[0] == p[0] && (p + [key])[1..] == p[1..] + [key];
      assert [p[0]] + p[1..] == p;
      LookupCons(v, p[0], p[1..]);
      PutAtSnoc(Member(v, p[0]), p[1..], key, y);
    }
  }

  // ---- what the setter guarantees ----

  /** No intermediate segment holds an array: no proper prefix of the full
      path reaches an array from `root`. */
  predicate NoArrayOnPath(root: Json, keys: seq<string>) {
    forall i :: 0 < i <= |keys| ==> !Lookup(root, keys[..i]).Arr?
  }

  /** Reading the written path back from the walk's result gives the value. */
  lemma {:induction false} AssignThenLookup(current: Json, keys: seq<string>, last: string, value: Json)
    requires current.Obj?
    requires NoArrayOnPath(current, keys)
    ensures Lookup(Assign(current, keys, last, value), keys + [last]) == value
    decreases |keys|
  {
    var r := Assign(current, keys, last, value);
    if keys == [] {
      assert [] + [last] == [last];
      LookupCons(r, last, []);
    } else {
      var key, tail := keys[0], keys[1..];
      var next := NextObject(current, key);
      assert keys[..1] == [key] + [];
      LookupCons(current, key, []);
      forall i | 0 < i <= |tail| ensures !Lookup(next, tail[..i]).Arr? {
        if !NeedsFreshObject(current, key) {
          TakeTail(keys, i);
          LookupCons(current, key, tail[..i]);
        }
      }
      AssignThenLookup(next, tail, last, value);
      ConsSnoc(keys, last);
      LookupCons(r, key, tail + [last]);
    }
  }

  /** Round trip: when the last segment is not empty and no intermediate
      segment holds an array, reading the path after writing it gives the
      value written. */
  lemma GetAfterSet(obj: map<string, Json>, path: string, value: Json)
    requires Last(Split(path)) != ""
    requires NoArrayOnPath(Obj(obj), Init(Split(path)))
    ensures Lookup(Obj(SetNested(obj, path, value)), Split(path)) == value
  {
    SetNestedIsAssign(obj, path, value);
    AssignReadBack(Obj(obj), Split(path), value);
  }

  /** `AssignThenLookup` for a path given whole. */
  lemma AssignReadBack(root: Json, keys: seq<string>, value: Json)
    requires |keys| >= 1 && root.Obj?
    requires NoArrayOnPath(root, Init(keys))
    ensures Lookup(Assign(root, Init(keys), Last(keys), value), keys) == value
  {
    AssignThenLookup(root, Init(keys), Last(keys), value);
    assert Init(keys) + [Last(keys)] == keys;
  }

  /** Past the guard, the setter's result is the walk from the root. */
  lemma SetNestedIsAssign(obj: map<string, Json>, path: string, value: Json)
    requires Last(Split(path)) != ""
    ensures Obj(SetNested(obj, path, value)) == Assign(Obj(obj), Init(Split(path)), Last(Split(path)), value)
  {
  }

  /** The setter does nothing when the path is empty or ends in a dot, as
      its `if (!lastKey) return` guard decides. */
  lemma SetNestedEmptyLastKey(obj: map<string, Json>, path: string, value: Json)
    requires path == "" || path[|path| - 1] == '.'
    ensures SetNested(obj, path, value) == obj
  {
    SplitLastEmpty(path);
  }

  /** Writing `key.rest` writes `rest` into the object the setter
      descends into under `key`. */
  lemma SetNestedStep(obj: map<string, Json>, key: string, rest: string, value: Json)
    requires '.' !in key
    requires Last(Split(rest)) != ""
    ensures SetNested(obj, key + "." + rest, value)
         == obj[key := Assign(NextObject(Obj(obj), key), Init(Split(rest)), Last(Split(rest)), value)]
  {
    SplitCons(key, rest);
    SetNestedCons(obj, key + "." + rest, key, Split(rest), value);
  }

  /** `SetNestedStep` over the split path. */
  lemma SetNestedCons(obj: map<string, Json>, path: string, key: string, tail: seq<string>, value: Json)
    requires Split(path) == [key] + tail
    requires |tail| >= 1 && Last(tail) != ""
    ensures SetNested(obj, path, value)
         == obj[key := Assign(NextObject(Obj(obj), key), Init(tail), Last(tail), value)]
  {
    var keys := [key] + tail;
    assert Last(keys) == Last(tail) && Init(keys) == [key] + Init(tail);
    AssignCons(Obj(obj), key, Init(tail), Last(tail), value);
  }

  /** One step of the walk, for a path given as its first key and the rest. */
  lemma AssignCons(current: Json, key: string, tail: seq<string>, last: string, value: Json)
    ensures Assign(current, [key] + tail, last, value)
         == Put(current, key, Assign(NextObject(current, key), tail, last, value))
  {
    assert ([key] + tail)[0] == key && ([key] + tail)[1..] == tail;
  }

  /** An intermediate key that is absent, not an object or `null` is
      replaced by a fresh object holding only the rest of the write: the old
      value is discarded. */
  lemma SetNestedReplacesNonObject(obj: map<string, Json>, key: string, rest: string, value: Json)
    requires '.' !in key
    requires Last(Split(rest)) != ""
    requires NeedsFreshObject(Obj(obj), key)
    ensures SetNested(obj, key + "." + rest, value) == obj[key := Obj(SetNested(map[], rest, value))]
  {
    assert NextObject(Obj(obj), key) == Obj(map[]);
    SetNestedStep(obj, key, rest, value);
  }

  /** An intermediate key that holds a plain object is kept and the rest of
      the write goes into it. */
  lemma SetNestedDescends(obj: map<string, Json>, key: string, rest: string, value: Json)
    requires '.' !in key
    requires Last(Split(rest)) != ""
    requires key in obj && obj[key].Obj?
    ensures SetNested(obj, key + "." + rest, value) == obj[key := Obj(SetNested(obj[key].fields, rest, value))]
  {
    assert NextObject(Obj(obj), key) == obj[key];
    SetNestedStep(obj, key, rest, value);
  }

  /** An intermediate key that holds an array is an object to the setter
      too: the array is kept, with its length, and descended into. */
  lemma SetNestedKeepsArray(obj: map<string, Json>, key: string, rest: string, value: Json)
    requires '.' !in key
    requires Last(Split(rest)) != ""
    requires key in obj && obj[key].Arr?
    ensures var r := SetNested(obj, key + "." + rest, value);
      key in r && r[key].Arr? && |r[key].elems| == |obj[key].elems|
  {
    assert NextObject(Obj(obj), key) == obj[key];
    SetNestedStep(obj, key, rest, value);
  }

  /** A path of one non-empty segment writes that key of the root. */
  lemma SetNestedSingle(obj: map<string, Json>, key: string, value: Json)
    requires '.' !in key && key != ""
    ensures SetNested(obj, key, value) == obj[key := value]
  {
    SplitDotFree(key);
    assert Init([key]) == [];
  }

  /** `{a: 5}` written at "a.b" with 1 becomes `{a: {b: 1}}`. */
  lemma DestructiveOverwriteExample()
    ensures SetNested(map["a" := Num(5)], "a.b", Num(1)) == map["a" := Obj(map["b" := Num(1)])]
  {
    var m, inner := map["a" := Num(5)], map["b" := Num(1)];
    SetNestedSingle(map[], "b", Num(1));
    assert SetNested(map[], "b", Num(1)) == inner;
    assert NeedsFreshObject(Obj(m), "a");
    SetNestedReplacesNonObject(m, "a", "b", Num(1));
    assert m["a" := Obj(inner)] == map["a" := Obj(inner)];
    assert "a" + "." + "b" == "a.b";
  }

  /** `q` leaves the path `p` at some position: it agrees with `p` before
      that position and has another key at it. */
  predicate Diverges(q: seq<string>, p: seq<string>) {
    exists i :: 0 <= i < |q| && i < |p| && q[..i] == p[..i] && q[i] != p[i]
  }

  /** The walk changes nothing along a path leaving it: every key on that
      path is present afterwards exactly when it was before, and the path
      reads the same value. */
  lemma {:induction false} AssignFrame(current: Json, keys: seq<string>, last: string, value: Json, q: seq<string>)
    requires Diverges(q, keys + [last])
    ensures Reachable(Assign(current, keys, last, value), q) == Reachable(current, q)
    ensures Lookup(Assign(current, keys, last, value), q) == Lookup(current, q)
    decreases |keys|
  {
    var p := keys + [last];
    assert q != [] && q == [q[0]] + q[1..];
    if keys == [] {
      assert p == [last];
      PutFrame(current, last, value, q[0], q[1..]);
    } else {
      var key, tail := keys[0], keys[1..];
      var next := NextObject(current, key);
      var y := Assign(next, tail, last, value);
      AssignCons(current, key, tail, last, value);
      HeadTail(keys);
      ConsSnoc(keys, last);
      if q[0] != key {
        PutFrame(current, key, y, q[0], q[1..]);
      } else {
        DivergesTail(q, p);
        assert p[1..] == tail + [last];
        AssignFrame(next, tail, last, value, q[1..]);
        PutThrough(current, key, y, q[1..]);
      }
    }
  }

  /** A write under one key is not seen through another. */
  lemma PutFrame(v: Json, key: string, y: Json, k: string, rest: seq<string>)
    requires k != key
    ensures Reachable(Put(v, key, y), [k] + rest) == Reachable(v, [k] + rest)
    ensures Lookup(Put(v, key, y), [k] + rest) == Lookup(v, [k] + rest)
  {
    ReachableCons(Put(v, key, y), k, rest);
    ReachableCons(v, k, rest);
    LookupCons(Put(v, key, y), k, rest);
    LookupCons(v, k, rest);
  }

  /** Two paths that agree on their first key and diverge later diverge in their tails. */
  lemma DivergesTail(q: seq<string>, p: seq<string>)
    requires Diverges(q, p) && q != [] && p != [] && q[0] == p[0]
    ensures Diverges(q[1..], p[1..])
  {
    var i :| 0 <= i < |q| && i < |p| && q[..i] == p[..i] && q[i] != p[i];
    assert i > 0;
    assert q[1..][..i - 1] == q[..i][1..] && p[1..][..i - 1] == p[..i][1..];
    assert q[1..][i - 1] == q[i] && p[1..][i - 1] == p[i];
  }

  /** Below the key the setter descends into, the written object reads
      like the old member wherever the walk below it reads like `next`. */
  lemma PutThrough(v: Json, key: string, y: Json, rest: seq<string>)
    requires rest != []
    requires Reachable(y, rest) == Reachable(NextObject(v, key), rest)
    requires Lookup(y, rest) == Lookup(NextObject(v, key), rest)
    ensures Reachable(Put(v, key, y), [key] + rest) == Reachable(v, [key] + rest)
    ensures Lookup(Put(v, key, y), [key] + rest) == Lookup(v, [key] + rest)
  {
    ReachableCons(Put(v, key, y), key, rest);
    ReachableCons(v, key, rest);
    HeadTail(rest);
    ReachableCons(Member(v, key), rest[0], rest[1..]);
    ReachableCons(Obj(map[]), rest[0], rest[1..]);
    LookupCons(Put(v, key, y), key, rest);
    LookupCons(v, key, rest);
    if !HasKey(Put(v, key, y), key) {
      assert Put(v, key, y) == v;
    }
  }

  /** Frame: along any path that leaves the written path at some level,
      every key is present after the write exactly when it was before, and
      the path reads the same value; so every key off the path, at every
      level, keeps both its presence and its value. */
  lemma SetNestedFrame(obj: map<string, Json>, path: string, value: Json, q: seq<string>)
    requires Diverges(q, Split(path))
    ensures Reachable(Obj(SetNested(obj, path, value)), q) == Reachable(Obj(obj), q)
    ensures Lookup(Obj(SetNested(obj, path, value)), q) == Lookup(Obj(obj), q)
  {
    var keys := Split(path);
    if Last(keys) != "" {
      assert Init(keys) + [Last(keys)] == keys;
      AssignFrame(Obj(obj), Init(keys), Last(keys), value, q);
    }
  }
}
