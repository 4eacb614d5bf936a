/**
 * The JavaScript values that the form builder's tree helpers walk over,
 * modelled as finite, acyclic trees with value semantics.
 *
 * Property access follows JavaScript for a value's OWN keys: a plain object
 * has the keys of its map, an array has the canonical decimal index strings
 * "0", "1", ... below its length. Inherited properties (`toString`, an
 * array's `length`) are not part of the model.
 */
module JsValues {

  datatype Option<+T> = None | Some(value: T)

  /** A JavaScript value. `Undefined` is JS `undefined`, which an object may
      also hold as the value of a present key. Numbers are integers here. */
  datatype Json =
    | Undefined
    | Null
    | Bool(b: bool)
    | Num(n: int)
    | Str(s: string)
    | Arr(elems: seq<Json>)
    | Obj(fields: map<string, Json>)

  /** JavaScript's `typeof` operator on these values: `null` and arrays are
      "object" as well as plain objects. */
  function TypeOf(v: Json): (t: string)
    ensures t == "object" <==> v.Null? || v.Arr? || v.Obj?
    ensures t in {"undefined", "boolean", "number", "string", "object"}
  {
    match v
    case Undefined => "undefined"
    case Bool(_) => "boolean"
    case Num(_) => "number"
    case Str(_) => "string"
    case Null => "object"
    case Arr(_) => "object"
    case Obj(_) => "object"
  }

  /** `isObject`: `typeof value === 'object' && value !== null &&
      !Array.isArray(value)`; exactly the plain objects pass it. */
  function IsObject(v: Json): (b: bool)
    ensures b <==> v.Obj?
  {
    TypeOf(v) == "object" && v != Null && !v.Arr?
  }

  function DigitChar(d: nat): char
    requires d < 10
  {
    "0123456789"[d]
  }

  /** The decimal rendering of a natural number, as `String(n)` gives it. */
  function NatToString(n: nat): (s: string)
    ensures |s| >= 1
  {
    if n < 10 then [DigitChar(n)] else NatToString(n / 10) + [DigitChar(n % 10)]
  }

  /** The element that the property key `key` names in an array of length
      `len`: a key is an array index exactly when it is the decimal rendering
      of a number below the length. */
  function ArrayIndex(key: string, len: nat): (r: Option<nat>)
    ensures r.Some? ==> r.value < len && NatToString(r.value) == key
    ensures r.None? ==> forall n: nat :: n < len ==> NatToString(n) != key
  {
    if len == 0 then None
    else if NatToString(len - 1) == key then Some(len - 1)
    else ArrayIndex(key, len - 1)
  }

  /** `key in v` for own keys; false on values that are not objects. */
  predicate HasKey(v: Json, key: string)
    ensures HasKey(v, key) ==> v.Obj? || v.Arr?
    ensures v.Obj? ==> (HasKey(v, key) <==> key in v.fields)
    ensures v.Arr? ==> (HasKey(v, key) <==> exists n: nat :: n < |v.elems| && NatToString(n) == key)
  {
    match v
    case Obj(f) => key in f
    case Arr(e) =>
      var i := ArrayIndex(key, |e|);
      assert i.Some? ==> NatToString(i.value) == key;
      i.Some?
    case _ => false
  }

  /** `v[key]`; `undefined` when `v` has no such own key. */
  function Member(v: Json, key: string): (r: Json)
    ensures !HasKey(v, key) ==> r == Undefined
    ensures v.Obj? && key in v.fields ==> r == v.fields[key]
    ensures v.Arr? && HasKey(v, key) ==> r == v.elems[ArrayIndex(key, |v.elems|).value]
  {
    match v
    case Obj(f) => if key in f then f[key] else Undefined
    case Arr(e) => (match ArrayIndex(key, |e|) case Some(i) => e[i] case None => Undefined)
    case _ => Undefined
  }

  /** `v[key] = x`. A plain object gains or overwrites the key; an array has
      the element at an in-bounds index replaced. Any other write (a
      non-index key or an out-of-range index on an array, any key on a
      non-object) leaves the value as it was. */
  function Put(v: Json, key: string, x: Json): (r: Json)
    ensures r.Obj? <==> v.Obj?
    ensures r.Arr? <==> v.Arr?
    ensures v.Obj? ==> r.fields.Keys == v.fields.Keys + {key}
    ensures v.Arr? ==> |r.elems| == |v.elems|
    ensures HasKey(r, key) <==> HasKey(v, key) || v.Obj?
    ensures HasKey(r, key) ==> Member(r, key) == x
    ensures !HasKey(r, key) ==> r == v
    ensures forall k :: k != key ==> HasKey(r, k) == HasKey(v, k) && Member(r, k) == Member(v, k)
  {
    match v
    case Obj(f) => Obj(f[key := x])
    case Arr(e) => (match ArrayIndex(key, |e|) case Some(i) => Arr(e[i := x]) case None => v)
    case _ => v
  }

  /** A second write to the same key wins over the first. */
  lemma PutPut(v: Json, key: string, x: Json, y: Json)
    ensures Put(Put(v, key, x), key, y) == Put(v, key, y)
  {
    match v
    case Obj(f) =>
      assert f[key := x][key := y] == f[key := y];
    case Arr(e) =>
      match ArrayIndex(key, |e|) {
        case Some(i) =>
          assert ArrayIndex(key, |e[i := x]|) == Some(i);
          assert e[i := x][i := y] == e[i := y];
        case None =>
      }
    case _ =>
  }

  /** Writing back the value a key already holds changes nothing. */
  lemma PutMember(v: Json, key: string)
    requires HasKey(v, key)
    ensures Put(v, key, Member(v, key)) == v
  {
    match v
    case Obj(f) =>
      assert f[key := f[key]] == f;
    case Arr(e) =>
      var i := ArrayIndex(key, |e|).value;
      assert e[i := e[i]] == e;
  }
}
