/**
 * Dot-delimited property paths: `path.split('.')`. There is no escaping, so
 * a segment never contains a dot, and the empty string is one empty segment.
 */
module DotPath {

  /** Re-joins segments with '.', the inverse of `Split`. */
  function Join(segs: seq<string>): string
    requires |segs| >= 1
  {
    if |segs| == 1 then segs[0] else segs[0] + "." + Join(segs[1..])
  }

  /** `s.split('.')`: the maximal dot-free runs of `s`, in order. */
  function Split(s: string): (r: seq<string>)
    ensures |r| >= 1
    ensures forall i :: 0 <= i < |r| ==> '.' !in r[i]
    ensures Join(r) == s
  {
    if s == [] then [""]
    else
      var rest := Split(s[1..]);
      if s[0] == '.' then
        assert ([""] + rest)[1..] == rest;
        [""] + rest
      else
        var r := [[s[0]] + rest[0]] + rest[1..];
        assert r[1..] == rest[1..];
        assert s == [s[0]] + s[1..];
        r
  }

  /** The last segment, which `keys.pop()` removes. */
  function Last(segs: seq<string>): string
    requires |segs| >= 1
  {
    segs[|segs| - 1]
  }

  /** The segments before the last, those the setter walks through: what
      `keys.pop()` leaves, with `Last` the element it returns. */
  function Init(segs: seq<string>): (r: seq<string>)
    requires |segs| >= 1
    ensures |r| == |segs| - 1 && r + [Last(segs)] == segs
  {
    segs[..|segs| - 1]
  }

  /** A dot-free string is a single segment. */
  lemma {:induction false} SplitDotFree(a: string)
    requires '.' !in a
    ensures Split(a) == [a]
  {
    if a != [] {
      assert '.' !in a[1..] by {
        forall i | 0 <= i < |a[1..]| ensures a[1..][i] != '.' { assert a[1..][i] == a[i + 1]; }
      }
      SplitDotFree(a[1..]);
      assert [a[0]] + a[1..] == a;
    }
  }

  /** A leading dot-free segment followed by a dot splits off as the first segment. */
  lemma {:induction false} SplitCons(a: string, b: string)
    requires '.' !in a
    ensures Split(a + "." + b) == [a] + Split(b)
  {
    if a == [] {
      assert a + "." + b == "." + b;
      assert ("." + b)[1..] == b;
    } else {
      assert '.' !in a[1..] by {
        forall i | 0 <= i < |a[1..]| ensures a[1..][i] != '.' { assert a[1..][i] == a[i + 1]; }
      }
      var s := a + "." + b;
      assert s[0] == a[0] && s[1..] == a[1..] + "." + b;
      SplitCons(a[1..], b);
      assert [a[0]] + a[1..] == a;
    }
  }

  /** Splitting the join of dot-free segments gives the segments back. */
  lemma {:induction false} SplitJoin(segs: seq<string>)
    requires |segs| >= 1
    requires forall i :: 0 <= i < |segs| ==> '.' !in segs[i]
    ensures Split(Join(segs)) == segs
  {
    if |segs| == 1 {
      SplitDotFree(segs[0]);
    } else {
      SplitJoin(segs[1..]);
      SplitCons(segs[0], Join(segs[1..]));
      assert [segs[0]] + segs[1..] == segs;
    }
  }

  /** The last segment is empty exactly when the path is empty or ends in a dot. */
  lemma {:induction false} SplitLastEmpty(s: string)
    ensures Last(Split(s)) == "" <==> s == "" || s[|s| - 1] == '.'
  {
    if s != [] {
      SplitLastEmpty(s[1..]);
      var rest := Split(s[1..]);
      if s[0] != '.' && |rest| == 1 {
        // The whole of s is one segment, which is not empty.
        assert Last(Split(s)) == [s[0]] + rest[0];
        assert s[1..] != [] ==> s[1..][|s[1..]| - 1] != '.';
      }
      if |s| > 1 {
        assert s[1..][|s[1..]| - 1] == s[|s| - 1];
      }
    }
  }
}
