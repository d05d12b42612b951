/** Finding a pattern inside a sequence; the receiver-side parser splits on the first match. */
module Search {
  import opened Wrappers

  predicate StartsWith<T(==)>(s: seq<T>, p: seq<T>) {
    |p| <= |s| && s[..|p|] == p
  }

  /** `p` occurs in `s` starting at index `i`. */
  predicate OccursAt<T(==)>(s: seq<T>, p: seq<T>, i: int) {
    0 <= i <= |s| && StartsWith(s[i..], p)
  }

  /** `p` occurs somewhere in `s`. */
  ghost predicate Occurs<T>(p: seq<T>, s: seq<T>) {
    exists i :: OccursAt(s, p, i)
  }

  /** The first index at or after `from` where `p` occurs in `s`. */
  function FindFrom<T(==)>(s: seq<T>, p: seq<T>, from: nat): (r: Option<nat>)
    requires from <= |s|
    ensures r.Some? ==> from <= r.value && OccursAt(s, p, r.value)
    ensures r.Some? ==> forall j :: from <= j < r.value ==> !OccursAt(s, p, j)
    ensures r.None? ==> forall j :: from <= j ==> !OccursAt(s, p, j)
    decreases |s| - from
  {
    if StartsWith(s[from..], p) then Some(from)
    else if from == |s| then None
    else FindFrom(s, p, from + 1)
  }

  /** The first index where `p` occurs in `s`. */
  function Find<T(==)>(s: seq<T>, p: seq<T>): (r: Option<nat>)
    ensures r.Some? <==> Occurs(p, s)
    ensures r.Some? ==> OccursAt(s, p, r.value) && forall j :: 0 <= j < r.value ==> !OccursAt(s, p, j)
  {
    FindFrom(s, p, 0)
  }

  /** A match at `i` with none before it is what Find returns. */
  lemma FindFirst<T>(s: seq<T>, p: seq<T>, i: nat)
    requires OccursAt(s, p, i)
    requires forall j :: 0 <= j < i ==> !OccursAt(s, p, j)
    ensures Find(s, p) == Some(i)
  {
  }

  /**
   When the first element of `p` does not occur in `x`, the first match
   of `p` in `x + p + y` is the one right after `x`.
   */
  lemma FindAfterHeadFree<T>(x: seq<T>, p: seq<T>, y: seq<T>)
    requires |p| > 0
    requires forall i | 0 <= i < |x| :: x[i] != p[0]
    ensures Find(x + p + y, p) == Some(|x|)
  {
    var s := x + p + y;
    assert s[|x|..][..|p|] == p;
    forall j | 0 <= j < |x|
      ensures !OccursAt(s, p, j)
    {
      assert s[j..][0] == x[j];
    }
    FindFirst(s, p, |x|);
  }

  /**
   When the first element of `p` occurs nowhere else in `p` and `p` does
   not occur in `x`, the first match of `p` in `x + p + y` is the one
   right after `x`: a match that starts in `x` and runs into `p` would put
   `p[0]` at a later position of `p`.
   */
  lemma FindAfterUnbordered<T>(x: seq<T>, p: seq<T>, y: seq<T>)
    requires |p| > 0
    requires forall k | 1 <= k < |p| :: p[k] != p[0]
    requires !Occurs(p, x)
    ensures Find(x + p + y, p) == Some(|x|)
  {
    var s := x + p + y;
    assert s[|x|..][..|p|] == p;
    forall j | 0 <= j < |x|
      ensures !OccursAt(s, p, j)
    {
      if j + |p| <= |x| {
        assert x[j..][..|p|] == s[j..][..|p|];
        assert !OccursAt(x, p, j);
      } else {
        assert s[j..][|x| - j] == p[0] != p[|x| - j];
      }
    }
    FindFirst(s, p, |x|);
  }

  /** `t` is a suffix of `s`. */
  predicate EndsWith<T(==)>(s: seq<T>, t: seq<T>) {
    |t| <= |s| && s[|s| - |t|..] == t
  }

  lemma StartsWithConcat<T>(a: seq<T>, b: seq<T>)
    ensures StartsWith(a + b, a)
  {
    assert (a + b)[..|a|] == a;
  }

  lemma StartsWithExtend<T>(s: seq<T>, p: seq<T>, y: seq<T>)
    requires StartsWith(s, p)
    ensures StartsWith(s + y, p)
  {
    assert (s + y)[..|p|] == s[..|p|];
  }

  lemma EndsWithConcat<T>(a: seq<T>, b: seq<T>)
    ensures EndsWith(a + b, b)
  {
    assert (a + b)[|a|..] == b;
  }

  lemma EndsWithExtend<T>(s: seq<T>, t: seq<T>, y: seq<T>)
    requires EndsWith(s, t)
    ensures EndsWith(s + y, t + y)
  {
    assert (s + y)[|s| - |t|..] == s[|s| - |t|..] + y;
  }

  lemma EndsWithPrepend<T>(w: seq<T>, s: seq<T>, t: seq<T>)
    requires EndsWith(s, t)
    ensures EndsWith(w + s, t)
  {
    assert (w + s)[|w| + |s| - |t|..] == s[|s| - |t|..];
  }

  lemma StartsWithTail<T>(s: seq<T>, p: seq<T>)
    requires StartsWith(s, p) && |p| > 0
    ensures s[0] == p[0] && StartsWith(s[1..], p[1..])
  {
    assert s[1..][..|p| - 1] == s[..|p|][1..];
  }

  lemma StartsWithCons<T>(s: seq<T>, p: seq<T>)
    requires |s| > 0 && |p| > 0 && s[0] == p[0] && StartsWith(s[1..], p[1..])
    ensures StartsWith(s, p)
  {
    assert s[..|p|] == [s[0]] + s[1..][..|p| - 1];
    assert p == [p[0]] + p[1..];
  }
}
