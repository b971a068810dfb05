/** Small shared vocabulary: an optional value, and integers extended with the two
    infinities that the alpha-beta search uses as its initial bounds. */
module Util {

  datatype Option<+T> = None | Some(value: T)

  /** An integer or one of the float infinities `float("-inf")` / `float("inf")`. */
  datatype Ext = NegInf | Fin(v: int) | PosInf

  predicate Le(x: Ext, y: Ext)
  {
    match (x, y)
    case (NegInf, _) => true
    case (_, PosInf) => true
    case (Fin(a), Fin(b)) => a <= b
    case _ => false
  }

  function Max(x: Ext, y: Ext): (m: Ext)
    ensures Le(x, m) && Le(y, m)
    ensures m == x || m == y
  {
    if Le(x, y) then y else x
  }

  function Min(x: Ext, y: Ext): (m: Ext)
    ensures Le(m, x) && Le(m, y)
    ensures m == x || m == y
  {
    if Le(x, y) then x else y
  }

  /** `Le` is a total order on the extended integers. */
  lemma LeTotal(x: Ext, y: Ext)
    ensures Le(x, y) || Le(y, x)
    ensures Le(x, y) && Le(y, x) ==> x == y
  {
  }

  lemma LeTrans(x: Ext, y: Ext, z: Ext)
    requires Le(x, y) && Le(y, z)
    ensures Le(x, z)
  {
  }

  lemma MaxAssoc(x: Ext, y: Ext, z: Ext)
    ensures Max(x, Max(y, z)) == Max(Max(x, y), z)
  {
  }

  lemma MinAssoc(x: Ext, y: Ext, z: Ext)
    ensures Min(x, Min(y, z)) == Min(Min(x, y), z)
  {
  }

  /** The largest element of a non-empty sequence. */
  function MaxOf(s: seq<int>): (m: int)
    requires |s| > 0
    ensures forall i :: 0 <= i < |s| ==> s[i] <= m
    ensures exists i :: 0 <= i < |s| && s[i] == m
  {
    if |s| == 1 then s[0]
    else
      var m' := MaxOf(s[..|s| - 1]);
      assert forall i :: 0 <= i < |s| - 1 ==> s[..|s| - 1][i] == s[i];
      if s[|s| - 1] > m' then s[|s| - 1] else m'
  }

  /** The smallest element of a non-empty sequence. */
  function MinOf(s: seq<int>): (m: int)
    requires |s| > 0
    ensures forall i :: 0 <= i < |s| ==> m <= s[i]
    ensures exists i :: 0 <= i < |s| && s[i] == m
  {
    if |s| == 1 then s[0]
    else
      var m' := MinOf(s[..|s| - 1]);
      assert forall i :: 0 <= i < |s| - 1 ==> s[..|s| - 1][i] == s[i];
      if s[|s| - 1] < m' then s[|s| - 1] else m'
  }

  predicate NoDup<T(==)>(s: seq<T>)
  {
    forall i, j :: 0 <= i < j < |s| ==> s[i] != s[j]
  }

  /** Two duplicate-free sequences with no common element concatenate without repeats. */
  lemma NoDupConcat<T>(a: seq<T>, b: seq<T>)
    requires NoDup(a) && NoDup(b)
    requires forall i, j :: 0 <= i < |a| && 0 <= j < |b| ==> a[i] != b[j]
    ensures NoDup(a + b)
  {
  }

  /** A prefix one longer is the shorter prefix and the next element. */
  lemma TakeSnoc<T>(xs: seq<T>, n: nat)
    requires 0 < n <= |xs|
    ensures xs[..n] == xs[..n - 1] + [xs[n - 1]]
  {
  }

  /** Whether k is even, counted down one step at a time (kept free of `%`, which the
      solver handles poorly next to recursive definitions). */
  predicate Even(k: nat)
  {
    if k == 0 then true else !Even(k - 1)
  }
}
