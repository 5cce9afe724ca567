/**
 Sequence helpers shared by the roster scans and the sync planner:
 counting, order-preserving filtering, and pandas' `idxmax` (position of
 the first maximum).
 */
module Seqs {

  datatype Option<+T> = None | Some(value: T)

  /** Number of elements of `xs` satisfying `p`. */
  function Count<T>(xs: seq<T>, p: T -> bool): (n: nat)
    ensures n <= |xs|
  {
    if xs == [] then 0 else Count(xs[..|xs| - 1], p) + (if p(xs[|xs| - 1]) then 1 else 0)
  }

  lemma {:induction false} CountAppend<T>(a: seq<T>, b: seq<T>, p: T -> bool)
    ensures Count(a + b, p) == Count(a, p) + Count(b, p)
    decreases |b|
  {
    if b == [] {
      assert a + b == a;
    } else {
      assert (a + b)[..|a + b| - 1] == a + b[..|b| - 1];
      CountAppend(a, b[..|b| - 1], p);
    }
  }

  /** The count of a prefix never exceeds the count of the whole sequence. */
  lemma CountPrefix<T>(xs: seq<T>, k: nat, p: T -> bool)
    requires k <= |xs|
    ensures Count(xs[..k], p) <= Count(xs, p)
  {
    assert xs == xs[..k] + xs[k..];
    CountAppend(xs[..k], xs[k..], p);
  }

  /** Counting one more element of a prefix. */
  lemma CountStep<T>(xs: seq<T>, k: nat, p: T -> bool)
    requires k < |xs|
    ensures Count(xs[..k + 1], p) == Count(xs[..k], p) + (if p(xs[k]) then 1 else 0)
  {
    assert xs[..k + 1][..k] == xs[..k];
  }

  /** A sequence of length one is the singleton of its element. */
  lemma Singleton<T>(r: seq<T>, x: T)
    requires |r| == 1 && r[0] == x
    ensures r == [x]
  {
  }

  /** Elements of `xs` satisfying `p`, in their original order. */
  function Filter<T>(xs: seq<T>, p: T -> bool): (r: seq<T>)
    ensures |r| == Count(xs, p)
    ensures forall i :: 0 <= i < |r| ==> r[i] in xs && p(r[i])
    ensures forall i :: 0 <= i < |xs| && p(xs[i]) ==> xs[i] in r
  {
    if xs == [] then []
    else
      var r := Filter(xs[..|xs| - 1], p);
      if p(xs[|xs| - 1]) then r + [xs[|xs| - 1]] else r
  }

  lemma {:induction false} FilterAppend<T>(a: seq<T>, b: seq<T>, p: T -> bool)
    ensures Filter(a + b, p) == Filter(a, p) + Filter(b, p)
    decreases |b|
  {
    if b == [] {
      assert a + b == a;
    } else {
      assert (a + b)[..|a + b| - 1] == a + b[..|b| - 1];
      FilterAppend(a, b[..|b| - 1], p);
    }
  }

  /** Two tests that agree on every element keep the same elements. */
  lemma {:induction false} FilterAgrees<T>(xs: seq<T>, p: T -> bool, q: T -> bool)
    requires forall i :: 0 <= i < |xs| ==> p(xs[i]) == q(xs[i])
    ensures Filter(xs, p) == Filter(xs, q)
  {
    if xs != [] {
      FilterAgrees(xs[..|xs| - 1], p, q);
    }
  }

  /** `p` keeps every element: filtering changes nothing. */
  lemma {:induction false} FilterAll<T>(xs: seq<T>, p: T -> bool)
    requires forall i :: 0 <= i < |xs| ==> p(xs[i])
    ensures Filter(xs, p) == xs
  {
    if xs != [] {
      FilterAll(xs[..|xs| - 1], p);
    }
  }

  /** `p` rejects every element: the filter is empty. */
  lemma {:induction false} FilterNone<T>(xs: seq<T>, p: T -> bool)
    requires forall i :: 0 <= i < |xs| ==> !p(xs[i])
    ensures Filter(xs, p) == []
  {
    if xs != [] {
      FilterNone(xs[..|xs| - 1], p);
    }
  }

  /**
   pandas `Series.idxmax()` over a positional index: the position of the
   first maximal element; `None` where pandas raises on an empty series.
   */
  function FirstArgMax(xs: seq<int>): (r: Option<nat>)
    ensures r.None? <==> xs == []
    ensures r.Some? ==> r.value < |xs|
    ensures r.Some? ==> forall i :: 0 <= i < |xs| ==> xs[i] <= xs[r.value]
    ensures r.Some? ==> forall i :: 0 <= i < r.value ==> xs[i] < xs[r.value]
  {
    if xs == [] then None
    else
      match FirstArgMax(xs[..|xs| - 1])
      case None => Some(0)
      case Some(b) => if xs[|xs| - 1] > xs[b] then Some(|xs| - 1) else Some(b)
  }

  /** The first maximum is unique: any index with the two properties is it. */
  lemma FirstArgMaxUnique(xs: seq<int>, k: nat)
    requires k < |xs|
    requires forall i :: 0 <= i < |xs| ==> xs[i] <= xs[k]
    requires forall i :: 0 <= i < k ==> xs[i] < xs[k]
    ensures FirstArgMax(xs) == Some(k)
  {
  }
}
