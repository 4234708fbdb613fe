/** Searches and filters over sequences, stated once for any test so that the
    line patterns they are used with stay out of their proofs. */
module Searching {
  import opened RubyText

  /** The first index from `i` on whose element passes `p`: Ruby's
      `find_index` over `xs[i..]`, shifted by `i`. */
  function FirstFrom<T>(xs: seq<T>, p: T -> bool, i: nat): (r: Option<nat>)
    requires i <= |xs|
    ensures r.Some? ==> i <= r.value < |xs| && p(xs[r.value])
    ensures r.Some? ==> forall j :: i <= j < r.value ==> !p(xs[j])
    ensures r.None? ==> forall j :: i <= j < |xs| ==> !p(xs[j])
    decreases |xs| - i
  {
    if i == |xs| then None
    else if p(xs[i]) then Some(i)
    else FirstFrom(xs, p, i + 1)
  }

  /** The last index below `n` whose element passes `p`. */
  function LastBefore<T>(xs: seq<T>, p: T -> bool, n: nat): (r: Option<nat>)
    requires n <= |xs|
    ensures r.Some? ==> r.value < n && p(xs[r.value])
    ensures r.Some? ==> forall j :: r.value < j < n ==> !p(xs[j])
    ensures r.None? ==> forall j :: 0 <= j < n ==> !p(xs[j])
  {
    if n == 0 then None
    else if p(xs[n - 1]) then Some(n - 1)
    else LastBefore(xs, p, n - 1)
  }

  /** The elements of `xs` that pass `p`, in order. */
  function Filter<T>(xs: seq<T>, p: T -> bool): (r: seq<T>)
    ensures |r| <= |xs|
    ensures forall j :: 0 <= j < |r| ==> p(r[j]) && r[j] in xs
  {
    if xs == [] then []
    else (if p(xs[0]) then [xs[0]] else []) + Filter(xs[1..], p)
  }

  /** Any index with the property is at or after the first one. */
  lemma FirstFromIsFirst<T>(xs: seq<T>, p: T -> bool, i: nat, k: nat)
    requires i <= k < |xs| && p(xs[k])
    requires forall j :: i <= j < k ==> !p(xs[j])
    ensures FirstFrom(xs, p, i) == Some(k)
  {
  }

  /** Any index below `n` with the property, and none after it, is the last one. */
  lemma LastBeforeIsLast<T>(xs: seq<T>, p: T -> bool, n: nat, k: nat)
    requires k < n <= |xs| && p(xs[k])
    requires forall j :: k < j < n ==> !p(xs[j])
    ensures LastBefore(xs, p, n) == Some(k)
  {
  }

  /** Filtering distributes over concatenation: what is kept keeps its order. */
  lemma {:induction false} FilterAppend<T>(a: seq<T>, b: seq<T>, p: T -> bool)
    ensures Filter(a + b, p) == Filter(a, p) + Filter(b, p)
  {
    if a == [] {
      assert a + b == b;
    } else {
      assert (a + b)[1..] == a[1..] + b;
      FilterAppend(a[1..], b, p);
    }
  }

  /** Filtering keeps exactly the elements that pass. */
  lemma {:induction false} FilterMembers<T>(xs: seq<T>, p: T -> bool, x: T)
    ensures x in Filter(xs, p) <==> x in xs && p(x)
  {
    if xs != [] {
      FilterMembers(xs[1..], p, x);
      assert xs == [xs[0]] + xs[1..];
    }
  }

  /** Nothing passes, so nothing is kept. */
  lemma {:induction false} FilterNone<T>(xs: seq<T>, p: T -> bool)
    requires forall j :: 0 <= j < |xs| ==> !p(xs[j])
    ensures Filter(xs, p) == []
  {
    if xs != [] {
      FilterNone(xs[1..], p);
    }
  }
}
