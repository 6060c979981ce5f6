/** The small folds the read side is built from: a left-to-right sum,
    JavaScript's `Math.round` of an average, and the "first extreme" that both
    a `reduce` with a strict comparison and the head of a stable sort pick. */
module Aggregates {
  import opened Wrappers

  /** `xs.reduce((sum, x) => sum + x, 0)`. */
  function Sum(xs: seq<int>): int {
    if |xs| == 0 then 0 else Sum(xs[..|xs| - 1]) + xs[|xs| - 1]
  }

  lemma {:induction false} SumAppend(xs: seq<int>, ys: seq<int>)
    ensures Sum(xs + ys) == Sum(xs) + Sum(ys)
    decreases |ys|
  {
    if |ys| == 0 {
      assert xs + ys == xs;
    } else {
      assert (xs + ys)[..|xs + ys| - 1] == xs + ys[..|ys| - 1];
      SumAppend(xs, ys[..|ys| - 1]);
    }
  }

  /** Every term lies in `[lo, hi]`, so the sum lies in `[n * lo, n * hi]`. */
  lemma {:induction false} SumBounds(xs: seq<int>, lo: int, hi: int)
    requires forall i :: 0 <= i < |xs| ==> lo <= xs[i] <= hi
    ensures |xs| * lo <= Sum(xs) <= |xs| * hi
  {
    if |xs| > 0 {
      SumBounds(xs[..|xs| - 1], lo, hi);
      assert (|xs| - 1) * lo + lo == |xs| * lo;
      assert (|xs| - 1) * hi + hi == |xs| * hi;
    }
  }

  /** `Math.round(total / n)` for a count `n > 0`: the integer nearest the
      exact quotient, halves rounding up. */
  function RoundDiv(total: int, n: int): (r: int)
    requires n > 0
    ensures n * (2 * r - 1) <= 2 * total < n * (2 * r + 1)
  {
    var q := (2 * total + n) / (2 * n);
    assert 2 * n * q <= 2 * total + n < 2 * n * q + 2 * n;
    q
  }

  /** Only one integer is within a half of the quotient. */
  lemma RoundDivUnique(total: int, n: int, r: int)
    requires n > 0
    requires n * (2 * r - 1) <= 2 * total < n * (2 * r + 1)
    ensures RoundDiv(total, n) == r
  {
    var q := RoundDiv(total, n);
    if q < r {
      MulMonotone(n, 2 * q + 1, 2 * r - 1);
    } else if q > r {
      MulMonotone(n, 2 * r + 1, 2 * q - 1);
    }
  }

  lemma MulMonotone(n: int, a: int, b: int)
    requires n >= 0 && a <= b
    ensures n * a <= n * b
  {
    assert n * b - n * a == n * (b - a);
  }

  /** The rounded average of terms in `[lo, hi]` is again in `[lo, hi]`. */
  lemma RoundedAverageBounds(xs: seq<int>, lo: int, hi: int)
    requires |xs| > 0
    requires forall i :: 0 <= i < |xs| ==> lo <= xs[i] <= hi
    ensures lo <= RoundDiv(Sum(xs), |xs|) <= hi
  {
    SumBounds(xs, lo, hi);
    RoundedWithin(Sum(xs), |xs|, lo, hi, RoundDiv(Sum(xs), |xs|));
  }

  lemma RoundedWithin(total: int, n: int, lo: int, hi: int, r: int)
    requires n > 0 && n * lo <= total <= n * hi
    requires n * (2 * r - 1) <= 2 * total < n * (2 * r + 1)
    ensures lo <= r <= hi
  {
    assert n * (2 * lo) == 2 * (n * lo);
    assert n * (2 * hi) == 2 * (n * hi);
    MulCancel(n, 2 * lo, 2 * r + 1);
    MulCancel(n, 2 * r - 1, 2 * hi + 1);
  }

  lemma MulCancel(n: int, a: int, b: int)
    requires n > 0 && n * a < n * b
    ensures a < b
  {
    if a >= b {
      MulMonotone(n, b, a);
    }
  }

  /** `i` holds a maximal key among the eligible elements, and no eligible
      element before it has that key. */
  ghost predicate IsFirstMax<T>(xs: seq<T>, ok: T -> bool, key: T -> int, i: int) {
    0 <= i < |xs| && ok(xs[i]) &&
    (forall j :: 0 <= j < |xs| && ok(xs[j]) ==> key(xs[j]) <= key(xs[i])) &&
    (forall j :: 0 <= j < i && ok(xs[j]) ==> key(xs[j]) < key(xs[i]))
  }

  /** The eligible elements of `xs` reduced left to right, keeping the
      current best unless a later key is strictly greater. */
  function FirstMaxBy<T>(xs: seq<T>, ok: T -> bool, key: T -> int): (r: Option<nat>)
    ensures r.None? <==> forall j :: 0 <= j < |xs| ==> !ok(xs[j])
    ensures r.Some? ==> IsFirstMax(xs, ok, key, r.value)
  {
    if |xs| == 0 then None
    else
      var n := |xs| - 1;
      var best := FirstMaxBy(xs[..n], ok, key);
      assert forall j :: 0 <= j < n ==> xs[..n][j] == xs[j];
      if !ok(xs[n]) then best
      else if best.None? || key(xs[n]) > key(xs[best.value]) then Some(n)
      else best
  }

  /** The first-maximum condition singles out one index: any procedure that
      meets it (a `reduce` with `>`, the head of a stable descending sort)
      picks the same element. */
  lemma FirstMaxUnique<T>(xs: seq<T>, ok: T -> bool, key: T -> int, i: int, k: int)
    requires IsFirstMax(xs, ok, key, i) && IsFirstMax(xs, ok, key, k)
    ensures i == k
  {
  }

  /** `i` holds a minimal key among the eligible elements, and no eligible
      element before it has that key. */
  ghost predicate IsFirstMin<T>(xs: seq<T>, ok: T -> bool, key: T -> int, i: int) {
    0 <= i < |xs| && ok(xs[i]) &&
    (forall j :: 0 <= j < |xs| && ok(xs[j]) ==> key(xs[i]) <= key(xs[j])) &&
    (forall j :: 0 <= j < i && ok(xs[j]) ==> key(xs[i]) < key(xs[j]))
  }

  /** The eligible elements of `xs` reduced left to right, keeping the
      current best unless a later key is strictly smaller. */
  function FirstMinBy<T>(xs: seq<T>, ok: T -> bool, key: T -> int): (r: Option<nat>)
    ensures r.None? <==> forall j :: 0 <= j < |xs| ==> !ok(xs[j])
    ensures r.Some? ==> IsFirstMin(xs, ok, key, r.value)
  {
    if |xs| == 0 then None
    else
      var n := |xs| - 1;
      var best := FirstMinBy(xs[..n], ok, key);
      assert forall j :: 0 <= j < n ==> xs[..n][j] == xs[j];
      if !ok(xs[n]) then best
      else if best.None? || key(xs[n]) < key(xs[best.value]) then Some(n)
      else best
  }
}
