/** Order-preserving selection over sequences: the `Array.prototype.filter`
    used by every scraper and pipeline, and the subsequence relation that
    says what it keeps. */
module Seqs {
  import opened Wrappers


  /** `a` is obtained from `b` by deleting elements, keeping their order. */
  ghost predicate IsSubsequence<T>(a: seq<T>, b: seq<T>)
    decreases |b|
  {
    if |a| == 0 then true
    else if |b| == 0 then false
    else if a[0] == b[0] then IsSubsequence(a[1..], b[1..])
    else IsSubsequence(a, b[1..])
  }

  /** The elements of `xs` that satisfy `keep`, in their original order. */
  function Filter<T>(keep: T -> bool, xs: seq<T>): (r: seq<T>)
    ensures |r| <= |xs|
    ensures forall i :: 0 <= i < |r| ==> keep(r[i])
    ensures forall i :: 0 <= i < |r| ==> r[i] in xs
    ensures forall i :: 0 <= i < |xs| && keep(xs[i]) ==> xs[i] in r
  {
    if |xs| == 0 then []
    else if keep(xs[0]) then [xs[0]] + Filter(keep, xs[1..])
    else Filter(keep, xs[1..])
  }

  /** Splitting by a test and by its negation loses and duplicates nothing. */
  lemma {:induction false} FilterPartition<T>(keep: T -> bool, drop: T -> bool, xs: seq<T>)
    requires forall x :: drop(x) == !keep(x)
    ensures |Filter(keep, xs)| + |Filter(drop, xs)| == |xs|
  {
    if |xs| > 0 {
      FilterPartition(keep, drop, xs[1..]);
    }
  }

  /** What `Filter` keeps is a subsequence of its input. */
  lemma {:induction false} FilterIsSubsequence<T>(keep: T -> bool, xs: seq<T>)
    ensures IsSubsequence(Filter(keep, xs), xs)
  {
    if |xs| > 0 {
      FilterIsSubsequence(keep, xs[1..]);
      if !keep(xs[0]) {
        SubsequenceOfTail(Filter(keep, xs), xs);
      }
    }
  }

  /** Dropping the head of the larger sequence keeps a subsequence whenever
      the head was not needed. */
  lemma {:induction false} SubsequenceOfTail<T>(a: seq<T>, b: seq<T>)
    requires |b| > 0 && IsSubsequence(a, b[1..])
    ensures IsSubsequence(a, b)
    decreases |b|, 1
  {
    if |a| > 0 && a[0] == b[0] {
      SubsequenceShrink(a, b[1..]);
    }
  }

  /** A subsequence stays one when its head is removed. */
  lemma {:induction false} SubsequenceShrink<T>(a: seq<T>, b: seq<T>)
    requires |a| > 0 && IsSubsequence(a, b)
    ensures IsSubsequence(a[1..], b)
    decreases |b|, 2
  {
    if |b| > 0 {
      if a[0] == b[0] {
        SubsequenceOfTail(a[1..], b);
      } else {
        SubsequenceShrink(a, b[1..]);
        SubsequenceOfTail(a[1..], b);
      }
    }
  }

  /** Filtering a concatenation filters each part. */
  lemma {:induction false} FilterAppend<T>(keep: T -> bool, xs: seq<T>, ys: seq<T>)
    ensures Filter(keep, xs + ys) == Filter(keep, xs) + Filter(keep, ys)
  {
    if |xs| > 0 {
      assert (xs + ys)[1..] == xs[1..] + ys;
      FilterAppend(keep, xs[1..], ys);
    } else {
      assert xs + ys == ys;
    }
  }

  /** `Filter` keeps every copy of a kept value and no copy of a dropped
      one: its result counts each value as often as the input does, or not
      at all. */
  lemma {:induction false} FilterCount<T>(keep: T -> bool, xs: seq<T>, x: T)
    ensures multiset(Filter(keep, xs))[x] == if keep(x) then multiset(xs)[x] else 0
  {
    if |xs| > 0 {
      FilterCount(keep, xs[1..], x);
      assert xs == [xs[0]] + xs[1..];
      assert multiset(xs) == multiset([xs[0]]) + multiset(xs[1..]);
    }
  }

  /** `FilterCount` for every value at once. */
  lemma FilterCounts<T>(keep: T -> bool, xs: seq<T>)
    ensures forall x :: multiset(Filter(keep, xs))[x] == if keep(x) then multiset(xs)[x] else 0
  {
    forall x ensures multiset(Filter(keep, xs))[x] == if keep(x) then multiset(xs)[x] else 0 {
      FilterCount(keep, xs, x);
    }
  }

  /** `i` is the first position of `xs` whose conversion fails. */
  ghost predicate FirstFailure<A, B, E>(f: A -> Result<B, E>, xs: seq<A>, i: int) {
    0 <= i < |xs| && f(xs[i]).Failure? && forall j :: 0 <= j < i ==> f(xs[j]).Success?
  }

  lemma FirstFailureShift<A, B, E>(f: A -> Result<B, E>, xs: seq<A>, e: E)
    requires |xs| > 0 && f(xs[0]).Success?
    requires exists i :: FirstFailure(f, xs[1..], i) && f(xs[1..][i]).error == e
    ensures exists i :: FirstFailure(f, xs, i) && f(xs[i]).error == e
  {
    var i :| FirstFailure(f, xs[1..], i) && f(xs[1..][i]).error == e;
    assert forall j :: 1 <= j < i + 1 ==> xs[j] == xs[1..][j - 1];
    assert FirstFailure(f, xs, i + 1);
  }

  /** `xs.map(f)` where `f` may throw: the first element whose conversion
      fails aborts the whole map with that element's error. */
  function MapOrFail<A, B, E>(f: A -> Result<B, E>, xs: seq<A>): (r: Result<seq<B>, E>)
    ensures r.Failure? <==> exists i :: 0 <= i < |xs| && f(xs[i]).Failure?
    ensures r.Failure? ==> exists i :: FirstFailure(f, xs, i) && f(xs[i]).error == r.error
    ensures r.Success? ==> |r.value| == |xs|
    ensures r.Success? ==> forall i :: 0 <= i < |xs| ==> f(xs[i]) == Success(r.value[i])
  {
    if |xs| == 0 then Success([])
    else
      var head := f(xs[0]);
      var tail := MapOrFail(f, xs[1..]);
      assert forall i :: 1 <= i < |xs| ==> xs[i] == xs[1..][i - 1];
      if head.Failure? then Failure(head.error)
      else if tail.Failure? then
        FirstFailureShift(f, xs, tail.error);
        Failure(tail.error)
      else
        var rows := [head.value] + tail.value;
        assert forall i :: 1 <= i < |xs| ==> rows[i] == tail.value[i - 1];
        Success(rows)
  }

  /** The defined results of `f` over `xs`, in order: a loop that skips the
      elements `f` rejects and collects the rest. */
  function FilterMap<A, B>(f: A -> Option<B>, xs: seq<A>): (r: seq<B>)
    ensures |r| <= |xs|
    ensures forall i :: 0 <= i < |xs| && f(xs[i]).Some? ==> f(xs[i]).value in r
    ensures forall j :: 0 <= j < |r| ==> exists i :: 0 <= i < |xs| && f(xs[i]) == Some(r[j])
  {
    if |xs| == 0 then []
    else
      var rest := FilterMap(f, xs[1..]);
      assert forall i :: 1 <= i < |xs| ==> xs[i] == xs[1..][i - 1];
      match f(xs[0])
      case Some(y) => [y] + rest
      case None => rest
  }

  /** `FilterMap` works element by element: a concatenation is processed
      part by part. With `FilterMapSingle` this fixes both the order and the
      multiplicity of what is collected. */
  lemma {:induction false} FilterMapAppend<A, B>(f: A -> Option<B>, xs: seq<A>, ys: seq<A>)
    ensures FilterMap(f, xs + ys) == FilterMap(f, xs) + FilterMap(f, ys)
  {
    if |xs| > 0 {
      assert (xs + ys)[1..] == xs[1..] + ys;
      FilterMapAppend(f, xs[1..], ys);
      var rest := FilterMap(f, xs[1..] + ys);
      assert FilterMap(f, xs + ys) == (if f(xs[0]).Some? then [f(xs[0]).value] else []) + rest;
      assert FilterMap(f, xs) == (if f(xs[0]).Some? then [f(xs[0]).value] else []) + FilterMap(f, xs[1..]);
    } else {
      assert xs + ys == ys;
    }
  }

  /** One element contributes its defined result, or nothing. */
  lemma FilterMapSingle<A, B>(f: A -> Option<B>, x: A)
    ensures FilterMap(f, [x]) == if f(x).Some? then [f(x).value] else []
  {
    assert [x][1..] == [];
  }

  /** When `f` is defined on every element, nothing is skipped: the result
      is `f` applied element by element. */
  lemma {:induction false} FilterMapTotal<A, B>(f: A -> Option<B>, xs: seq<A>)
    requires forall i :: 0 <= i < |xs| ==> f(xs[i]).Some?
    ensures |FilterMap(f, xs)| == |xs|
    ensures forall i :: 0 <= i < |xs| ==> FilterMap(f, xs)[i] == f(xs[i]).value
  {
    if |xs| > 0 {
      assert forall i :: 1 <= i < |xs| ==> xs[i] == xs[1..][i - 1];
      FilterMapTotal(f, xs[1..]);
    }
  }

  /** A loop that threads a state through `xs`, one `step` per element. */
  function Fold<S, X>(step: (S, X) -> S, s: S, xs: seq<X>): S
    decreases |xs|
  {
    if |xs| == 0 then s else Fold(step, step(s, xs[0]), xs[1..])
  }

  /** Running the loop over two lists in turn is running it over their
      concatenation. */
  lemma {:induction false} FoldAppend<S, X>(step: (S, X) -> S, s: S, xs: seq<X>, ys: seq<X>)
    ensures Fold(step, s, xs + ys) == Fold(step, Fold(step, s, xs), ys)
    decreases |xs|
  {
    if |xs| > 0 {
      assert (xs + ys)[1..] == xs[1..] + ys;
      FoldAppend(step, step(s, xs[0]), xs[1..], ys);
    } else {
      assert xs + ys == ys;
    }
  }

  /** A property every step keeps holds after the whole loop. */
  lemma {:induction false} FoldInvariant<S, X>(step: (S, X) -> S, inv: S -> bool, s: S, xs: seq<X>)
    requires inv(s)
    requires forall t, x :: inv(t) ==> inv(step(t, x))
    ensures inv(Fold(step, s, xs))
    decreases |xs|
  {
    if |xs| > 0 {
      FoldInvariant(step, inv, step(s, xs[0]), xs[1..]);
    }
  }

    /** An invariant that every step over an element of the list keeps holds
      after the loop. */
  lemma {:induction false} FoldInvariantIn<S, X>(step: (S, X) -> S, inv: S -> bool, s: S, xs: seq<X>)
    requires inv(s)
    requires forall t, x :: x in xs && inv(t) ==> inv(step(t, x))
    ensures inv(Fold(step, s, xs))
    decreases |xs|
  {
    if |xs| > 0 {
      assert xs[0] in xs;
      assert forall x :: x in xs[1..] ==> x in xs;
      FoldInvariantIn(step, inv, step(s, xs[0]), xs[1..]);
    }
  }

/** An element whose step changes nothing can be dropped from the loop,
      wherever it sits. */
  lemma FoldSkip<S, X>(step: (S, X) -> S, s: S, xs: seq<X>, x: X, ys: seq<X>)
    requires step(Fold(step, s, xs), x) == Fold(step, s, xs)
    ensures Fold(step, s, xs + [x] + ys) == Fold(step, s, xs + ys)
  {
    var mid := Fold(step, s, xs);
    FoldAppend(step, s, xs + [x], ys);
    FoldAppend(step, s, xs, [x]);
    FoldAppend(step, s, xs, ys);
    assert Fold(step, mid, [x]) == mid by {
      assert [x][1..] == [];
    }
  }
}
