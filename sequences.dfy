/** Selecting the elements of a sequence that satisfy a predicate, and their
    positions: what a loop that appends the lines matching a pattern builds. */
module Sequences {

  /** `f` applied to every element, in order. */
  function Map<X, Y>(xs: seq<X>, f: X -> Y): (ys: seq<Y>)
    ensures |ys| == |xs| && forall k :: 0 <= k < |xs| ==> ys[k] == f(xs[k])
  {
    seq(|xs|, k requires 0 <= k < |xs| => f(xs[k]))
  }

  /** The positions of `xs` whose element satisfies `p`, in increasing order. */
  function IndicesWhere<T>(xs: seq<T>, p: T -> bool): (ix: seq<nat>)
    ensures |ix| <= |xs|
    ensures forall k :: 0 <= k < |ix| ==> ix[k] < |xs|
  {
    if |xs| == 0 then []
    else IndicesWhere(xs[..|xs| - 1], p) + (if p(xs[|xs| - 1]) then [|xs| - 1] else [])
  }

  /** The elements of `xs` that satisfy `p`, in their order. */
  function Filter<T>(xs: seq<T>, p: T -> bool): seq<T> {
    if |xs| == 0 then []
    else Filter(xs[..|xs| - 1], p) + (if p(xs[|xs| - 1]) then [xs[|xs| - 1]] else [])
  }

  /** `ix` lists, in increasing order, exactly the positions of `xs` whose element satisfies `p`. */
  predicate ListsIndicesWhere<T>(xs: seq<T>, p: T -> bool, ix: seq<nat>) {
    && (forall k :: 0 <= k < |ix| ==> ix[k] < |xs| && p(xs[ix[k]]))
    && (forall k, l :: 0 <= k < l < |ix| ==> ix[k] < ix[l])
    && (forall i :: 0 <= i < |xs| && p(xs[i]) ==> i in ix)
  }

  /** A position that is listed satisfies `p`, and every position that satisfies `p` is listed. */
  lemma {:induction false} IndicesWhereListed<T>(xs: seq<T>, p: T -> bool)
    ensures ListsIndicesWhere(xs, p, IndicesWhere(xs, p))
    decreases |xs|
  {
    if |xs| > 0 {
      var init := xs[..|xs| - 1];
      IndicesWhereListed(init, p);
      var prev := IndicesWhere(init, p);
      forall k | 0 <= k < |prev| ensures xs[prev[k]] == init[prev[k]] {
      }
      forall i | 0 <= i < |xs| - 1 && p(xs[i]) ensures i in prev {
        assert init[i] == xs[i];
      }
    }
  }

  /** The filtered elements are the elements at the listed positions. */
  lemma {:induction false} FilterSelects<T>(xs: seq<T>, p: T -> bool)
    ensures |Filter(xs, p)| == |IndicesWhere(xs, p)|
    ensures forall k :: 0 <= k < |Filter(xs, p)| ==> Filter(xs, p)[k] == xs[IndicesWhere(xs, p)[k]]
    decreases |xs|
  {
    if |xs| > 0 {
      var init := xs[..|xs| - 1];
      FilterSelects(init, p);
      IndicesWhereListed(init, p);
      var ix := IndicesWhere(init, p);
      forall k | 0 <= k < |ix| ensures xs[ix[k]] == init[ix[k]] {
      }
    }
  }

  /** Filtering never lengthens a sequence and keeps only elements satisfying `p`. */
  lemma FilterBound<T>(xs: seq<T>, p: T -> bool)
    ensures |Filter(xs, p)| <= |xs|
    ensures forall k :: 0 <= k < |Filter(xs, p)| ==> p(Filter(xs, p)[k])
  {
    FilterSelects(xs, p);
    IndicesWhereListed(xs, p);
  }

  /** Filtering a sequence extended by one element. */
  lemma FilterSnoc<T>(xs: seq<T>, x: T, p: T -> bool)
    ensures Filter(xs + [x], p) == Filter(xs, p) + (if p(x) then [x] else [])
  {
    assert (xs + [x])[..|xs|] == xs;
  }

  /** Positions in a sequence extended by one element. */
  lemma IndicesWhereSnoc<T>(xs: seq<T>, x: T, p: T -> bool)
    ensures IndicesWhere(xs + [x], p) == IndicesWhere(xs, p) + (if p(x) then [|xs|] else [])
  {
    assert (xs + [x])[..|xs|] == xs;
  }

  /** Two sequences whose elements satisfy their predicates at the same
      positions have the same listed positions. */
  lemma {:induction false} IndicesWhereSame<T, U>(xs: seq<T>, p: T -> bool, ys: seq<U>, q: U -> bool)
    requires |xs| == |ys|
    requires forall i :: 0 <= i < |xs| ==> (p(xs[i]) <==> q(ys[i]))
    ensures IndicesWhere(xs, p) == IndicesWhere(ys, q)
    decreases |xs|
  {
    if |xs| > 0 {
      var n := |xs| - 1;
      forall i | 0 <= i < n ensures p(xs[..n][i]) <==> q(ys[..n][i]) {
        assert xs[..n][i] == xs[i] && ys[..n][i] == ys[i];
      }
      IndicesWhereSame(xs[..n], p, ys[..n], q);
    }
  }
}
