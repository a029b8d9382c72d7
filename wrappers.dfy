/** Option and Result, the failure-compatible wrappers the rest of the model uses
    for C# `null` and for thrown exceptions. */
module Wrappers {
  import opened Sequences


  /** A value that may be absent: C#'s `null` for a reference or a nullable struct. */
  datatype Option<+T> = None | Some(value: T)

  /** Either a value or the exception that was thrown instead. */
  datatype Result<+R, +E> = Success(value: R) | Failure(error: E) {

    predicate IsFailure() {
      Failure?
    }

    function PropagateFailure<U>(): Result<U, E>
      requires Failure?
    {
      Failure(error)
    }

    function Extract(): R
      requires Success?
    {
      value
    }
  }

  /** The values of `results[..n]` when none of them is a failure, otherwise
      the first failure among them: what a loop that stops at the first
      exception returns. */
  function CollectUpTo<T, E>(results: seq<Result<T, E>>, n: nat): Result<seq<T>, E>
    requires n <= |results|
  {
    if n == 0 then Success([])
    else
      var values :- CollectUpTo(results, n - 1);
      var v :- results[n - 1];
      Success(values + [v])
  }

  /** Collecting succeeds exactly when every result does, and then gives their values in order. */
  lemma {:induction false} CollectSucceeds<T, E>(results: seq<Result<T, E>>, n: nat)
    requires n <= |results|
    ensures CollectUpTo(results, n).Success? <==> forall k :: 0 <= k < n ==> results[k].Success?
    ensures CollectUpTo(results, n).Success? ==>
      |CollectUpTo(results, n).value| == n &&
      forall k :: 0 <= k < n ==> results[k] == Success(CollectUpTo(results, n).value[k])
    decreases n
  {
    if n > 0 {
      CollectSucceeds(results, n - 1);
    }
  }

  /** The first failure is the one reported. */
  lemma {:induction false} CollectFirstFailure<T, E>(results: seq<Result<T, E>>, n: nat, k: nat)
    requires k < n <= |results| && results[k].Failure?
    requires forall j :: 0 <= j < k ==> results[j].Success?
    ensures CollectUpTo(results, n) == Failure(results[k].error)
    decreases n
  {
    if n - 1 > k {
      CollectFirstFailure(results, n - 1, k);
    } else {
      CollectSucceeds(results, k);
    }
  }

  /** Once a failure has been met, collecting further results changes nothing. */
  lemma {:induction false} CollectFailurePersists<T, E>(results: seq<Result<T, E>>, m: nat, n: nat)
    requires m <= n <= |results| && CollectUpTo(results, m).Failure?
    ensures CollectUpTo(results, n) == CollectUpTo(results, m)
    decreases n
  {
    if n > m {
      CollectFailurePersists(results, m, n - 1);
    }
  }

  /** One more successful result extends the collected values. */
  lemma CollectStep<T, E>(results: seq<Result<T, E>>, n: nat, values: seq<T>)
    requires n < |results| && CollectUpTo(results, n) == Success(values) && results[n].Success?
    ensures CollectUpTo(results, n + 1) == Success(values + [results[n].value])
  {
  }

  /** A failing result after successful ones is what the longer prefix reports. */
  lemma CollectStepFailure<T, E>(results: seq<Result<T, E>>, n: nat, values: seq<T>)
    requires n < |results| && CollectUpTo(results, n) == Success(values) && results[n].Failure?
    ensures CollectUpTo(results, n + 1) == Failure(results[n].error)
  {
  }

  /** A loop that applies `f` to each element in turn and stops at the first
      exception: the values in order, or that exception. */
  method CollectEach<X, T, E>(xs: seq<X>, f: X -> Result<T, E>) returns (r: Result<seq<T>, E>)
    ensures r == CollectUpTo(Map(xs, f), |xs|)
  {
    ghost var results := Map(xs, f);
    var values: seq<T> := [];
    for k := 0 to |xs|
      invariant CollectUpTo(results, k) == Success(values)
    {
      var result := f(xs[k]);
      if result.Failure? {
        CollectStepFailure(results, k, values);
        CollectFailurePersists(results, k + 1, |xs|);
        return Failure(result.error);
      }
      CollectStep(results, k, values);
      values := values + [result.value];
    }
    return Success(values);
  }
}
