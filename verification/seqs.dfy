/** A sequence combinator that the configuration loop of the middleware is
    an instance of. */
module Seqs {
  import opened Wrappers

  /** `k` is the first position of `xs` on which `f` fails. */
  predicate FirstFailure<T, R, E>(f: T -> Result<R, E>, xs: seq<T>, k: int) {
    && 0 <= k < |xs|
    && f(xs[k]).Failure?
    && forall j :: 0 <= j < k ==> f(xs[j]).Success?
  }

  /** Applies `f` to the elements of `xs` in order and collects the results,
      stopping at the first failure, which is returned. */
  function MapWithResult<T, R(==), E(==)>(f: T -> Result<R, E>, xs: seq<T>): (r: Result<seq<R>, E>)
    ensures r.Success? <==> forall i :: 0 <= i < |xs| ==> f(xs[i]).Success?
    ensures r.Success? ==> |r.value| == |xs|
    ensures r.Success? ==> forall i :: 0 <= i < |xs| ==> f(xs[i]) == Success(r.value[i])
    ensures r.Failure? ==> exists k :: FirstFailure(f, xs, k) && f(xs[k]) == Failure(r.error)
  {
    if xs == [] then Success([])
    else
      match f(xs[0])
      case Failure(e) =>
        assert FirstFailure(f, xs, 0);
        Failure(e)
      case Success(y) =>
        match MapWithResult(f, xs[1..])
        case Failure(e) =>
          var k :| FirstFailure(f, xs[1..], k) && f(xs[1..][k]) == Failure(e);
          assert FirstFailure(f, xs, k + 1);
          Failure(e)
        case Success(ys) =>
          assert forall i :: 1 <= i < |xs| ==> xs[i] == xs[1..][i - 1];
          Success([y] + ys)
  }
}
