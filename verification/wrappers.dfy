/** Failure-carrying values: the model's stand-in for Python's `None` results
    and for the exceptions the scraper lets propagate. Both types support `:-`. */
module Wrappers {

  /** A value that may be missing, as an optional bs4 `.string` or a search
      that found nothing. */
  datatype Option<+T> = None | Some(value: T) {

    predicate IsFailure() {
      None?
    }

    function PropagateFailure<U>(): Option<U>
      requires None?
    {
      None
    }

    function Extract(): T
      requires Some?
    {
      value
    }
  }

  /** Either the computed value or the error that aborts the run. */
  datatype Result<+T, +E> = Ok(value: T) | Err(error: E) {

    predicate IsFailure() {
      Err?
    }

    function PropagateFailure<U>(): Result<U, E>
      requires Err?
    {
      Err(error)
    }

    function Extract(): T
      requires Ok?
    {
      value
    }
  }

  /** Applies `f` to each element in order and collects the values, stopping
      at the first failure, as a Python loop stops at the first exception. */
  function MapResults<A, B, E>(xs: seq<A>, f: A --> Result<B, E>): (r: Result<seq<B>, E>)
    requires forall t :: 0 <= t < |xs| ==> f.requires(xs[t])
    ensures r.Ok? <==> forall t :: 0 <= t < |xs| ==> f(xs[t]).Ok?
    ensures r.Ok? ==> |r.value| == |xs| && forall t :: 0 <= t < |xs| ==> f(xs[t]) == Ok(r.value[t])
    ensures r.Err? ==> exists t :: && 0 <= t < |xs|
                                   && f(xs[t]) == Err(r.error)
                                   && forall u :: 0 <= u < t ==> f(xs[u]).Ok?
  {
    if xs == [] then Ok([])
    else
      match f(xs[0])
      case Err(e) => Err(e)
      case Ok(v) =>
        var rest := MapResults(xs[1..], f);
        assert forall t :: 1 <= t < |xs| ==> xs[1..][t - 1] == xs[t];
        match rest
        case Err(e) =>
          assert exists t :: && 1 <= t < |xs|
                             && f(xs[t]) == Err(e)
                             && forall u :: 1 <= u < t ==> f(xs[u]).Ok?;
          Err(e)
        case Ok(vs) => Ok([v] + vs)
  }
}
