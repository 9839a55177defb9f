/** Failure-compatible wrappers used throughout the model: an optional value
    (the source's nullable references and `bool?`) and an error-or-value
    result (the source's thrown exceptions). */
module Wrappers {

  /** A value that may be absent: `None` stands for a C# `null`. */
  datatype Option<+T> = None | Some(value: T) {

    /** The wrapped value, or `default` when absent (C#'s `??`). */
    function GetOr(default: T): T {
      match this
      case Some(v) => v
      case None => default
    }
  }

  /** The outcome of a computation that may throw: `Failure` carries the
      exception's message. */
  datatype Result<+T, +E> = Success(value: T) | Failure(error: E) {

    predicate IsFailure() {
      Failure?
    }

    function PropagateFailure<U>(): Result<U, E>
      requires Failure?
    {
      Failure(error)
    }

    function Extract(): T
      requires Success?
    {
      value
    }
  }

  /** `Select(f).ToArray()` where `f` may throw: the first exception aborts. */
  function MapOrFail<T, U>(xs: seq<T>, f: T -> Result<U, string>): (r: Result<seq<U>, string>)
    ensures r.Success? <==> forall i :: 0 <= i < |xs| ==> f(xs[i]).Success?
    ensures r.Success? ==> |r.value| == |xs|
    ensures r.Success? ==> forall i :: 0 <= i < |xs| ==> f(xs[i]) == Success(r.value[i])
  {
    if |xs| == 0 then Success([])
    else
      var first :- f(xs[0]);
      var rest :- MapOrFail(xs[1..], f);
      assert forall i :: 1 <= i < |xs| ==> xs[i] == xs[1..][i - 1];
      Success([first] + rest)
  }

  /** The message of a `NullReferenceException`: a null was dereferenced. */
  const NullReference := "Object reference not set to an instance of an object."

  /** The message of the `ArgumentNullException` a LINQ operator throws on a null sequence. */
  const NullSource := "Value cannot be null. (Parameter 'source')"
}
