/** Small value types shared by the modules of the model. */
module Base {

  datatype Option<T> = None | Some(value: T)

  /** The outcome of an operation that returns a value or raises `error`. */
  datatype Result<T, E> = Success(value: T) | Failure(error: E)
  {
    predicate IsFailure() { Failure? }
    function PropagateFailure<U>(): Result<U, E> requires Failure? { Failure(error) }
    function Extract(): T requires Success? { value }
  }

  /** The outcome of an operation that returns nothing or raises `error`. */
  datatype Outcome<E> = Pass | Fail(error: E)
  {
    predicate IsFailure() { Fail? }
    function PropagateFailure(): Outcome<E> requires Fail? { this }
  }

  /** The present elements of a sequence of optional values, in order. */
  function Present<T(!new)>(xs: seq<Option<T>>): (r: seq<T>)
    ensures |r| <= |xs|
    ensures forall x :: x in r ==> Some(x) in xs
  {
    if xs == [] then []
    else (if xs[0].Some? then [xs[0].value] else []) + Present(xs[1..])
  }

  function Opt<T>(o: Option<T>): seq<T>
  {
    if o.Some? then [o.value] else []
  }

  /** Every element of `xs` is an index below `n`. */
  predicate Below(xs: seq<nat>, n: nat)
  {
    forall i :: 0 <= i < |xs| ==> xs[i] < n
  }

  predicate NoDup<T(==)>(xs: seq<T>)
  {
    forall i, j :: 0 <= i < j < |xs| ==> xs[i] != xs[j]
  }
}
