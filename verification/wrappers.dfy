/** Failure-carrying datatypes and small helpers shared by every model in this project. */
module Wrappers {

  /** A value that may be absent: the model of a Java reference that may be null. */
  datatype Option<+T> = None | Some(value: T)

  /** The outcome of an operation that the Java code aborts with an exception. */
  datatype Result<+R> = Success(value: R) | Failure(error: Error)

  /** The exceptions of the modelled code that are observable to callers. */
  datatype Error =
    | IndexOutOfBounds  // an array or list index outside [0, size)
    | IllegalArgument   // a negative initial capacity of a list
    | NegativeArraySize // a negative size given to `new int[size]`

  /** No element of `s` occurs twice. */
  predicate Distinct<T(==)>(s: seq<T>) {
    forall i, j | 0 <= i < j < |s| :: s[i] != s[j]
  }

  /** Java's `Integer.compare(x, y)`: -1, 0 or 1. */
  function IntCompare(x: int, y: int): (r: int)
    ensures r == 0 <==> x == y
    ensures r < 0 <==> x < y
    ensures -1 <= r <= 1
  {
    if x < y then -1 else if x == y then 0 else 1
  }
}
