/** Failure-compatible result types used for the operations that throw in
    the Java library. */
module Wrappers {

  /** Some value or nothing (a Java `null`). */
  datatype Option<+T> = None | Some(value: T)

  /** The outcome of an operation that may throw: the value it returns or the
      message of the exception it raises. */
  datatype Result<+T> = Ok(value: T) | Err(msg: string) {

    predicate IsFailure() {
      Err?
    }

    function PropagateFailure<U>(): Result<U>
      requires Err?
    {
      Err(msg)
    }

    function Extract(): T
      requires Ok?
    {
      value
    }
  }
}
