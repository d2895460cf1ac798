/** Option and Result values, used wherever the source returns None or raises. */
module Wrappers {
  datatype Option<T> = None | Some(value: T)

  /** The error side of a Result names the reason the source raises or panics. */
  datatype Result<T> = Ok(value: T) | Err(error: string)
  {
    predicate IsOk() { this.Ok? }
  }

  /** The outcome of one run of a property test (`quickcheck::TestResult`). */
  datatype TestResult = Discard | Pass | Fail
}
