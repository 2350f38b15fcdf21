/** Option and Result, used wherever the Go code returns a nil pointer or an error value. */
module Wrappers {
  datatype Option<T> = None | Some(value: T)

  datatype Result<T> = Ok(value: T) | Failure(msg: string)
  {
    predicate IsFailure() { Failure? }
  }
}
