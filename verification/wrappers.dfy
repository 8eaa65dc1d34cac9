/** Absence and failure as values: Go's nil pointers and (value, error)
    pairs become Option and Result. */
module Wrappers {

  /** A value that may be absent; stands for a possibly-nil pointer. */
  datatype Option<+T> = None | Some(value: T)

  /** The outcome of an operation that can fail. */
  datatype Result<+T, +E> = Ok(value: T) | Err(error: E)
}
