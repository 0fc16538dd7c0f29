/** Failure-carrying datatypes shared by the range and pool modules. */
module Wrappers {

  /** A value that may be absent; `None` is kept distinct from every present value, 0 included. */
  datatype Option<+T> = None | Some(value: T)

  /** The value of a call that either returns or raises. */
  datatype Result<+T, +E> = Ok(value: T) | Err(error: E)

  /** The outcome of a call that returns nothing when it succeeds. */
  datatype Outcome<+E> = Pass | Fail(error: E)
}
