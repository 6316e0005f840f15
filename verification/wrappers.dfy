/** Failure-carrying wrappers shared by the store model. */
module Wrappers {

  /** A value or its absence: what a JavaScript lookup returns as a record or `undefined`. */
  datatype Option<+T> = None | Some(value: T)

  /** A value, or an error the resolver would otherwise raise. */
  datatype Result<+T, +E> = Ok(value: T) | Err(error: E)
}
