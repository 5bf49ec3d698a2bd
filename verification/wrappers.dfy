/**
 * Failure-compatible result types shared by the readers: `Option` for the
 * lookups that answer "absent" without raising, `Result` for the accessors
 * that raise an error in the modelled code.
 */
module Wrappers {

  datatype Option<+T> = None | Some(value: T)

  datatype Result<+R, +E> = Success(value: R) | Failure(error: E)
}
