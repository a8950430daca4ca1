/** Failure-compatible wrappers: an optional value (the source's `undefined`
    stands for None) and a result that is either a value or an error. */
module Wrappers {

  datatype Option<+T> = None | Some(value: T)

  datatype Result<+R, +E> = Success(value: R) | Failure(error: E)
}
