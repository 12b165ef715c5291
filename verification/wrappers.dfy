/** Absence and failure as values: the repositories signal "not found" with
    `Option` and hard failures (malformed stored JSON, a property set on a
    non-object) with `Result`, never with exceptions. */
module Wrappers {

  datatype Option<+T> = None | Some(value: T)

  datatype Result<+R, +E> = Success(value: R) | Failure(error: E)
}
