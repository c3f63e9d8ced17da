/** Option and Result values used for the "maybe an address" answers of the
    memory search and for the error path of a refinement scan. */
module Wrappers {

  datatype Option<+T> = None | Some(value: T)

  datatype Result<+R, +E> = Success(value: R) | Failure(error: E)
}
