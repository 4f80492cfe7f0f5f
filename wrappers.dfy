/** Option and Result: the Rust `Option` and the outcome of an operation that
    can abort (the source's panics become `Failure` values). */
module Wrappers {

  datatype Option<+T> = None | Some(value: T)

  datatype Result<+R, +E> = Success(value: R) | Failure(error: E)
}
