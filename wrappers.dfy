/** Outcome wrappers: a host lookup that may find nothing, and a provider
    answer that either resolves to a value or is rejected with a message. */
module Wrappers {

  datatype Option<+T> = None | Some(value: T)

  datatype Result<+R, +E> = Success(value: R) | Failure(error: E)
}
