/** Failure-carrying results, standing in for the exceptions of the modelled code. */
module Wrappers {

  /** An optional value: `None` where a .NET conversion would throw. */
  datatype Option<+T> = None | Some(value: T)

  /** Either a value or the exception that the modelled method would throw instead. */
  datatype Result<+R, +E> = Success(value: R) | Failure(error: E)
}
