/** Failure-carrying results, standing in for the Python exceptions and
    `sys.exit` calls of the driver. */
module Wrappers {

  datatype Option<+T> = None | Some(value: T)

  datatype Result<+R, +E> = Success(value: R) | Failure(error: E)
}
