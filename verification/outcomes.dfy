/** The error-or-value wrapper used for operations of the store that throw. */
module Outcomes {

  datatype Result<+T, +E> = Success(value: T) | Failure(error: E)
}
