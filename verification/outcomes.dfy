/** Failure-carrying results shared by the glossary modules. */
module Outcomes {

  /** Either a value or the reason it could not be produced. */
  datatype Result<+T, +E> = Success(value: T) | Failure(error: E)
}
