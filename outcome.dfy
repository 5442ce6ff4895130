/** Outcomes of operations whose source aborts on a failed `assert` or raises an exception. */
module Outcome {

  /** The two ways a checked operation of the container can fail. */
  datatype Error =
    | AssertionFailure   // a failed `assert` (the program aborts)
    | OutOfRange         // the exception thrown when an iterator moves before the first element

  datatype Result<T> = Ok(value: T) | Err(error: Error)

  datatype Status = Success | Failure(error: Error)
}
