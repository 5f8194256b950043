/** The exceptions the matrix library throws, and the failure-carrying
    datatypes used in place of C++ exceptions. */
module Outcomes {

  /** `std::out_of_range` and `std::invalid_argument`, the only two
      exception types the core throws. */
  datatype Error = OutOfRange | InvalidArgument

  datatype Option<+T> = None | Some(value: T)

  /** Either the value an operation returns, or the exception it throws. */
  datatype Result<+T> = Ok(value: T) | Throw(error: Error)
}
