/** Error kinds and result wrappers shared by the ring buffer and the register.
    The C++ code signals errors by throwing; the model returns them. */
module Outcomes {

  /** The two standard exceptions the code throws. */
  datatype Error =
    | InvalidArgument  // std::invalid_argument: zero size, missing key
    | OutOfRange       // std::out_of_range: push on full, read on empty

  /** A call that returns a value or throws. */
  datatype Result<T> = Ok(value: T) | Err(error: Error)

  /** A call that returns nothing or throws. */
  datatype Status = Done | Failed(error: Error)
}
