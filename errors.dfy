/** The exceptions BinaryCodeWord throws, as values.  Every failing operation
    reports one of these before it changes any state. */
module Errors {

  /** `std::invalid_argument` from a non-positive length is InvalidLength,
      `std::out_of_range` is PositionOutOfRange, the `std::runtime_error` and
      `std::logic_error` of a codeword without storage are Uninitialized, and
      the `std::invalid_argument` of XOR on different lengths is LengthMismatch. */
  datatype ErrorKind = InvalidLength | PositionOutOfRange | Uninitialized | LengthMismatch

  /** The outcome of an operation that returns a value or throws. */
  datatype Result<T> = Ok(value: T) | Err(error: ErrorKind)

  /** The outcome of an operation that returns nothing or throws. */
  datatype Outcome = Pass | Fail(error: ErrorKind)
}
