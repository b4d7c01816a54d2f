/** The error conditions the library documents for its operations, and a
    result type that carries either a value or one of them. The library
    itself catches its own exceptions and falls through without a value;
    here every failure is returned to the caller. */
module Errors {

  /** `std::out_of_range` and `std::domain_error`, the two exceptions the
      library throws. */
  datatype Error = OutOfRange | DomainError

  datatype Result<+T> = Ok(value: T) | Err(error: Error)
}
