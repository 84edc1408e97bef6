/** The error conditions the map raises, one per standard exception type the
    component throws, and the Result/Option wrappers that replace `throw` and
    null references in this model. */
module Errors {

  /** `std::invalid_argument`, `std::domain_error` and `std::logic_error`. */
  datatype Error =
    | InvalidArgument
    | DomainError
    | LogicError

  /** Either the value an operation produces or the exception it throws. */
  datatype Result<+T> = Success(value: T) | Failure(error: Error)

  /** A possibly absent value; `None` stands for a null reference. */
  datatype Option<+T> = None | Some(value: T)
}
