/** The failures the service layer raises, and the result type that carries them. */
module Errors {
  import Validation

  /**
   * `NullArgument` is an `ArgumentNullException`; every other constructor is
   * thrown as a plain `ArgumentException`.
   */
  datatype Error =
    | NullArgument
    | ValidationFailed(violations: seq<Validation.Violation>)
    | CountryNameMissing
    | DuplicateCountryName
    | UnknownPersonID

  datatype Result<+T> = Ok(value: T) | Err(error: Error)
}
