/** Failure-carrying result types shared by the configuration store model.

    The store reports failures with C++ exceptions that never roll back what
    was already written, so besides the usual `Option` and `Result` this module
    defines `Outcome`: a result that carries the state both on normal return and
    at the point an exception was thrown.
 */
module Outcomes {

  datatype Option<+T> = None | Some(value: T)

  /** The failure kinds the store raises (the message texts are not modelled). */
  datatype Error =
    | SectionNotFound          // ConfigReader::getValue on an absent section
    | KeyNotFoundOrTypeMismatch // ConfigSection::getValue: absent key or other kind
    | ValidationFailed         // a registered rule rejected the stored value
    | ParseFailed              // std::stod threw inside fromString

  /** The result of a value-returning accessor that may throw. */
  datatype Result<+T> = Success(value: T) | Failure(error: Error)

  /** The state after a mutating call: either it returned normally, or it threw
      `error` and `state` is what had already been written when it threw. */
  datatype Outcome<+S> = Normal(state: S) | Thrown(state: S, error: Error)
}
