/** The error kinds the serializer can report (src/error.rs).
    `Io` is not part of this model: the output sink is an in-memory
    character sequence whose appends cannot fail. */
module Errors {

  datatype Error =
    | KeyNotString          // a map key that is not a string or a char
    | Message(msg: string)  // raised by the application type's own serialization code

  /** `Result<T>`: a value, or the error that ended the call. */
  datatype Result<T> = Ok(value: T) | Err(error: Error)

  /** `Result<()>`: success, or the error that ended the call. */
  datatype Outcome = Pass | Fail(error: Error)
}
