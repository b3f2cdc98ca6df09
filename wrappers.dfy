/**
 * Shared result types. Kotlin functions of the exercises signal failure by
 * throwing; the model returns a `Result` whose failure side names the
 * exception class the Kotlin code throws.
 */
module Wrappers {

  datatype Option<T> = None | Some(value: T)

  /** The exception classes thrown by the modelled Kotlin code. */
  datatype Exception =
    | IllegalArgument
    | IllegalState
    | NumberFormat
    | Arithmetic
    | IndexOutOfBounds
    | NoSuchElement
    | NegativeArraySize
    | NullPointer

  datatype Result<T> = Ok(value: T) | Fail(error: Exception)
}
