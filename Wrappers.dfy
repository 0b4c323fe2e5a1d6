/** Result and option types standing for the source's nulls and thrown exceptions. */
module Wrappers {
  datatype Option<T> = None | Some(value: T)

  /** The .NET exception kinds the modelled code throws. */
  datatype Error =
    | ArgumentNull
    | ArgumentOutOfRange
    | Argument
    | NullReference
    | InvalidOperation
    | Overflow

  datatype Result<T> = Ok(value: T) | Err(error: Error)

  /** Outcome of an operation that returns nothing: it either completes or throws. */
  datatype Outcome = Done | Fail(error: Error)
}
