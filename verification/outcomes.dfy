/** Values that stand in for Python's `None`/exceptions in the model. */
module Outcomes {

  /** An optional value, as returned by a lookup that may find nothing. */
  datatype Option<+T> = None | Some(value: T)

  /** The exceptions the modelled code can raise. */
  datatype Error =
    | ValueError(message: string)
    | KeyError(key: string)
    | FileNotFoundError(path: string)
    | OSError(path: string)

  /** Either a value or the exception raised instead of producing it. */
  datatype Result<+T> = Ok(value: T) | Err(error: Error)

  /** How a step with side effects ended: normally, or by raising. */
  datatype Status = Done | Raised(error: Error)
}
