/** Failure-compatible wrappers. A Python exception that the program turns into
    text (`str(e)`) is modelled as the `Failure` case carrying that text. */
module Wrappers {

  /** `None` stands for Python's `None` (or an absent dictionary key). */
  datatype Option<+T> = None | Some(value: T)

  /** Either a value or the message of the exception that was raised instead. */
  datatype Result<+T> = Success(value: T) | Failure(error: string)
}
