/** The two result shapes shared by the other modules. */
module Wrappers {

  /** A dictionary lookup that may find nothing. */
  datatype Option<+T> = None | Some(value: T)

  /** A computation that either returns or raises one of the original's exceptions. */
  datatype Result<+T, +E> = Ok(value: T) | Raise(error: E)
}
