/** The result shapes shared by the modules of this project. */
module Wrappers {
  /** A value that may be missing: the source's null, undefined or -1. */
  datatype Option<+T> = None | Some(value: T)

  /** A computed value or the source's thrown error. */
  datatype Result<+T, +E> = Ok(value: T) | Err(error: E)
}
