/** The two failure-compatible datatypes the model uses for the source's exceptions and
    for pointers that may be null. */
module Wrappers {
  datatype Option<+T> = None | Some(value: T)

  datatype Result<+T, +E> = Ok(value: T) | Err(error: E)
}
