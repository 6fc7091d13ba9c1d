/** Result and option types for the operations of the source that can fail.
    A failing step of the source raises a Python exception; the model returns
    which one instead. */
module Wrappers {

  datatype Option<T> = None | Some(value: T)

  /** The Python exceptions the modelled code can raise. */
  datatype PyError = IndexError | ValueError | ZeroDivisionError

  datatype Result<T> = Ok(value: T) | Err(error: PyError)
}
