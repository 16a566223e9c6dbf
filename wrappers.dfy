/** Option and Result values used where the Python code returns None or raises. */
module Wrappers {

  /** `None` is Python's None; `Some(v)` a present value. */
  datatype Option<+T> = None | Some(value: T)

  /** `Err(e)` stands for an exception that escapes the modelled function. */
  datatype Result<+T, +E> = Ok(value: T) | Err(error: E)
}
