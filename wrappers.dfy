/** Option and Result values standing in for Python's None and raised exceptions. */
module Wrappers {

  datatype Option<+T> = None | Some(value: T)

  /** `Err(message)` carries the text that `str(e)` of the raised exception gives. */
  datatype Result<+T> = Ok(value: T) | Err(message: string)

}
