/** Optional values, and results that either carry a value or name the Python
    exception the modelled code raises instead. */
module Errors {

  datatype Option<T> = None | Some(value: T)

  /** The exception classes the modelled code raises, with their messages. */
  datatype Exception =
    | ValueError(message: string)
    | TypeError(message: string)
    | KeyError(message: string)

  datatype Result<T> = Ok(value: T) | Err(error: Exception)
}
