/** Optional values and results carrying the message of the exception the
    Python code would raise. */
module Outcomes {

  datatype Option<T> = None | Some(value: T)

  datatype Result<T> = Ok(value: T) | Err(error: string)
}
