/** Optional values and the fallible results of the tool functions. */
module Wrappers {

  datatype Option<+T> = None | Some(value: T)

  /** `anyhow::Result<T>`: a value, or an error carrying its message. */
  datatype Result<+T> = Ok(value: T) | Err(error: string)

  /** The outcome of a filesystem call whose only interesting result is success or its error. */
  datatype Outcome = Pass | Fail(error: string)
}
