/** Optional values (C# null) and results that may carry a thrown exception. */
module Wrappers {

  /** A value that may be absent: `None` stands for C#'s `null`. */
  datatype Option<T> = None | Some(value: T)

  /** The outcome of an operation that can throw: `Err` names the exception. */
  datatype Result<T> = Ok(value: T) | Err(error: string)
}
