/** Optional values and the outcome of an operation that may abort. */
module Wrappers {

  /** A value that may be missing: the source's NULL returns. */
  datatype Option<+T> = None | Some(value: T)

  /** The outcome of an operation that either succeeds or calls errAbort. */
  datatype Result<+T> = Ok(value: T) | Abort(reason: string)
}
