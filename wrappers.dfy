/** Optional values and handler replies shared by every module of the model. */
module Wrappers {

  /** A value that may be absent: a missing request field, a SQL NULL, a JavaScript `null`. */
  datatype Option<+T> = None | Some(value: T)

  /**
   * What an Express handler sends back: a success status with its JSON body, or an error
   * whose HTTP status each module's error type gives.
   */
  datatype Reply<+T, +E> = Ok(status: nat, body: T) | Err(error: E)
}
