/** Optional values and results with an error, as the router's input schema and answers use them. */
module Wrappers {

  /** A value that may be absent: TypeScript's `undefined`/`null` versus a present value. */
  datatype Option<+T> = None | Some(value: T)

  /** Either an answer or the error the request was rejected with. */
  datatype Result<+T, +E> = Success(value: T) | Failure(error: E)
}
