/** Option and Result, used for JavaScript `undefined` and for thrown exceptions. */
module Wrappers {

  datatype Option<+T> = None | Some(value: T)

  /** `Failure` stands for an exception the source throws; `error` is its message. */
  datatype Result<+R> = Success(value: R) | Failure(error: string)
}
