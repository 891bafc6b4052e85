/** Failure-carrying datatypes shared by the other modules. */
module Wrappers {

  /** An optional value; `None` stands for JavaScript's `undefined` or `null`. */
  datatype Option<+T> = None | Some(value: T)

  /** Either a value or the message of the error the source throws. */
  datatype Result<+T, +E> = Success(value: T) | Failure(error: E)
}
