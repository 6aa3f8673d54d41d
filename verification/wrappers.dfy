/** Optional values and the results of partial operations. */
module Wrappers {

  /** An optional value: `None` stands for Java's null or for "no such value". */
  datatype Option<+T> = None | Some(value: T)

  /** The outcome of an operation that can fail with an error of type `E`
      (the model of a thrown exception). */
  datatype Result<+R, +E> = Success(value: R) | Failure(error: E)
}
