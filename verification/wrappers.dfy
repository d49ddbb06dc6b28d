/** Failure-carrying datatypes shared by the model: PHP's `null` becomes `None`,
    a thrown error becomes `Failure`. */
module Wrappers {

  /** A nullable PHP value: `None` is `null` (or a property never assigned). */
  datatype Option<+T> = None | Some(value: T)

  /** The outcome of a call that either returns normally or throws. */
  datatype Result<+R, +E> = Success(value: R) | Failure(error: E)
}
