/** Option and Result, used wherever the Kotlin code returns null or throws. */
module Wrappers {

  /** `None` stands for Kotlin's `null`. */
  datatype Option<+T> = None | Some(value: T)

  /** `Failure` stands for an exception the Kotlin code lets escape. */
  datatype Result<+R, +E> = Success(value: R) | Failure(error: E)
}
