/** Failure-compatible wrappers used for the Java `null` results and thrown exceptions. */
module Wrappers {

  /** `None` stands for the Java `null` that the source returns for "absent". */
  datatype Option<+T> = None | Some(value: T)

  /** `Failure` stands for an exception the source throws. */
  datatype Result<+R, +E> = Success(value: R) | Failure(error: E)
}
