/** Option and Result datatypes shared by the other modules. */
module Wrappers {

  /** A value that may be absent; stands for a Java reference that may be null. */
  datatype Option<+T> = None | Some(value: T)

  /** Either a returned value or a thrown (checked) exception. */
  datatype Result<+R, +E> = Success(value: R) | Failure(error: E)
}
