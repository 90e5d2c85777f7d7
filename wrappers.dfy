/** Option and Result, the shapes in which the model returns Java's null and its exceptions. */
module Wrappers {

  /** A value that may be absent; `None` stands for Java's `null` or an empty `Optional`. */
  datatype Option<+T> = None | Some(value: T)

  /** Either a normal return or the exception the Java method throws. */
  datatype Result<+R, +E> = Ok(value: R) | Err(error: E)
}
