/** Option and Result, standing in for Java's null references and thrown exceptions. */
module Wrappers {

  /** A value that may be absent: `None` models a Java `null` reference. */
  datatype Option<+T> = None | Some(value: T)

  /** The outcome of an operation that may throw. */
  datatype Result<+R, +E> = Success(value: R) | Failure(error: E)

  /** The one exception the core throws on bad arguments. */
  datatype Error = IllegalArgument(message: string)
}
