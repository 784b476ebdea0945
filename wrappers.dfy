/** Optional values (Java's nullable references) and results with an error (Java's exceptions). */
module Wrappers {

  /** A nullable value: None stands for Java's null. */
  datatype Option<+T> = None | Some(value: T)

  /** The outcome of an operation that may fail with an error of type E. */
  datatype Result<+T, +E> = Ok(value: T) | Err(error: E)

  /** The outcome of an operation that returns nothing on success. */
  datatype Outcome<+E> = Pass | Fail(error: E)
}
