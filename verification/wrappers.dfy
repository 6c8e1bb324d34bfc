/** Option and Result, standing in for Java's null references and exceptions. */
module Wrappers {

  /** A value that may be absent (a Java reference that may be null). */
  datatype Option<+T> = None | Some(value: T) {

    /** The value when present, `default` otherwise. */
    function GetOr(default: T): T {
      match this
      case Some(v) => v
      case None => default
    }
  }

  /** A computed value, or the error a Java method would throw instead. */
  datatype Result<+R, +E> = Ok(value: R) | Err(error: E)
}
