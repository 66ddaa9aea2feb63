/** Small failure-carrying wrappers shared by the archive modules. */
module Opt {

  /** A value that may be absent (a null pointer, a parse that failed). */
  datatype Option<+T> = None | Some(value: T)

  /** The result of an operation that either succeeds or reports an error. */
  datatype Outcome<+E> = Pass | Fail(error: E)
}
