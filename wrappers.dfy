/** Small failure-carrying datatypes shared by the store and the server. */
module Wrappers {

  /** A value that may be absent (a missing map entry, a failed stat or parse). */
  datatype Option<+T> = None | Some(value: T)

  /** The outcome of an operation that returns only an error: Go's `error`,
      where `Pass` stands for a nil error. */
  datatype Outcome<+E> = Pass | Fail(error: E)
}
