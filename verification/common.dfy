/** Small failure-carrying datatypes shared by the components. */
module Common {

  /** A value that may be absent (TypeScript's `T | null` or `T | undefined`). */
  datatype Option<+T> = None | Some(value: T)

  /** The outcome of a check: it passes, or it fails with a message. */
  datatype Outcome<+E> = Pass | Fail(error: E)
}
