/** Failure-compatible wrappers shared by the model. */
module Wrappers {

  /** `None` stands for JavaScript's `null` / `undefined`. */
  datatype Option<+T> = None | Some(value: T)

  /** `Fail(e)` stands for a thrown error `e`, `Pass` for a normal return. */
  datatype Outcome<+E> = Pass | Fail(error: E)
}
