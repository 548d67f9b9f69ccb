/** Failure-compatible wrappers shared by the other modules. */
module Wrappers {

  /** An optional value: `None` stands for JavaScript's `null`, `undefined`
      or a falsy placeholder where the source uses one. */
  datatype Option<+T> = None | Some(value: T)

  /** The outcome of an operation that either completes or throws. */
  datatype Outcome<+E> = Pass | Fail(error: E)
}
