/** The failure-or-value types of this project. */
module Wrappers {
  datatype Option<T> = None | Some(value: T)

  /** What C code comes to: an error return, a signed overflow, which leaves the rest of
      the run without a meaning, or a value. */
  datatype Attempt<T> = Refused | Undefined | Done(value: T)
}
