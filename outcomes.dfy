/** Option and Result values used for the optional fields and the failing steps of the client. */
module Outcomes {

  /** An optional value: a filter key that may be absent, a handle that may not be cached yet. */
  datatype Option<+T> = None | Some(value: T)

  /** The outcome of a step that may fail, such as a rejected promise or a thrown exception. */
  datatype Result<+R, +E> = Ok(value: R) | Err(error: E)
}
