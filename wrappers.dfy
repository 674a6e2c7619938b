/** Option, Result and Outcome: the shapes of Rust's `Option<T>`, `Result<T, E>`
    and of a unit-returning call that either completes or panics. */
module Wrappers {

  datatype Option<+T> = None | Some(value: T)

  datatype Result<+T, +E> = Ok(value: T) | Err(error: E)

  /** `Pass` is a call that returned normally; `Fail(e)` a call that panicked for reason `e`. */
  datatype Outcome<+E> = Pass | Fail(error: E)
}
