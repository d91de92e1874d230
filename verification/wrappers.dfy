/** Failure-carrying result types shared by the ledger, inventory and
    supply-chain models, in the shape of Rust's `Option` and `Result`. */
module Wrappers {

  /** Rust's `Option<T>`. */
  datatype Option<+T> = None | Some(value: T)

  /** Rust's `Result<T, E>`. */
  datatype Result<+T, +E> = Ok(value: T) | Err(error: E)

  /** Rust's `Result<(), E>`: success carries no value. */
  datatype Outcome<+E> = Pass | Fail(error: E)

  /** The effect of a `&mut self` call: the receiver's state after the
      call together with what the call returned. On an error path the
      state is the receiver as it was. */
  datatype Step<+S, +R> = Step(state: S, result: R)
}
