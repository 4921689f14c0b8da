/** Failure-carrying results shared by every puzzle model.

    The solvers are Rust programs whose only error handling is to panic
    (`unwrap`, `assert!`, `unimplemented!`, an index out of bounds). Where
    input data can trigger such a panic, the model returns `Err` (or `None`)
    instead, so the failing path is part of the contract rather than
    excluded by a precondition.
 */
module Wrappers {

  /** An optional value, as Rust's `Option`. */
  datatype Option<+T> = None | Some(value: T)

  /** A computation that either produces a value or panics with a reason. */
  datatype Result<+T> = Ok(value: T) | Err(reason: string)
}
