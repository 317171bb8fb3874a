/** Outcomes of the B-tree's operations: the error strings the source returns,
    Rust's `Result`, and whether a call returns at all or panics. */
module Outcomes {

  /** The error markers of `src/b_tree/mod.rs`, as a closed set. `Unsupported`
      stands for the unit error `()` that `remove` returns. */
  datatype Error = NodeIsFull | KeyAlreadyExists | KeyNotFound | Unsupported

  /** Rust's `Result<T, &str>` (and `Result<V, ()>` for `remove`). */
  datatype Result<T> = Ok(value: T) | Err(error: Error)

  /** A Rust call either returns a value or panics (an index out of bounds,
      a `RefCell` borrowed twice, a failed configuration check). */
  datatype Run<T> = Returned(value: T) | Panicked

  datatype Option<T> = None | Some(value: T)
}
