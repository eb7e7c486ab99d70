/** Result shapes shared by every module of the model. */
module Wrappers {
  /** An optional value, as Rust's `Option`. */
  datatype Option<T> = None | Some(value: T)

  /**
   * The outcome of a call that may panic: `Ok` carries the value returned,
   * `Panic` stands for a `panic!`, a failed `assert!`, or an `unwrap`/`expect`
   * on a missing value. A panic never returns, so it carries nothing.
   */
  datatype Result<T> = Ok(value: T) | Panic
}
