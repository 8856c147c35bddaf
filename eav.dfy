/**
 * The error-as-value shapes the server returns instead of throwing:
 * `Eav<V>` is either an error or a value, `EavSingle` is an optional error.
 */
module Eav {

  /** A value that may be missing (`undefined`/`null` in the source). */
  datatype Option<+T> = None | Some(value: T)

  /** `[error, undefined]` or `[undefined, value]`. */
  datatype Result<+V, +E> = Ok(value: V) | Err(error: E)
}
