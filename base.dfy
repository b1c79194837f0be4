/** Shared value types: machine integers of the source, Option and Result. */
module Base {

  /** A `u8` of the source. */
  newtype byte = b: int | 0 <= b < 256

  /** A `u16` of the source (terminal columns and rows). */
  newtype u16 = x: int | 0 <= x < 65536

  datatype Option<+T> = None | Some(value: T) {
    /** `unwrap_or`: the wrapped value, or `default` when absent. */
    function GetOr(default: T): T {
      match this
      case Some(v) => v
      case None => default
    }
  }

  /** The `Result<T, String>` every command of the source returns. */
  datatype Result<+T> = Ok(value: T) | Err(error: string)

  /** The text Rust's `PoisonError` displays; `map_err(|e| e.to_string())` turns a poisoned lock into it. */
  const PoisonMessage: string := "poisoned lock: another task failed inside"
}
