/** Outcome types used by every module: `Result` stands for a Rust `Result`, `Option` for an `Option`. */
module Outcomes {
  datatype Option<+T> = None | Some(value: T)

  datatype Result<+T, +E> = Ok(value: T) | Err(error: E)
}
