/** The optional value returned by an iterator step (Rust's `Option`). */
module Wrappers {
  datatype Option<+T> = None | Some(value: T)
}
