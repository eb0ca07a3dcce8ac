/** The optional value used for Rust's `Option` and for operations that panic. */
module Wrappers {

  datatype Option<+T> = None | Some(value: T)
}
