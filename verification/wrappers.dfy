/** The optional value used for Rust's `Option` and for decoders that may fail. */
module Wrappers {

  datatype Option<+T> = None | Some(value: T)
}
