/** The optional value used for bounds and for what an iterator yields (Rust `Option`). */
module Wrappers {

  datatype Option<+T> = None | Some(value: T)
}
