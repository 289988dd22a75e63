/** The optional result the Rust library returns (`Option<usize>`, `Option<String>`). */
module Wrappers {

  datatype Option<+T> = None | Some(value: T)
}
