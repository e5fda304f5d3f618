/** The optional value used where the source stores or returns a Rust `Option`. */
module Wrappers {
  datatype Option<+T> = None | Some(value: T)
}
