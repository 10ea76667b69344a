/** Small failure-carrying datatypes shared by the lexer model. */
module Wrappers {

  /** Rust's `Option`. */
  datatype Option<+T> = None | Some(value: T)

  /** How a call into the lexer ends: it returns a value, or it panics
      (a Rust string slice at a byte offset that is out of range or not
      on a character boundary). */
  datatype Exit<+T> = Returned(value: T) | Panicked
}
