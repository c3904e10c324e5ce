/** Rust's `Option<T>`: the slot type of the ring and the return type of
    `push` and `read`. */
module Wrappers {

  datatype Option<+T> = None | Some(value: T)
}
