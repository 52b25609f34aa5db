/** Failure-carrying datatypes shared by the decoder and the store: the
    model's counterparts of Rust's `Option` and `Result`. */
module Wrappers {

  datatype Option<+T> = None | Some(value: T)

  datatype Result<+T, +E> = Ok(value: T) | Err(error: E)
}
