/** Option and Result, as the Rust code uses them. */
module Wrappers {

  datatype Option<+T> = None | Some(value: T)

  /** `Result<T, QuadTreeInsertError>`: the error type is a unit struct, so `Err` carries nothing. */
  datatype Result<+T> = Ok(value: T) | Err
}
