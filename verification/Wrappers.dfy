/** The two failure-carrying results the adapters' Go code spells as
    (value, ok) and (value, *protoError). */
module Wrappers {
  datatype Option<+T> = None | Some(value: T)

  datatype Result<+T, +E> = Ok(value: T) | Err(error: E)
}
