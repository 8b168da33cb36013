/** Option and Result, the two failure-carrying shapes the relay uses: Rust's
    `Option` for the published address and the inbound stream, and `Result`
    for decoding and request handling. */
module Wrappers {

  datatype Option<+T> = None | Some(value: T)

  datatype Result<+T, +E> = Ok(value: T) | Err(error: E)
}
