/** Bytes and optional values, shared by the text and memory modules. */
module Bytes {
  type byte = x: nat | x < 256

  datatype Option<+T> = None | Some(value: T)
}
