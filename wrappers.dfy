module Wrappers {
  /** A value that may be absent; `None` is the "invalid key" answer of decoding. */
  datatype Option<+T> = None | Some(value: T)
}
