/** Optional out-values: the C API writes `*samples_read` and `*vad` only through
    non-null pointers, so a value the call did not write is `None`. */
module Wrappers {
  datatype Option<+T> = None | Some(value: T)
}
