/** The model's stand-in for a C pointer that may be NULL. */
module Nullable {

  /** An optional value: `None` where the C code has NULL. */
  datatype Option<+T> = None | Some(value: T)
}
