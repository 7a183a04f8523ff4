/** Option, used for the outcome of the foreign keyed-hash call. */
module Wrappers {

  /** `None` stands for a failed computation, `Some(v)` for a value. */
  datatype Option<+T> = None | Some(value: T)
}
