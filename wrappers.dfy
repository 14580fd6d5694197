/** Small failure-compatible wrappers shared by the modules of this model. */
module Wrappers {

  /** Python's `None` / a present value. */
  datatype Option<T> = None | Some(value: T)

  /** The outcome of a Python call that can also end by raising an exception
      that its caller does not catch. */
  datatype Outcome<T> = Returned(value: T) | Raised
}
