/** Result shapes shared by the store and the HTTP endpoints. */
module Outcomes {

  /** Python's `None` or a value. */
  datatype Option<+T> = None | Some(value: T)

  /** The outcome of a Python call that may let an exception escape: the
      value it returns, or `Raised` when an exception propagates to the
      caller (for a Flask view this means an internal server error). */
  datatype Call<+T> = Returned(value: T) | Raised
}
