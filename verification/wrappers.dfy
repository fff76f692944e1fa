/** Values that may be absent. */
module Wrappers {

  /** A value that may be absent: pandas' NaN / Python's None. */
  datatype Option<T> = None | Some(value: T)
}
