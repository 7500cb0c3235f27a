/** An optional value: a missing record, a failed lookup, Python's `None`. */
module Wrappers {
  datatype Option<T> = None | Some(value: T)
}
