/** The optional value used where the source keeps an empty list or would raise on missing data. */
module Wrappers {
  datatype Option<T> = None | Some(value: T)
}
