/** An optional value, for lookups that may find nothing and bounded loops
    that may give up. */
module Wrappers {
  datatype Option<T> = None | Some(value: T)
}
