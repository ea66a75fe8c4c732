/** The optional value used wherever the page reads something that may be absent:
    a storage key with no entry, a `find` that matches nothing, a `parseInt` that yields NaN. */
module Wrappers {
  datatype Option<+T> = None | Some(value: T)
}
