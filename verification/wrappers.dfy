/** A value that may be absent: `null` from the browser's key-value store
    or from a form lookup. */
module Wrappers {

  datatype Option<+T> = None | Some(value: T)
}
