/** Optional values: a query parameter, a form field or a database column
    that may be missing. */
module Wrappers {
  datatype Option<+T> = None | Some(value: T)
}
