/** Optional values: a pointer that may be null in `chc_db.h`. */
module Wrappers {

  datatype Option<+T> = None | Some(value: T)
}
