/** Optional values, standing in for PHP's nullable references and for
    lookups that may find nothing. */
module Wrappers {

  datatype Option<+T> = None | Some(value: T)
}
