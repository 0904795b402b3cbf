/** Optional values, for the fields the frontend model declares with `?`. */
module Wrappers {

  datatype Option<+T> = None | Some(value: T)
}
