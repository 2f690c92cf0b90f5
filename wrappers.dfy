/** Optional values: an absent prop, an unset sort key, a callback that was not supplied. */
module Wrappers {

  datatype Option<+T> = None | Some(value: T)
}
