/** Optional values, used for an absent API key, an absent reply and a failed integer conversion. */
module Wrappers {

  datatype Option<+T> = None | Some(value: T)
}
