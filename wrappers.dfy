/** Optional values, used for the session-start reference (null until a session starts). */
module Wrappers {

  datatype Option<+T> = None | Some(value: T)
}
