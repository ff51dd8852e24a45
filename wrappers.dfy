/** Optional values, used for flexx's tri-state properties and for steps that can fail. */
module Wrappers {

  datatype Option<+T> = None | Some(value: T)
}
