/** Optional values: a frame either emits a result record or it does not. */
module Wrappers {

  datatype Option<+T> = None | Some(value: T)

}
