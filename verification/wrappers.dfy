/** Optional values: a Go nil reference, a missing map key, a failed parse. */
module Wrappers {

  datatype Option<+T> = None | Some(value: T)
}
