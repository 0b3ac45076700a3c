/** Optional values, standing for std::optional and for "npos" results. */
module Wrappers {

  datatype Option<+T> = None | Some(value: T)
}
