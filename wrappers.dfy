/** Optional values: the `std::string::npos` of a search, a null C string. */
module Wrappers {

  datatype Option<+T> = None | Some(value: T)
}
