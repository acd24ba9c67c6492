/** Optional values: a C++ null pointer, a Swift optional, a search that finds nothing. */
module Options {
  datatype Option<+T> = None | Some(value: T)
}
