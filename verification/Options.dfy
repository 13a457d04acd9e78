/** Optional values, for nullable columns and lookups that may find nothing. */
module Options {
  datatype Option<+T> = None | Some(value: T)
}
