/** Optional values, used for nullable columns, failed parses and missing rows. */
module Wrappers {

  datatype Option<+T> = None | Some(value: T)
}
