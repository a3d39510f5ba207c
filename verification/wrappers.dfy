/** Optional values, used where a lookup or a parse can miss. */
module Wrappers {

  /** Either nothing, or one value of type T. */
  datatype Option<+T> = None | Some(value: T)
}
