/** Optional values, standing in for Java's null and for failed decodes. */
module Wrappers {

  datatype Option<+T> = None | Some(value: T)
}
