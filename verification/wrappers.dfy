/** Optional values, standing for Java's `Optional` and for parses that may fail. */
module Wrappers {

  datatype Option<+T> = None | Some(value: T)
}
