/** Optional values: `None` stands for Java's `null` / `Optional.empty()`. */
module Wrappers {

  datatype Option<+T> = None | Some(value: T)
}
