/** Optional values, for the source's null references and absent arguments. */
module Wrappers {
  datatype Option<+T> = None | Some(value: T)
}
