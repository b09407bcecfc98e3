/** Optional values, used where the rewriter answers "no match". */
module Wrappers {
  datatype Option<+T> = None | Some(value: T)
}
