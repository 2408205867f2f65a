/** Optional values: JavaScript's `undefined`/`null` results and nullable record fields. */
module Wrappers {

  datatype Option<+T> = None | Some(value: T)
}
