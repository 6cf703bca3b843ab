/** Optional values, for the JavaScript `undefined`/`null` the handlers test for. */
module Wrappers {

  datatype Option<+T> = None | Some(value: T)
}
