/** Optional values, used wherever the server code works with `null`,
    `undefined` or a failed regular-expression match. */
module Wrappers {

  datatype Option<+T> = None | Some(value: T)
}
