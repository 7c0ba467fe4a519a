/** Optional values: `None` stands for a JavaScript `undefined`. */
module Wrappers {

  datatype Option<+T> = None | Some(value: T)
}
