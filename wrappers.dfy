/** Optional values: `null` in the TypeScript source is `None` here. */
module Wrappers {

  datatype Option<+T> = None | Some(value: T)
}
