/** Optional values: `None` stands for Swift's `nil` and JavaScript's `undefined`/`NaN`. */
module Wrappers {

  datatype Option<+T> = None | Some(value: T)
}
