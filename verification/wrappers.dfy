/** Optional values: `None` stands for JavaScript's `NaN` or a missing DOM element. */
module Wrappers {

  datatype Option<+T> = None | Some(value: T)
}
