/** Optional values: a nullable field or an optional property (`error?`). */
module Wrappers {

  /** `None` stands for JavaScript's `null` or for a property that is absent. */
  datatype Option<+T> = None | Some(value: T)
}
