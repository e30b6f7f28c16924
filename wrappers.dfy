/** Optional values: the model's rendering of a pandas null (None / NaN / NaT). */
module Wrappers {
  datatype Option<+T> = None | Some(value: T)
}
