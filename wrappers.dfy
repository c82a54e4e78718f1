/** A value that may be missing: a JavaScript `undefined`, `NaN` or "not found". */
module Wrappers {
  datatype Option<+T> = None | Some(value: T)
}
