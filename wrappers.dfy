/** Absence-carrying values: JavaScript's `undefined` from `find` and the
    `NaN` that `parseInt` yields on an unparsable parameter. */
module Wrappers {

  datatype Option<+T> = None | Some(value: T)
}
