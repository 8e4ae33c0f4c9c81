/** The optional value used throughout the model for JavaScript's
    `undefined`/`null`/`NaN` results. */
module Wrappers {
  datatype Option<+T> = None | Some(value: T)
}
