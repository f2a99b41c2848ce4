/** The optional value used for JavaScript's `undefined`/`null` where the widget tests for it. */
module Wrappers {
  datatype Option<+T> = None | Some(value: T)
}
