/** The absent-or-present value used for JavaScript's `undefined`/`null` inputs and results. */
module Wrappers {

  datatype Option<+T> = None | Some(value: T)
}
