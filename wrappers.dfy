/** The Option datatype used for JavaScript's `undefined`/`null` and for calls that throw. */
module Wrappers {

  datatype Option<+T> = None | Some(value: T)
}
