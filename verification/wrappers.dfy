/** A value that may be absent, used where the program works with `null`, `undefined`
    or a falsy value. */
module Wrappers {

  datatype Option<+T> = None | Some(value: T)
}
