/** The optional-value type shared by the other modules: JavaScript's
    `null`/`undefined` results (a missing storage key, a failed `find`). */
module Wrappers {

  datatype Option<+T> = None | Some(value: T)
}
