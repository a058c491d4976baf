/** The optional-value wrapper used throughout the model (a JavaScript `null`,
    `undefined` or empty-string sentinel becomes `None`). */
module Wrappers {

  datatype Option<+T> = None | Some(value: T)
}
