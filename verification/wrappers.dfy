/** The optional-value datatype used across the model: `None` stands for
    Python's `None` argument (no `resize`, no `sort_key`) and for a file
    that the image library cannot open. */
module Wrappers {

  datatype Option<+T> = None | Some(value: T)
}
