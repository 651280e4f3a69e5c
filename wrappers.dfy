/** Python's `None`-or-value, as the pipeline's functions return it. */
module Wrappers {

  datatype Option<+T> = None | Some(value: T)
}
