/** The optional value the model uses wherever the Python code can raise. */
module Wrappers {

  /** `None` stands for an exception raised; `Some(v)` for the value `v`. */
  datatype Option<+T> = None | Some(value: T)
}
