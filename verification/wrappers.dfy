/** The optional-value datatype used wherever the original code returns `None`. */
module Wrappers {

  /** `None` stands for Python's `None` (a failed fit, a raised score). */
  datatype Option<+T> = None | Some(value: T)
}
