/** The optional-value wrapper used throughout the model. */
module Wrappers {

  /** `None` stands for Python's `None`: a form field that was not sent, a query with no row. */
  datatype Option<+T> = None | Some(value: T)
}
