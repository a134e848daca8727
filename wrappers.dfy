/** The optional-value datatype shared by the modules of the scraper model. */
module Wrappers {

  /** An absent or present value; `None` stands for a lookup that raised. */
  datatype Option<+T> = None | Some(value: T)
}
