/** The optional-value datatype shared by the whole model: Python's `None`
    versus a present value, and the success/failure of a partial function. */
module Wrappers {

  datatype Option<+T> = None | Some(value: T)
}
