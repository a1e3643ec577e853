/** The outcome of one per-cell computation: `None` stands for an exception raised
    inside the closure, which the driver swallows. */
module Wrappers {

  datatype Option<+T> = None | Some(value: T)
}
