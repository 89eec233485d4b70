/** Option and Result values shared by the modules of this model. */
module Wrappers {

  datatype Option<+T> = None | Some(value: T)

  /** The outcome of a step that either produces a value or aborts the run. */
  datatype Result<+T, +E> = Ok(value: T) | Err(error: E)
}
