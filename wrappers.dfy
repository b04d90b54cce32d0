/** Option and Result, the error-carrying return types of the model. */
module Wrappers {

  datatype Option<T> = None | Some(value: T)

  /** The exceptions the pipeline raises, with the argument the source gives them. */
  datatype Error =
    | KeyError(column: string)      // a column the operation needs is absent
    | ValueError(message: string)   // an argument out of range
    | IndexError                    // a list index past the end

  datatype Result<T> = Ok(value: T) | Err(error: Error)
}
