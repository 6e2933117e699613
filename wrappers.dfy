/** Option and Result, with the error kinds the pipeline raises. */
module Wrappers {

  datatype Option<+T> = None | Some(value: T)

  /** The Python exception a step raises, reduced to its kind and the offending key. */
  datatype Error =
    | KeyError(key: string)         // dict / DataFrame lookup of a missing key
    | IndexError                    // list index out of range
    | ValueError(what: string)      // bad unpacking, bad int(), nothing to concatenate, a bad reindex
    | TypeError(what: string)       // unexpected geometry type, subscripting None
    | AttributeError(what: string)  // a missing column or geometry attribute

  datatype Result<+T> = Ok(value: T) | Err(error: Error)
}
