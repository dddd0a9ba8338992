/** Optional values, and results that carry a Python exception instead of a value. */
module Wrappers {

  datatype Option<+T> = None | Some(value: T)

  /** The Python exceptions the modelled code can raise. */
  datatype Error =
    | RuntimeError       // `raise RuntimeError` in the index re-derivation and pair judging
    | IndexError         // an out-of-range string index
    | ValueError         // `max` of an empty list
    | ZeroDivisionError  // a true division by zero

  datatype Result<+T> = Ok(value: T) | Err(error: Error)
}
