/** Optional values and results with an error, shared by the other modules. */
module Wrappers {

  /** `None` stands for JavaScript's `null` / `undefined` where the source uses them as "absent". */
  datatype Option<+T> = None | Some(value: T)

  datatype Result<+R, +E> = Ok(value: R) | Err(error: E)
}
