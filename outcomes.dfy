/** Optional values and results with an error, as the register client uses them:
    `None` for an absent attribute or dictionary key, `Err` for an exception that
    propagates to the caller. */
module Outcomes {

  datatype Option<+T> = None | Some(value: T)

  datatype Result<+T, +E> = Ok(value: T) | Err(error: E)
}
