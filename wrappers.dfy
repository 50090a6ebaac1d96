/** Result and option types shared by the validators and the user store.
    A JavaScript `throw new Error(msg)` becomes `Err(msg)`; a returned value becomes `Ok(v)`. */
module Wrappers {

  datatype Option<+T> = None | Some(value: T)

  datatype Result<+T> = Ok(value: T) | Err(msg: string)

  /** A check that returns nothing on success (a JavaScript function that either
      returns `undefined` or throws). */
  datatype Outcome = Pass | Fail(msg: string)
}
