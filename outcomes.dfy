/** The exceptions the core raises, and what a call that may raise returns. */
module Outcomes {

  /** The Python exception a failing operation raises. */
  datatype Error =
    | KeyError(key: string)   // a dict lookup or `pop` on an absent key
    | IndexError              // a list index out of range (`grade_list[i]`, `data[0]`)
    | ValueError              // `int(...)` of a non-number, `min`/`max` of an empty list

  datatype Result<T> = Ok(value: T) | Err(error: Error)

  datatype Option<T> = None | Some(value: T)

  /**
   * What a mutating operation did: completed, declined with a printed
   * message and no change, or raised.
   */
  datatype Status = Done | Declined | Raised(error: Error)
}
