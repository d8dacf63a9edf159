/** Shared helper types: an optional value, standing for JavaScript's `null`/`undefined`. */
module Common {

  /** `None` stands for `null` or `undefined`; `Some(v)` for a present value. */
  datatype Option<+T> = None | Some(value: T)

}
