/** Small failure-carrying datatypes shared by the other modules. */
module Wrappers {

  /** A value that may be absent (JavaScript's `undefined`). */
  datatype Option<+T> = None | Some(value: T)

  /** The completion of a JavaScript call: a normal return, or a thrown error. */
  datatype Result<+T> = Ok(value: T) | Thrown(error: string)
}
