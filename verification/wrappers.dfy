/** Small failure-aware datatypes shared by the cart model. */
module Wrappers {

  /** An optional value, as a lookup that may find nothing. */
  datatype Option<+T> = None | Some(value: T)

  /** The answer of a remote request. The cart code catches every failure
      that throws (a network error, an HTTP-status error, a body on which a
      field access throws) in one bare `catch`, so a failure carries no
      detail. */
  datatype Result<+T> = Ok(value: T) | Failed
}
