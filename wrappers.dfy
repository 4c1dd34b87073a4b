/** Failure-carrying results. The Python core signals failure by raising an
    exception; a model operation that can raise returns a `Result`. */
module Wrappers {

  datatype Option<+T> = None | Some(value: T)

  /** The Python exceptions the core can raise on a record of the wrong shape. */
  datatype Error =
    | AttributeError  // `.get` or `.startswith` called on a value that has no such method
    | TypeError       // a dictionary used where a string is needed

  datatype Result<+T> = Ok(value: T) | Raised(error: Error)
}
