/** Option and Result, used for the places where the Python code returns None or raises. */
module Wrappers {

  datatype Option<+T> = None | Some(value: T)

  /** The exceptions the modelled code can raise, by Python class. */
  datatype Error =
    | ValueError(msg: string)
    | IndexError
    | KeyError
    | TypeError
    | Forbidden       // HTTPException(status_code=403)

  datatype Result<+T> = Success(value: T) | Failure(error: Error)
}
