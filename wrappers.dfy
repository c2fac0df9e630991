/** Optional values and error-carrying results shared by the other modules. */
module Wrappers {

  datatype Option<T> = None | Some(value: T)

  datatype Result<T, E> = Ok(value: T) | Err(error: E)

  /** An HTTP error the handlers raise: status code and detail message. */
  datatype HttpError = HttpError(code: nat, detail: string)
}
