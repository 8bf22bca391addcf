/** Optional values (JavaScript `null`/`undefined` versus a present value) and
    results that either succeed or carry the exception the resolver throws. */
module Wrappers {

  datatype Option<+T> = None | Some(value: T)

  datatype Result<+T, +E> = Ok(value: T) | Err(error: E)
}
