/** Optional values (Ruby's nil) and results (a Ruby exception that ends the run). */
module Wrappers {

  datatype Option<+T> = None | Some(value: T)

  datatype Result<+R, +E> = Success(value: R) | Failure(error: E)
}
