/** Option and Result datatypes used by the model's partial operations. */
module Wrappers {

  datatype Option<+T> = None | Some(value: T)

  datatype Result<+R, +E> = Success(value: R) | Failure(error: E)

  function Max(a: nat, b: nat): nat { if a < b then b else a }
}
