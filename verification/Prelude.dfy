/** Optional values, results of operations that may raise, and the smaller of two numbers. */
module Prelude {
  datatype Option<+T> = None | Some(value: T)

  /** Err stands for the exception of the source; its wording is not carried. */
  datatype Result<+T> = Ok(value: T) | Err

  function Min(a: nat, b: nat): nat { if a <= b then a else b }
}
