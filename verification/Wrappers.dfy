/** Optional and failing results, and failures of the system. */
module Wrappers {

  datatype Option<+T> = None | Some(value: T)

  datatype Result<+T, +E> = Ok(value: T) | Err(error: E)

  /** Whether an operation of the system fails; on a healthy one none does. */
  method Fails(faulty: bool) returns (fails: bool)
    ensures !faulty ==> !fails
  {
    fails := *;
    fails := faulty && fails;
  }
}
