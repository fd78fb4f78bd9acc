/** Option and Result: the failure-carrying values used where the simulator
    raises a fatal SimError or where the C++ library returns npos. */
module Results {

  datatype Option<+T> = None | Some(value: T)

  datatype Result<+T, +E> = Ok(value: T) | Err(error: E)
}
