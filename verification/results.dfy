/** Failure-carrying results: the model's counterpart of the exceptions the
    source raises (WireError, QuantumFunctionError, IndexError). */
module Results {

  datatype Result<+T, +E> = Ok(value: T) | Err(error: E)

}
