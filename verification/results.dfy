/** Failure values shared by every decoder. The Python original signals
    failure by raising; each raise site becomes an `Err` here. */
module Results {

  /** Why a decode failed.
      - StructError: `struct.unpack` was handed a slice of the wrong length
        (the field lies past the end of the buffer).
      - IndexError: a single-byte subscript lies past the end of the buffer.
      - CycleDetected: the cluster chain revisits a cluster; the original
        loops forever on such a table, the model stops and says so. */
  datatype Error = StructError | IndexError | CycleDetected

  /** A decoded value or the reason it could not be decoded; usable with `:-`. */
  datatype Result<+T> = Ok(value: T) | Err(error: Error) {

    predicate IsFailure() {
      Err?
    }

    function PropagateFailure<U>(): Result<U>
      requires Err?
    {
      Err(error)
    }

    function Extract(): T
      requires Ok?
    {
      value
    }
  }
}
