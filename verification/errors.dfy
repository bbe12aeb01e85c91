/** Failure-carrying results shared by the ART node protocol.

    The node code signals two kinds of failure: an internal-invariant
    violation (an exception the engine treats as fatal) and a failed read
    from block storage. A third kind, a swizzled-pointer field that does not
    fit its half of the word, is raised only by the range-checked encoder.
 */
module ArtErrors {

  datatype Error =
    | InternalError(message: string)
    | IoError
    | OutOfRange

  datatype Result<+T> = Ok(value: T) | Err(error: Error) {

    predicate IsFailure() {
      Err?
    }

    function PropagateFailure<U>(): Result<U>
      requires Err?
    {
      Err(error)
    }

    function Extract(): T
      requires Ok?
    {
      value
    }
  }
}
