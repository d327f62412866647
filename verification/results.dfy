/** Failure-compatible wrappers shared by the model.

  The tool reports every configuration problem by printing a message and
  terminating the process.  The model returns that message in `Err` instead,
  so that callers (and proofs) can see which error would have been printed.
 */
module Results {

  /** A value that may be absent (a `null` default or a missing property). */
  datatype Option<+T> = None | Some(value: T)

  /** Either a computed value or the text of the fatal error the tool prints. */
  datatype Result<+T> = Ok(value: T) | Err(msg: string) {

    predicate IsFailure() {
      Err?
    }

    function PropagateFailure<U>(): Result<U>
      requires Err?
    {
      Err(msg)
    }

    function Extract(): T
      requires Ok?
    {
      value
    }
  }
}
