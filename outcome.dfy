/** The two error kinds of the archive reader and the failure-compatible wrappers that carry them. */
module Outcome {

  /** IOFault: a short read or a stream fault. NotFound: a lookup that matched nothing.
      The reader never turns one into the other. */
  datatype Error = IOFault | NotFound

  /** Either a value or an error; usable with `:-`. */
  datatype Result<+T> = Ok(value: T) | Err(error: Error) {
    predicate IsFailure() {
      Err?
    }

    function PropagateFailure<U>(): Result<U>
      requires Err?
    {
      Err(error)
    }

    function Extract(): T
      requires Ok?
    {
      value
    }
  }

  datatype Option<+T> = None | Some(value: T)
}
