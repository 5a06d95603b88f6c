/**
 * Result types for the code generator.  In the C code a fatal error calls
 * `codegen_error`, which long-jumps out of the whole compilation; here every
 * operation that can fail returns its failure explicitly, carrying the
 * message the C code would report.
 */
module Wrappers {

  datatype Option<T> = None | Some(value: T)

  /** A computation that either yields a value or fails with a message. */
  datatype Result<T> = Ok(value: T) | Fail(msg: string)
  {
    predicate IsFailure() {
      Fail?
    }

    function PropagateFailure<U>(): Result<U>
      requires Fail?
    {
      Fail(msg)
    }

    function Extract(): T
      requires Ok?
    {
      value
    }
  }

  /** A computation that yields nothing but may fail with a message. */
  datatype Outcome = Pass | Error(msg: string)
  {
    predicate IsFailure() {
      Error?
    }

    function PropagateFailure(): Outcome
      requires Error?
    {
      this
    }
  }
}
