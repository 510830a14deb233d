/**
 * Failure-carrying wrappers shared by both realizations of the diff/patch
 * engine, and the fixed error kinds the engine raises.
 */
module Base {

  datatype Option<+T> = None | Some(value: T)

  /** The error kinds the engine throws; each aborts the current call. */
  datatype Error =
    | StructuralViolation   // a node whose path is not an immediate child of the container
    | EmptyPath             // splitting a zero-length path
    | TypeMismatch          // a container-only operation on a leaf / primitive value
    | InvalidOperationType  // replaying an operation whose tag the realization does not handle
    | RuntimeTypeError      // the runtime's own TypeError: `in` on a primitive, a property of `null`

  datatype Result<+T> = Ok(value: T) | Err(error: Error) {
    predicate IsFailure() { Err? }
    function PropagateFailure<U>(): Result<U> requires Err? { Err(error) }
    function Extract(): T requires Ok? { value }
  }

  /** The outcome of an operation that returns nothing in the source (`void`). */
  datatype Outcome = Pass | Fail(error: Error)
}
