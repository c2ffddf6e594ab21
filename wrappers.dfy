/**
 * Values that stand for Java's null and for the exceptions the tracker's
 * classes throw.  An exception becomes an `Error`; the message of an
 * IllegalArgumentException becomes its `Reason`, so that the order in which a
 * constructor or setter checks its arguments stays observable.
 */
module Wrappers {

  /** A Java reference that may be null: `None` is null. */
  datatype Option<+T> = None | Some(value: T)

  /** The message carried by an IllegalArgumentException. */
  datatype Reason =
    | NullElement        // "Cannot add null element" / "Cannot set null element"
    | NegativeCapacity   // "Initial capacity cannot be negative"
    | NullProject        // "Project cannot be null" / "Projects cannot be null"
    | BlankClassName     // "Class name cannot be empty"
    | BlankDescription   // "Description cannot be empty"
    | BadDateFormat      // "Invalid date format. Use MM/dd/yyyy"
    | PastDueDate        // "Due date cannot be in the past"
    | BadTimeEstimate    // "Time estimate must be a positive number"
    | BadActualTime      // "Actual time must be a positive number"

  /** The exceptions of the source: IllegalArgumentException,
      IndexOutOfBoundsException (with the index and size it reports) and
      IllegalStateException. */
  datatype Error =
    | IllegalArgument(reason: Reason)
    | IndexOutOfBounds(index: int, size: int)
    | IllegalState

  /** Outcome of a `void` operation that may throw. */
  datatype Outcome = Pass | Fail(error: Error)

  /** Outcome of an operation that returns a value or throws. */
  datatype Result<+T> = Ok(value: T) | Err(error: Error)
}
