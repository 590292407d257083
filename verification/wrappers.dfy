/**
 * Failure-compatible result types shared by every container and algorithm of
 * the model. A Java method that either returns a value or throws is modelled
 * as a function returning `Result<T>`; the exception becomes an `Error`.
 */
module Wrappers {

  /** A nullable reference: `None` plays the role of Java's `null`. */
  datatype Option<+T> = None | Some(value: T)

  /** The exceptions thrown by the modelled code. */
  datatype Error =
    | EmptyHeapException            // heap minimum / deleteMinimum on an empty heap
    | NoSuchElementException        // minimum / maximum of an empty container or tree
    | IllegalArgumentException      // non-positive capacity, mismatched comparators
    | GraphException                // a vertex missing from a graph
    | EmptyPriorityQueueException   // first() on an empty priority queue
    | ArrayIndexOutOfBoundsException
    | NullPointerException

  datatype Result<+T> = Ok(value: T) | Err(error: Error) {
    predicate IsFailure() {
      Err?
    }

    function PropagateFailure<U>(): Result<U>
      requires Err?
    {
      Err(error)
    }

    function Extract(): T
      requires Ok?
    {
      value
    }
  }
}
