/** Failure values of the limit map.

    The Go code has no error returns: every misuse and every broken internal
    check ends in a panic. A panic is modelled as a `Fail` carrying the site
    that raised it, so that a proof can show which sites are unreachable.
 */
module Outcomes {

  /** One constructor per `panic` call of the package. */
  datatype Panic =
    | ZeroMax                // NewSemaphore(0): a semaphore that can never be acquired
    | ReleaseWithoutAcquire  // Semaphore.Release while its counter is zero
    | AcquireOverflow        // LimitMap.Acquire: the semaphore granted more than its max
    | KeyNotInMap            // LimitMap.Release of a key that has no entry
    | NegativeRefs           // LimitMap.Release drove the reference count below zero
    | ReleaseOverflow        // LimitMap.Release: the semaphore's result exceeds its max

  /** The outcome of a step that may panic. */
  datatype Result<+T> = Ok(value: T) | Fail(panic: Panic)

  /** A step that may be impossible (a trace that no execution produces). */
  datatype Option<+T> = None | Some(value: T)
}
