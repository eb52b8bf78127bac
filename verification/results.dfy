/**
 Failure-carrying values shared by every module of the booking engine.
 The source signals failures by raising exceptions; here a failure is a
 value tagged with the kind of precondition that was violated.
 */
module Results {

  /** The kinds of failure the booking engine can report. */
  datatype Error =
    | InvalidArgument        // an empty required string, a non-positive count, price or capacity
    | NotFound               // the referenced bus does not exist
    | InsufficientInventory  // more seats requested than are available
    | CorruptStore           // a persisted record lacks a field or holds a field of the wrong kind

  /** Either a value or the error that prevented computing it. */
  datatype Result<+T> = Ok(value: T) | Err(error: Error)

  /** A value that may be absent: an argument left at `None`, or a lookup that found nothing. */
  datatype Option<+T> = None | Some(value: T)
}
