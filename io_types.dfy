/**
 Value types shared by the model of ktor-io's bulk-read protocol (ReadSession.kt):
 bytes, the exceptions that travel through `read`, the span a block is handed and
 what a block or a read can end with. Kotlin exceptions are modelled as values.
 */
module IoTypes {

  type byte = bv8

  datatype Option<+T> = None | Some(value: T)

  /** A call that either returns a value or throws. */
  datatype Result<+T> = Ok(value: T) | Err(error: Throwable)

  /** The exceptions the protocol distinguishes. */
  datatype Throwable =
    | NegativeBytesRead(bytesRead: int)  // IllegalStateException from `check(bytesRead >= 0)`
    | IllegalArgument(argument: int)     // IllegalArgumentException for a rejected size
    | Cause(id: nat)                     // any other exception: the block's, the channel's, a cancellation

  /** What a block sees: the bytes in [start, endExclusive) of the borrowed chunk's memory. */
  datatype Span = Span(bytes: seq<byte>, start: int, endExclusive: int)

  /** The caller's block either returns a consumed count (possibly negative) or throws. */
  datatype BlockOutcome = Consumed(count: int) | Threw(error: Throwable)

  /**
   `read` either returns a count, propagates an exception, or is still suspended in peekTo
   waiting for bytes (its block not yet called).
   */
  datatype ReadOutcome = Returned(count: int) | Raised(error: Throwable) | Suspended

  function Min(a: int, b: int): int
  {
    if a <= b then a else b
  }
}
