/**
 `ByteReadChannel.read`, `requestBuffer` and `completeReadingFromBuffer` of ReadSession.kt,
 as sequential methods over the pool, the channel and the borrowed chunk. A read that
 suspends in peekTo ends here with outcome `Suspended`, its chunk still lent; resuming it
 is not modelled. Each method's effect on the abstract state is stated as the
 corresponding function of module ReadSpec.
 */
module ReadSession {
  import opened IoTypes
  import opened ReadSpec
  import opened IoCore

  ghost function WorldOf(ch: ByteReadChannel, pool: BufferPool): World
    reads ch, pool
  {
    World(ch.View(), pool.View())
  }

  /** `buffer is ChunkBuffer && buffer !== ChunkBuffer.Empty` */
  predicate Releasable(pool: BufferPool, buffer: Buffer?)
  {
    buffer != null && buffer.isChunk && buffer != pool.empty
  }

  /**
   requestBuffer(desiredSize): borrows a chunk and peeks pending bytes into it, from
   channel offset 0 to the chunk's write cursor, at most writeRemaining of them, then
   commits what was copied. A peekTo exception escapes with the chunk still lent, and so
   does a suspension in peekTo (`Ok(None)`).
   */
  method RequestBuffer(ch: ByteReadChannel, pool: BufferPool, desiredSize: nat) returns (r: Result<Option<Buffer>>)
    modifies pool
    ensures pool.View() == Borrowed(old(pool.View()))
    ensures r.Err? <==> ch.failure.Some?
    ensures r.Err? ==> r.error == ch.failure.value
    ensures r == Ok(None) <==> PeekWaits(ch.View(), desiredSize, pool.chunkCapacity)
    ensures !(r.Ok? && r.value.Some?) ==> old(pool.lent) < pool.lent
    ensures r.Ok? && r.value.Some? ==>
      var chunk := r.value.value;
      && fresh(chunk) && chunk.isChunk && chunk != pool.empty && chunk.Valid()
      && pool.lent == old(pool.lent) + {chunk}
      && chunk.memory.Length == pool.chunkCapacity && chunk.readPosition == 0
      && PeekAllowed(desiredSize, |ch.pending|, pool.chunkCapacity, chunk.writePosition)
      && chunk.memory[..chunk.writePosition] == ch.pending[..chunk.writePosition]
  {
    var chunk := pool.Borrow();
    var copied := ch.PeekTo(chunk.memory, chunk.writePosition, 0, desiredSize, chunk.WriteRemaining());
    if copied.Err? {
      return Err(copied.error);
    }
    if copied.value.None? {
      return Ok(None);
    }
    var err := chunk.CommitWritten(copied.value.value);
    assert err.None?;  // peekTo never copies more than writeRemaining, so the commit cannot fail
    assert chunk.memory[..chunk.writePosition] == ch.pending[..chunk.writePosition] by {
      forall i | 0 <= i < chunk.writePosition
        ensures chunk.memory[i] == ch.pending[i]
      {
      }
    }
    return Ok(Some(chunk));
  }

  /**
   completeReadingFromBuffer(buffer, bytesRead): rejects a negative count; a ChunkBuffer
   other than the Empty sentinel is released to the pool and then bytesRead bytes are
   discarded from the channel. Either step's exception is returned.
   */
  method CompleteReadingFromBuffer(ch: ByteReadChannel, pool: BufferPool, buffer: Buffer?, bytesRead: int)
    returns (err: Option<Throwable>)
    modifies ch, pool, buffer
    ensures (err, WorldOf(ch, pool)) == Complete(old(WorldOf(ch, pool)), Releasable(pool, buffer), bytesRead)
    ensures pool.lent == if Releasable(pool, buffer) && bytesRead >= 0 then old(pool.lent) - {buffer} else old(pool.lent)
    ensures Releasable(pool, buffer) && bytesRead >= 0 ==> buffer.readPosition == 0 && buffer.writePosition == 0
    ensures !Releasable(pool, buffer) || bytesRead < 0 ==> unchanged(ch) && unchanged(pool) && (buffer != null ==> unchanged(buffer))
  {
    if bytesRead < 0 {
      return Some(NegativeBytesRead(bytesRead));
    }
    if buffer != null && buffer.isChunk && buffer != pool.empty {
      buffer.Release(pool);
      var discarded := ch.Discard(bytesRead);
      if discarded.Err? {
        return Some(discarded.error);
      }
    }
    return None;
  }

  /**
   read(desiredSize, block): requests a buffer, calls the block once on its
   [readPosition, writePosition) span, completes with the block's count and returns it; if
   the block throws or completing fails, completes with 0 and propagates the exception.
   `calls` lists the spans the block was invoked on; `copied` is the count peekTo chose.
   */
  method Read(ch: ByteReadChannel, pool: BufferPool, desiredSize: nat := 1, block: Span -> BlockOutcome)
    returns (outcome: ReadOutcome, calls: seq<Span>, ghost copied: nat)
    modifies ch, pool
    ensures PeekCompletes(old(ch.View()), desiredSize, pool.chunkCapacity) ==>
      PeekAllowed(desiredSize, |old(ch.pending)|, pool.chunkCapacity, copied)
    ensures ReadRun(outcome, calls, WorldOf(ch, pool))
         == ReadAsWritten(old(WorldOf(ch, pool)), desiredSize, pool.chunkCapacity, copied, block)
    ensures PeekCompletes(old(ch.View()), desiredSize, pool.chunkCapacity) ==> pool.lent == old(pool.lent)
    ensures !PeekCompletes(old(ch.View()), desiredSize, pool.chunkCapacity) ==> old(pool.lent) < pool.lent
  {
    ghost var w := WorldOf(ch, pool);
    calls, copied := [], 0;
    var requested := RequestBuffer(ch, pool, desiredSize);
    if requested.Err? {
      return Raised(requested.error), calls, copied;
    }
    if requested.value.None? {
      return Suspended, calls, copied;
    }
    var buffer := requested.value.value;
    copied := buffer.writePosition;
    ghost var lent := WorldOf(ch, pool);
    assert lent == w.(pool := Borrowed(w.pool));
    var span := Span(buffer.memory[buffer.readPosition..buffer.writePosition], buffer.readPosition, buffer.writePosition);
    assert span == PeekSpan(w.channel, copied);
    var result := block(span);
    calls := [span];
    match result {
      case Threw(e) =>
        var err := CompleteReadingFromBuffer(ch, pool, buffer, 0);
        outcome := Raised(if err.Some? then err.value else e);
      case Consumed(n) =>
        var err := CompleteReadingFromBuffer(ch, pool, buffer, n);
        if err.None? {
          outcome := Returned(n);
        } else {
          var again := CompleteReadingFromBuffer(ch, pool, buffer, 0);
          outcome := Raised(if again.Some? then again.value else err.value);
        }
    }
  }

  /**
   `read` with the chunk released exactly once on every path: the peek runs inside the
   region whose exceptions release the chunk, and the release that precedes discard is
   never repeated when discard raises. A read suspended in peekTo keeps its chunk.
   */
  method ReadWithSingleRelease(ch: ByteReadChannel, pool: BufferPool, desiredSize: nat := 1,
                               block: Span -> BlockOutcome)
    returns (outcome: ReadOutcome, calls: seq<Span>, ghost copied: nat)
    modifies ch, pool
    ensures PeekCompletes(old(ch.View()), desiredSize, pool.chunkCapacity) ==>
      PeekAllowed(desiredSize, |old(ch.pending)|, pool.chunkCapacity, copied)
    ensures ReadRun(outcome, calls, WorldOf(ch, pool))
         == ReadReleasingOnce(old(WorldOf(ch, pool)), desiredSize, pool.chunkCapacity, copied, block)
    ensures !outcome.Suspended? ==> pool.lent == old(pool.lent)
    ensures outcome.Suspended? ==> old(pool.lent) < pool.lent
  {
    ghost var w := WorldOf(ch, pool);
    calls, copied := [], 0;
    var chunk := pool.Borrow();
    var peeked := ch.PeekTo(chunk.memory, chunk.writePosition, 0, desiredSize, chunk.WriteRemaining());
    if peeked.Err? {
      chunk.Release(pool);
      return Raised(peeked.error), calls, copied;
    }
    if peeked.value.None? {
      return Suspended, calls, copied;
    }
    var err := chunk.CommitWritten(peeked.value.value);
    assert err.None?;
    copied := chunk.writePosition;
    var span := Span(chunk.memory[chunk.readPosition..chunk.writePosition], chunk.readPosition, chunk.writePosition);
    assert span.bytes == ch.pending[..copied] by {
      forall i | 0 <= i < copied
        ensures span.bytes[i] == ch.pending[i]
      {
      }
    }
    var result := block(span);
    calls := [span];
    chunk.Release(pool);
    match result {
      case Threw(e) =>
        outcome := Raised(e);
      case Consumed(n) =>
        if n < 0 {
          outcome := Raised(NegativeBytesRead(n));
        } else {
          var discarded := ch.Discard(n);
          outcome := if discarded.Ok? then Returned(n) else Raised(discarded.error);
        }
    }
  }
}
