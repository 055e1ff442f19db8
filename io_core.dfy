/**
 The collaborators `read` calls into, each reduced to the contract `read` relies on:
 a Buffer (ChunkBuffer when `isChunk`) with its cursors, the ChunkBuffer pool, and the
 read side of a ByteReadChannel with peekTo and discard. Their bodies are the simplest
 ones meeting those contracts; the library's own implementations are not part of this model.
 */
module IoCore {
  import opened IoTypes
  import opened ReadSpec

  /** A memory region with a read and a write cursor. */
  class Buffer {
    const memory: array<byte>
    const isChunk: bool
    var readPosition: int
    var writePosition: int

    ghost predicate Valid()
      reads this
    {
      0 <= readPosition <= writePosition <= memory.Length
    }

    function WriteRemaining(): int
      reads this
    {
      memory.Length - writePosition
    }

    constructor (capacity: nat, isChunk: bool)
      ensures Valid() && fresh(memory) && memory.Length == capacity
      ensures this.isChunk == isChunk && readPosition == 0 && writePosition == 0
    {
      memory := new byte[capacity];
      this.isChunk := isChunk;
      readPosition, writePosition := 0, 0;
    }

    /** commitWritten: moves the write cursor over `count` freshly written bytes; rejects a count outside [0, writeRemaining]. */
    method CommitWritten(count: int) returns (err: Option<Throwable>)
      requires Valid()
      modifies this
      ensures Valid()
      ensures err.None? <==> 0 <= count <= old(WriteRemaining())
      ensures readPosition == old(readPosition)
      ensures writePosition == old(writePosition) + (if err.None? then count else 0)
    {
      if count < 0 || count > memory.Length - writePosition {
        return Some(IllegalArgument(count));
      }
      writePosition := writePosition + count;
      return None;
    }

    /** release(pool): gives the chunk back to the pool, which resets its cursors. */
    method Release(pool: BufferPool)
      modifies this, pool
      ensures Valid() && readPosition == 0 && writePosition == 0
      ensures pool.lent == old(pool.lent) - {this}
      ensures pool.View() == Released(old(pool.View()))
    {
      readPosition, writePosition := 0, 0;
      pool.lent := pool.lent - {this};
      pool.releases := pool.releases + 1;
    }
  }

  /** ChunkBuffer.Pool, together with the shared ChunkBuffer.Empty sentinel. */
  class BufferPool {
    const chunkCapacity: nat
    const empty: Buffer
    var lent: set<Buffer>
    var borrows: nat
    var releases: nat

    ghost function View(): Ledger
      reads this
    {
      Ledger(borrows, releases)
    }

    constructor (chunkCapacity: nat)
      ensures this.chunkCapacity == chunkCapacity
      ensures empty.isChunk && empty.memory.Length == 0
      ensures lent == {} && borrows == 0 && releases == 0
    {
      this.chunkCapacity := chunkCapacity;
      empty := new Buffer(0, true);
      lent, borrows, releases := {}, 0, 0;
    }

    /** borrow: never fails; hands out a chunk of the pool's capacity with both cursors at 0. */
    method Borrow() returns (chunk: Buffer)
      modifies this
      ensures fresh(chunk) && fresh(chunk.memory)
      ensures chunk.isChunk && chunk.Valid() && chunk.memory.Length == chunkCapacity
      ensures chunk.readPosition == 0 && chunk.writePosition == 0
      ensures lent == old(lent) + {chunk}
      ensures View() == Borrowed(old(View()))
    {
      chunk := new Buffer(chunkCapacity, true);
      lent := lent + {chunk};
      borrows := borrows + 1;
    }
  }

  /** The read side of a ByteReadChannel. */
  class ByteReadChannel {
    var pending: seq<byte>
    ghost var consumed: seq<byte>
    var closed: bool
    var failure: Option<Throwable>
    var discardFailure: Option<Throwable>

    ghost function View(): ChannelState
      reads this
    {
      ChannelState(pending, consumed, closed, failure, discardFailure)
    }

    /**
     peekTo(destination, destinationOffset, offset, min, max): copies at least min and at
     most max of the bytes pending after `offset` into destination, without consuming them;
     raises the channel's failure instead when it has one. On an open channel with fewer
     than Min(min, max) such bytes it suspends (`Ok(None)`), copying nothing.
     */
    method PeekTo(destination: array<byte>, destinationOffset: int, offset: int, min: int, max: int)
      returns (r: Result<Option<nat>>)
      requires 0 <= destinationOffset && 0 <= offset && 0 <= min && 0 <= max
      requires destinationOffset + max <= destination.Length
      modifies destination
      ensures r.Err? <==> failure.Some?
      ensures r.Err? ==> r.error == failure.value
      ensures r == Ok(None) <==>
        failure.None? && !closed && (if offset <= |pending| then |pending| - offset else 0) < Min(min, max)
      ensures !(r.Ok? && r.value.Some?) ==> destination[..] == old(destination[..])
      ensures r.Ok? && r.value.Some? ==>
        var available := if offset <= |pending| then |pending| - offset else 0;
        var count := r.value.value;
        && PeekAllowed(min, available, max, count)
        && (forall i :: destinationOffset <= i < destinationOffset + count ==>
              destination[i] == pending[offset + i - destinationOffset])
        && (forall i :: 0 <= i < destination.Length && !(destinationOffset <= i < destinationOffset + count)
              ==> destination[i] == old(destination[i]))
    {
      if failure.Some? {
        return Err(failure.value);
      }
      var available := if offset <= |pending| then |pending| - offset else 0;
      if !closed && available < Min(min, max) {
        return Ok(None);
      }
      var count := Min(available, max);
      forall i | 0 <= i < count {
        destination[destinationOffset + i] := pending[offset + i];
      }
      return Ok(Some(count));
    }

    /** discard(max): consumes min(max, pending) bytes and returns that count, or raises the discard failure. */
    method Discard(max: int) returns (r: Result<int>)
      requires 0 <= max
      modifies this
      ensures r.Ok? ==> r.value == Min(max, |old(pending)|)
      ensures (if r.Ok? then None else Some(r.error), View()) == DiscardStep(old(View()), max)
    {
      if discardFailure.Some? {
        return Err(discardFailure.value);
      }
      var count := Min(max, |pending|);
      consumed := consumed + pending[..count];
      pending := pending[count..];
      return Ok(count);
    }
  }
}
