/**
 The ReadSession and SuspendableReadSession interfaces of ReadSession.kt, as a session
 bound to one channel whose members meet the promises of the interfaces' documentation.
 The interfaces have no implementation in ReadSession.kt; the bodies here are the
 simplest ones with those promises, over a channel whose pending bytes form one region.
 */
module Sessions {
  import opened IoTypes
  import opened IoCore

  /** Bytes a default pooled chunk can hold: the bound "usually bigger than 4088" of await. */
  const DefaultChunkCapacity: nat := 4088

  /** await either completes with its answer, keeps waiting, or throws. */
  datatype AwaitOutcome = Completed(enough: bool) | Suspended | Failed(error: Throwable)

  class ChannelReadSession {
    const channel: ByteReadChannel
    const chunkCapacity: nat

    constructor (channel: ByteReadChannel, chunkCapacity: nat)
      ensures this.channel == channel && this.chunkCapacity == chunkCapacity
    {
      this.channel := channel;
      this.chunkCapacity := chunkCapacity;
    }

    /** availableForRead: the bytes pending, some of which a single request may not reach. */
    function AvailableForRead(): (r: int)
      reads channel
      ensures r >= 0
      ensures r == 0 <==> channel.pending == []
    {
      |channel.pending|
    }

    /**
     discard(n): discards at most n of the available bytes, 0 when none is available; on a
     channel closed with an exception or cancelled it discards nothing.
     */
    method Discard(n: nat) returns (r: nat)
      modifies channel
      ensures r <= n && r <= |old(channel.pending)|
      ensures old(channel.pending) == [] ==> r == 0
      ensures old(channel.failure).None? ==> r == Min(n, |old(channel.pending)|)
      ensures old(channel.failure).Some? ==>
        r == 0 && channel.pending == old(channel.pending) && channel.consumed == old(channel.consumed)
      ensures channel.pending == old(channel.pending)[r..]
      ensures channel.consumed + channel.pending == old(channel.consumed) + old(channel.pending)
      ensures channel.closed == old(channel.closed) && channel.failure == old(channel.failure)
      ensures channel.discardFailure == old(channel.discardFailure)
    {
      if channel.failure.Some? {
        return 0;
      }
      r := Min(n, |channel.pending|);
      assert channel.pending[..r] + channel.pending[r..] == channel.pending;
      channel.consumed := channel.consumed + channel.pending[..r];
      channel.pending := channel.pending[r..];
    }

    /**
     request(atLeast): a view of at least atLeast pending bytes held in one buffer, or none
     when fewer are available, when they cannot fit one buffer, or at end of stream with
     nothing left; throws when the channel was closed with an exception or cancelled.
     */
    function Request(atLeast: int := 1): (r: Result<Option<Span>>)
      reads channel
      ensures r.Err? <==> channel.failure.Some?
      ensures r.Err? ==> r.error == channel.failure.value
      ensures r == Ok(None) <==>
        && channel.failure.None?
        && (|channel.pending| < atLeast || atLeast > chunkCapacity || (channel.closed && channel.pending == []))
      ensures r.Ok? && r.value.Some? ==>
        var view := r.value.value;
        && atLeast <= |view.bytes| <= chunkCapacity
        && view.bytes <= channel.pending
        && view.start == 0 && view.endExclusive == |view.bytes|
    {
      if channel.failure.Some? then Err(channel.failure.value)
      else if |channel.pending| < atLeast || atLeast > chunkCapacity then Ok(None)
      else if channel.closed && channel.pending == [] then Ok(None)
      else
        var size := Min(|channel.pending|, chunkCapacity);
        Ok(Some(Span(channel.pending[..size], 0, size)))
    }

    /**
     await(atLeast): rejects a negative atLeast or one beyond a chunk's capacity; throws when
     the channel was closed with an exception or cancelled; true once atLeast bytes are
     available; false only at end of stream; otherwise it keeps waiting.
     */
    function Await(atLeast: int := 1): (r: AwaitOutcome)
      reads channel
      ensures atLeast < 0 || atLeast > chunkCapacity ==> r == Failed(IllegalArgument(atLeast))
      ensures 0 <= atLeast <= chunkCapacity ==>
        && (r.Failed? <==> channel.failure.Some?)
        && (r.Failed? ==> r.error == channel.failure.value)
      ensures r == Completed(true) <==>
        0 <= atLeast <= chunkCapacity && channel.failure.None? && |channel.pending| >= atLeast
      ensures r == Completed(false) <==>
        0 <= atLeast <= chunkCapacity && channel.failure.None? && channel.closed && |channel.pending| < atLeast
      ensures r == AwaitOutcome.Suspended <==>
        0 <= atLeast <= chunkCapacity && channel.failure.None? && !channel.closed && |channel.pending| < atLeast
    {
      if atLeast < 0 || atLeast > chunkCapacity then Failed(IllegalArgument(atLeast))
      else if channel.failure.Some? then Failed(channel.failure.value)
      else if |channel.pending| >= atLeast then Completed(true)
      else if channel.closed then Completed(false)
      else AwaitOutcome.Suspended
    }
  }

  /** A request that succeeds never asks for more than is available. */
  lemma RequestWithinAvailable(s: ChannelReadSession, atLeast: int)
    requires s.Request(atLeast).Ok? && s.Request(atLeast).value.Some?
    ensures atLeast <= s.AvailableForRead()
    ensures |s.Request(atLeast).value.value.bytes| <= s.AvailableForRead()
  {
  }

  /** Once await(atLeast) reports enough bytes for a positive atLeast, request(atLeast) yields a view. */
  lemma AwaitThenRequest(s: ChannelReadSession, atLeast: int)
    requires 1 <= atLeast && s.Await(atLeast) == Completed(true)
    ensures s.Request(atLeast).Ok? && s.Request(atLeast).value.Some?
  {
  }

  /** A channel fed 4 bytes and then failed with cause X: await(8) raises X. */
  lemma AwaitOnFailedChannel(s: ChannelReadSession, x: Throwable)
    requires s.chunkCapacity == DefaultChunkCapacity
    requires |s.channel.pending| == 4 && s.channel.failure == Some(x)
    ensures s.Await(8) == Failed(x)
  {
  }
}
