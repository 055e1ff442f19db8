# ktor-io bulk read: `ByteReadChannel.read` and its read-session contracts

This project models the bulk-read protocol of ktor-io's `ReadSession.kt`. `ByteReadChannel.read(desiredSize, block)` goes through these steps:

1. It borrows a chunk from `ChunkBuffer.Pool`.
2. It peeks pending channel bytes into that chunk without consuming them.
3. It calls the caller's `block` once on the chunk's `[readPosition, writePosition)` span.
4. It reconciles with `completeReadingFromBuffer`: it checks the block's count, releases the chunk and discards that many bytes from the channel.
5. If the block or the check throws, it completes with 0 and rethrows.

The model also states the contracts that the documentation of the `ReadSession` and `SuspendableReadSession` interfaces promises.

Files and modules:

- `io_types.dfy` (`IoTypes`): bytes, exceptions as values (`Throwable`), the span a block sees, block and read outcomes.
- `read_spec.dfy` (`ReadSpec`): the abstract state and the specification functions.
  - The abstract state is the channel's pending bytes, the bytes consumed so far and its fault flags, together with the pool's borrow/release ledger.
  - `ReadAsWritten` is one `read` exactly as the source runs it.
  - `ReadReleasingOnce` is the same operation with the chunk released exactly once on every path.
  - The module also holds runs of successive reads and the lemmas about them.
- `io_core.dfy` (`IoCore`): the collaborators that `read` calls, as classes with the contracts it relies on. These are `Buffer`/ChunkBuffer (cursors, `commitWritten`, `release`), `BufferPool` (`borrow`, the `Empty` sentinel) and `ByteReadChannel` (`peekTo`, `discard`).
- `read_session.dfy` (`ReadSession`): `requestBuffer`, `completeReadingFromBuffer` and `read` as imperative methods. Each method's effect on the channel and the pool is proved equal to the matching `ReadSpec` function.
- `sessions.dfy` (`Sessions`): `ReadSession`/`SuspendableReadSession` as a session bound to one channel: `availableForRead`, `discard`, `request` and `await`.

Model choices:

- The block is an arbitrary function from the span it is shown to either a count (possibly negative) or an exception.
- `peekTo` copies `copied` bytes, where `min(desiredSize, available, writeRemaining) <= copied <= min(available, writeRemaining)`. This follows its "at least min, at most max" contract. The specification functions take `copied` as a parameter, and the methods return it as a ghost value.
- Channel faults are two fields.
  - `failure` is what `peekTo`, `request` and `await` raise: a close with a cause, or a cancellation.
  - `discardFailure` is what `discard` raises, for example a cancellation at its suspension point.
- `peekTo` suspends while the channel is open, has not failed, and holds fewer than `min(desiredSize, writeRemaining)` pending bytes. This follows line 88, which passes `desiredSize` as `peekTo`'s `min`, and the promise at line 9 to await `desiredSize` bytes or end of stream. (A design description of the channel says `peekTo` waits only while no byte is pending; that is the same for the default `desiredSize` of 1.) A read that suspends ends in the model with outcome `Suspended`: its block has not been called, nothing is consumed, and its chunk is still lent.
- "Called exactly once" (the `callsInPlace(block, EXACTLY_ONCE)` contract) is stated as `calls == [span]`, where `calls` lists the spans the block was invoked on. This holds on every path where `requestBuffer` returned. When `peekTo` raises or suspends, the block is not called.
- "Released exactly once" holds for `read` as written only when `discard` does not raise. `ReadAsWritten` states this, and `ReadSpec.DiscardFailureReleasesTwice` exhibits the other case.

## Model

| member | source | states |
|---|---|---|
| `IoCore.BufferPool.Borrow` | ktor-io/common/src/io/ktor/utils/io/ReadSession.kt:85 | borrowing never fails; it yields a fresh chunk of the pool's capacity with both cursors at 0, adds it to the lent set and counts one borrow |
| `IoCore.ByteReadChannel.PeekTo` | ktor-io/common/src/io/ktor/utils/io/ReadSession.kt:86-90 | copies between min(desired, available, max) and min(available, max) pending bytes into the destination at the given offset; changes nothing else in the destination and nothing in the channel; raises the channel's failure instead; suspends, copying nothing, exactly when the channel is open and fewer than min(desired, max) bytes are pending |
| `IoCore.Buffer.CommitWritten` | ktor-io/common/src/io/ktor/utils/io/ReadSession.kt:92 | the write cursor advances by exactly the count, and the count is accepted exactly when it lies in [0, writeRemaining] |
| `IoCore.Buffer.Release` | ktor-io/common/src/io/ktor/utils/io/ReadSession.kt:101 | the chunk leaves the pool's lent set, one release is counted, and its cursors are reset |
| `IoCore.ByteReadChannel.Discard` | ktor-io/common/src/io/ktor/utils/io/ReadSession.kt:102 | consumes exactly min(max, pending) bytes from the front and returns that count, or raises the discard failure and changes nothing |
| `ReadSession.RequestBuffer` | ktor-io/common/src/io/ktor/utils/io/ReadSession.kt:83-94 | borrows one chunk; on success readPosition = 0 <= writePosition = copied <= capacity, where copied is within the peek bound (an oversized desiredSize is capped), the chunk's first copied bytes are the channel's first copied pending bytes, and the channel is untouched; a peekTo exception escapes with the chunk still lent, and so does a suspension, which happens exactly when the channel waits for bytes |
| `ReadSession.CompleteReadingFromBuffer` | ktor-io/common/src/io/ktor/utils/io/ReadSession.kt:96-104 | a negative count raises the check's exception and changes nothing; the Empty sentinel or a non-chunk buffer changes nothing; otherwise the chunk is released with both cursors reset to 0 and then bytesRead bytes are discarded, as `ReadSpec.Complete` |
| `ReadSession.Read` | ktor-io/common/src/io/ktor/utils/io/ReadSession.kt:20-40 | with desiredSize 1 by default, the outcome, the block's calls and the new channel and pool state are exactly `ReadSpec.ReadAsWritten` of the old state; the pool's lent set is restored when peekTo returns a count, and grows when it raises or suspends |
| `ReadSession.ReadWithSingleRelease` | ktor-io/common/src/io/ktor/utils/io/ReadSession.kt:28-37 | the corrected read: outcome and new state are `ReadSpec.ReadReleasingOnce`, and the pool's lent set is restored on every path except a suspension, which still holds its chunk |
| `ReadSpec.DiscardStep` | ktor-io/common/src/io/ktor/utils/io/ReadSession.kt:102 | discard removes exactly min(n, pending) bytes from the front and keeps consumed ++ pending unchanged, or raises and leaves the channel as it was |
| `ReadSpec.Complete` | ktor-io/common/src/io/ktor/utils/io/ReadSession.kt:97-103 | succeeds exactly when bytesRead >= 0 and the buffer is not pooled or discard does not raise; releases once exactly for a pooled buffer with a non-negative count; the Empty sentinel leaves everything unchanged; completing with 0 never changes the channel |
| `ReadSpec.ReadAsWritten` | ktor-io/common/src/io/ktor/utils/io/ReadSession.kt:20-40 | read suspends exactly when peekTo waits (an open channel holding fewer than min(desiredSize, room) bytes); it then holds its chunk, has not called the block and has consumed nothing. The block is called exactly once, on the first copied pending bytes, whenever peekTo returns a count. read returns exactly when the block returns n >= 0 and discard does not raise. It then returns n, discards exactly min(n, pending) bytes, which are the bytes the block saw when n <= copied, and releases once. A throwing block or a negative count releases once, discards nothing and raises the block's exception or the check's. A raising discard releases twice after a valid count. A raising peekTo leaks the chunk |
| `ReadSpec.ReadReleasingOnce` | ktor-io/common/src/io/ktor/utils/io/ReadSession.kt:28-37 | one borrow, and one release on every path except a suspension; it suspends exactly when `ReadAsWritten` does; only a read that returns changes the channel; the block is called exactly when peekTo returns a count; unless discard raises, it agrees with `ReadAsWritten` on outcome and channel, and equals it when peekTo returns a count and discard cannot raise |
| `ReadSpec.RunAsWritten` | ktor-io/common/src/io/ktor/utils/io/ReadSession.kt:20-40 | over any sequence of reads, issued until one suspends: only the last outcome can be `Suspended`, the run stops early only there, one borrow per read issued, consumed ++ pending preserved (bytes are consumed in production order), and when the channel has no fault every chunk is released except the one a suspended read holds |
| `ReadSpec.RunReleasingOnce` | ktor-io/common/src/io/ktor/utils/io/ReadSession.kt:28-37 | over any sequence of corrected reads, issued until one suspends: borrows grow by the number of reads issued and releases by the same number less the suspended read's chunk, whatever the channel's faults; consumed ++ pending is preserved |
| `ReadSpec.RunsAgree` | ktor-io/common/src/io/ktor/utils/io/ReadSession.kt:28-37 | unless discard raises, a run as written and a corrected run from the same channel give the same outcomes and the same final channel |
| `ReadSpec.DrainedChannelReadsZero` | ktor-io/common/src/io/ktor/utils/io/ReadSession.kt:9-18 | on a cleanly closed, empty channel, every read whose block consumes nothing of an empty span returns 0 without suspending, and the channel stays as it was, however many reads follow |
| `ReadSpec.OversizedDesiredSizeIsCapped` | ktor-io/common/src/io/ktor/utils/io/ReadSession.kt:13-15 | a desiredSize at or beyond the chunk's room allows exactly the copies that a desiredSize equal to the room allows, namely min(available, room) |
| `ReadSpec.OpenEmptyChannel` | ktor-io/common/src/io/ktor/utils/io/ReadSession.kt:84-90 | on an open channel with nothing pending, read(1) suspends before its block holding one chunk, while read(0) shows its block an empty span and returns 0 at once |
| `ReadSpec.TenBytesThenEndOfStream` | ktor-io/common/src/io/ktor/utils/io/ReadSession.kt:13-18 | 10 bytes and a clean close, with desiredSize 20: the block sees the 10 bytes, read returns 10 and drains the channel, and the next read returns 0 |
| `ReadSpec.ConsumeThreeOfFive` | ktor-io/common/src/io/ktor/utils/io/ReadSession.kt:31-33 | a block returning 3 on a 5-byte span makes read return 3, consume the first 3 bytes and leave the last 2 pending |
| `ReadSpec.PeekFailureLeaksChunk` | ktor-io/common/src/io/ktor/utils/io/ReadSession.kt:28 | on a channel closed with a cause, read raises that cause with one borrow and no release; the corrected read releases |
| `ReadSpec.DiscardFailureReleasesTwice` | ktor-io/common/src/io/ktor/utils/io/ReadSession.kt:32-35 | when discard raises after the block consumed a 3-byte span, read raises discard's exception after releasing the chunk twice; the corrected read releases once |
| `Sessions.ChannelReadSession.AvailableForRead` | ktor-io/common/src/io/ktor/utils/io/ReadSession.kt:44-48 | a non-negative count that is 0 exactly when nothing is pending |
| `Sessions.ChannelReadSession.Discard` | ktor-io/common/src/io/ktor/utils/io/ReadSession.kt:50-54 | returns a count between 0 and n, which is 0 when nothing is available and equals min(n, available) on a channel that has not failed; on a failed channel it discards nothing and returns 0; exactly the counted bytes leave the front of the channel |
| `Sessions.ChannelReadSession.Request` | ktor-io/common/src/io/ktor/utils/io/ReadSession.kt:56-67 | with atLeast 1 by default, throws exactly when the channel failed; returns null exactly when fewer than atLeast bytes are available, when atLeast exceeds one buffer, or at end of stream with nothing left; otherwise returns a view of at least atLeast bytes, at most one buffer's capacity, that is a prefix of the pending bytes |
| `Sessions.ChannelReadSession.Await` | ktor-io/common/src/io/ktor/utils/io/ReadSession.kt:72-80 | with atLeast 1 by default, a negative atLeast or one beyond a chunk's capacity is rejected with IllegalArgumentException; a failed channel throws its cause; returns true exactly when atLeast bytes are available; returns false exactly at end of stream with fewer; keeps waiting exactly while open with fewer |
| `Sessions.RequestWithinAvailable` | ktor-io/common/src/io/ktor/utils/io/ReadSession.kt:44-67 | a successful request never asks for, or returns, more than availableForRead |
| `Sessions.AwaitThenRequest` | ktor-io/common/src/io/ktor/utils/io/ReadSession.kt:56-80 | after await(atLeast) returns true for a positive atLeast, request(atLeast) yields a view |
| `Sessions.AwaitOnFailedChannel` | ktor-io/common/src/io/ktor/utils/io/ReadSession.kt:72-80 | on a channel fed 4 bytes and then failed with cause X, await(8) raises X |

## Left out

- Resuming a suspended coroutine. A `read` that suspends in `peekTo` ends with outcome `Suspended` holding its chunk, and `await` reports that it would keep waiting as `Suspended`. What happens when the producer later advances, or when the parked reader is cancelled (which would unwind through line 28 outside the `try`), and the scheduler are not modelled.
- The implementations of `ChunkBuffer.Pool`, `peekTo`, `discard`, `commitWritten` and `release` are not part of this model. The model keeps only the contracts `read` relies on. `Borrow` always allocates a fresh chunk, so free-list reuse, pool bounds and thread safety are not modelled.
- What the pool does when a chunk is released twice is not part of this model. The ledger only counts releases.
- The chunk's reserved start and end gaps are not modelled. A chunk's capacity stands for its usable bytes (4088 by default).
- The byte contents of `Memory` outside `[readPosition, writePosition)` are not modelled. Neither is a block that keeps the `Memory` beyond its call (the aliasing hazard). The block is shown only the bytes of its span.
- `HasReadSession.startReadSession`/`endReadSession` are left out: they are declarations with no behaviour. Exclusive-session enforcement is left out with them.
- Kotlin `Int`/`Long` widths are not modelled. `copied.toInt()` cannot truncate, because `copied` never exceeds `writeRemaining`, which is an `Int`.
- The `?: Buffer.Empty` at line 28 is never taken, because `requestBuffer` returns a non-null buffer. The Empty path of `completeReadingFromBuffer` is modelled on its own.
- `ReadSession.Read`: `desiredSize` is a `nat`. What the library's `peekTo` does with a negative `min` is not part of this model.
- `Sessions.ChannelReadSession.Discard`: `n` is a `nat`. The interface does not say what a negative `n` does.
- `Sessions.ChannelReadSession.Request`: the view never spans internal fragments. The model's request returns null for fragmentation only when `atLeast` exceeds one buffer.

## Findings

| source | as written | input that shows it | evidently intended | confidence | as-written member | corrected member |
|---|---|---|---|---|---|---|
| ktor-io/common/src/io/ktor/utils/io/ReadSession.kt:28 | `requestBuffer` borrows a chunk and calls `peekTo` outside the `try`, so an exception from `peekTo` escapes and the chunk is never released | a channel closed with a cause (or a cancelled reader) when `read` is called | the chunk is released on every exit path, as the `catch` does for the block | medium, not executed | `ReadSpec.PeekFailureLeaksChunk` | `ReadSpec.ReadReleasingOnce` |
| ktor-io/common/src/io/ktor/utils/io/ReadSession.kt:32-35 | `completeReadingFromBuffer` releases the chunk before `discard`; if `discard` throws, the `catch` completes again and releases the same chunk a second time | `discard` raising after a block that consumed its whole 3-byte span | the chunk is released exactly once | low (needs `discard` to throw), not executed | `ReadSpec.DiscardFailureReleasesTwice` | `ReadSpec.ReadReleasingOnce` |

Two members model `read` as written: `ReadSession.Read` and `ReadSpec.ReadAsWritten`. The corrected definition is `ReadSpec.ReadReleasingOnce` and its imperative form `ReadSession.ReadWithSingleRelease`. The run-level results use the corrected definition: `RunReleasingOnce` and `RunsAgree`.
