# Verified models of QUIC stream delivery and SVC playback

A Dafny model of the stateful core of a Media-over-QUIC publisher and subscriber: the streams, path MTU
search and identifier bookkeeping of its quic-go fork (`deps/quic-go`), and its own simulated playback of
scalable video, live timeline, dependency order and in-place sample rewriting (`internal`).
`dafny verify dfyconfig.toml` checks everything; nothing is assumed.

Code that changes state is modelled as classes with the source's fields and in-place arrays. Most classes
refine functions on values (`SorterSpec`, `MtuSpec`, `CryptoSpec`, `OutgoingSpec`, `PlaybackSpec`, `Sni`,
`Nalus`), and the properties of whole runs are proved about those functions or by methods that take an
arbitrary sequence of events.

| file | what it holds |
|---|---|
| `SorterSpec`, `SorterRuns`, `FrameSorter` | reassembly of overlapping byte ranges: specification, whole runs, the in-place algorithm |
| `Wire`, `SendStream`, `ReceiveStream`, `EndToEnd` | the two halves of a stream and a pair of them over a network that loses, repeats and reorders |
| `MtuSpec`, `MtuFinder` | the loss-tolerant search for the path MTU and its generations |
| `Sni`, `CryptoSpec`, `CryptoRuns`, `CryptoStream`, `CryptoEndToEnd` | parsing the ClientHello, sending it out of order, putting it together again |
| `OutgoingSpec`, `OutgoingStreams`, `IncomingStreams`, `ConnIds` | stream limits, the queue of waiting openers, stream credit, connection IDs |
| `PlaybackSpec`, `Playback` | layer choice, pacing and timer of the playback simulator |
| `Timeline`, `Asset`, `Dependencies`, `Nalus` | looping sample numbers and groups, loop lengths, dependency order, NALU rewriting |

## Main results

- **The ordered byte stream** (section 2.2 of RFC 9000): `EndToEnd.StreamPair.Run`, `ReadToEnd` and
  `CompletedMeansDelivered` over every run of the two streams; `SorterRuns.DeliversPrefix`,
  `EmptyReadMeansMissing`, `Tiling`, `NeverPanics`, `CallbacksConserved` over every run of the sorter, which
  `FrameSorter.Push` and `Pop` implement branch by branch.
- **The sending side**: `SendStreamObject.RunSteps` over every interleaving, resets included;
  `CancelAndSettle` and `StopAndSettle` say exactly when a reset stream completes.
- **MTU search**: `MtuSpec.Terminates`, `LogarithmicallyManyProbes`, `Accuracy`, and `ThreeLossesMislead`, which
  shows the bound is tight.
- **ClientHello**: `CryptoEndToEnd.CryptoPair.Transfer`, the round trip of two streams;
  `CryptoRuns.SentExactlyOnce`, `SendsEverything`, `NothingSpansASplit`, `ScrambledOrder`, `GetsPastIff` over
  every run, on top of the round trip `Sni.LocateForm`.
- **Identifiers**: `OutgoingSpec.RunKeepsInv`, `QueueIsServedInOrder`, `LimitIsLargest` and `RaisedLimitServes` (no
  lost wake-up, first come first served), `IncomingStreamsObject.Run`, `ConnIdManagerObject.Run`.
- **Playback**: `PlaybackObject.Run` with `LayersAreDecodable`, `NeverFasterThanRealTime`,
  `ArrivalOrderIsIrrelevant`; `Advance` acts exactly when `NextAdvanceDeadline` says.
- **Timeline and in-place code**: `Timeline.NoDrift`, `GroupsAlignedIff`, `Dependencies.DependencyOrder`,
  `Nalus.RewriteSample` with `FilterOfJoin`.

## Where the code does less than one would expect

Each is proved with the exact condition.

- A frame that ends at or above the maximum byte count panics in the sorter, and only such a frame
  (`FrameSorter.Push`).
- A frame of `MaxDataLen` bytes overruns its budget by two bytes from 16385 bytes of room on, and by six from
  2^30 on (`MaxDataLenFits`).
- A Write that waits with a short remainder when the stream is reset buffers it after the reset and reports
  success, and the stream never completes. CancelWrite does it, also with a reliable part, and so does
  STOP_SENDING (`CancelAndSettle`, `StopAndSettle`, `RunSteps`; `StrandedRun` is such a run).
- MTU feedback is recognised by an 8-bit generation; a comment in the source rules out overflow. Feedback
  that is 256 path migrations late is taken for current and can panic (`Happen`, `StaleFeedbackPanics`,
  `FewMigrations`). Another comment there speaks of 10 bytes below the MTU, the constant is 20; the model
  has 20.
- Bytes of the ClientHello are sent twice when the two cuts overlap, which with a host name takes a very short
  encrypted hello right before it (`SentExactlyOnce`, `TwiceIff`), or after an empty write between the cuts
  (`WriteKeepsBooksIff`). With an empty host name the stream announces data but never gets past the cut; with an
  encrypted hello and no usable name it never sends anything (`GetsPastIff`, `Stalls`, and `SendableIff` for
  well-formed ones).
- A receiver refuses handshake data beyond 16 KiB, so a longer ClientHello is never put together (`Transfer`).
- Opening an incoming stream, or closing once more, after the channel was closed panics; nothing panics before
  (`GetOrOpenStream`, `CloseChannel`, `IncomingStreamsObject.Run`).
- With one AcceptStream call at a time no wake-up is lost (`IncomingStreamsObject.Run`); with two it can be
  (`LostWakeup`).
- A connection ID number that arrives again after it left the queue breaks the one-place rule, and only
  such a number (`ConnIdManager.Add`). A second reset token for the initial ID is never removed
  (`SetStatelessResetToken`).
- `setLoopDuration` multiplies in 32 bits: the loop length is right exactly when a thousand times the first
  duration is below 2^32, which 48 seconds at 90 kHz already exceed (`LoopLengthIff`, `OneMinuteOverflows`).
- It also rounds the loop of audio outside the first group down to whole time units. Unless nothing is lost by
  that, such a track drifts away from the others without bound (`LoopsStayTogetherIff`, `AudioDrifts`).
- A validated AV1 SVC track has one sync sample at the start of each group exactly when the GOP length
  divides its sample count, which validation does not check (`GroupsAlignedIff`).
- A NALU of length zero in an HEVC sample, after any number of others, is an access out of range and not an
  error, and only that is (`RewriteSample`, `OutcomeIff`, `FourZeroBytes`).
- Playback times are exact below 2^63 microseconds and nanoseconds, and only there (`TimesAreExactIff`).

## Model

| member | source | states |
|---|---|---|
| `SorterRuns.DeliversPrefix` | deps/quic-go/frame_sorter.go:56-232 | Over every run of pushes and pops whose frames agree with one byte stream, in any order and with any overlaps, what was popped is exactly the first `readPos` bytes of the stream and everything queued matches it. |
| `SorterRuns.EmptyReadMeansMissing` | deps/quic-go/frame_sorter.go:220-232 | Over every run, Pop comes back empty if and only if no frame ever carried the byte at `readPos`. |
| `SorterRuns.GapsAreMissingBytes` | deps/quic-go/frame_sorter.go:56-178 | Over every run, a byte lies in a gap if and only if no frame carried it: the gap list is an exact record of what is missing. |
| `SorterRuns.CompleteReassembly` | deps/quic-go/frame_sorter.go:56-232 | Once frames carrying every byte below n have been pushed, in any order, popped bytes plus the bytes still to be popped contain the first n bytes of the stream and nothing that is not in it. |
| `SorterRuns.DrainReachesFirstGap` | deps/quic-go/frame_sorter.go:220-232 | Popping until empty yields exactly the bytes from `readPos` to the first gap. |
| `SorterRuns.Tiling` | deps/quic-go/frame_sorter.go:56-178 | Above `readPos` each byte is either in a gap or in exactly one queue entry, never in both and never in two. |
| `SorterRuns.CallbacksConserved` | deps/quic-go/frame_sorter.go:45-232 | Over every error-free run, each release callback handed in equals the calls made, plus the times it was handed out by Pop, plus the queue entries that hold it: none is lost and none is called twice. |
| `SorterRuns.NeverPanics` | deps/quic-go/frame_sorter.go:56-232 | No run whose frames all end below the maximum byte count reaches any of the three panics. |
| `SorterRuns.PopKeepsInv` | deps/quic-go/frame_sorter.go:220-232 | Pop keeps the invariant, cannot panic, and is empty if and only if `readPos` is in a gap. |
| `SorterRuns.PushMatches` | deps/quic-go/frame_sorter.go:45-178 | Pushing data that agrees with a stream leaves a queue that agrees with it, through every cut and replacement. |
| `SorterRuns.StoreHolders` | deps/quic-go/frame_sorter.go:85-178 | Replacing the entries in a range conserves each callback: holders after plus entries released equals holders before plus the new one. |
| `SorterRuns.PopConservesCallbacks` | deps/quic-go/frame_sorter.go:220-232 | Pop passes on the callback of the entry it removes and touches no other. |
| `SorterSpec.PushKeepsInv` | deps/quic-go/frame_sorter.go:45-178 | A successful push keeps the invariant: gaps sorted, non-empty and non-adjacent, last gap open-ended, entries disjoint from each other and from gaps, each entry followed by an entry or a gap. |
| `SorterSpec.PushFillsGaps` | deps/quic-go/frame_sorter.go:56-178 | After a push, the missing bytes are exactly the previously missing ones outside the frame. |
| `SorterSpec.PushHitsGapLimit` | deps/quic-go/frame_sorter.go:153-174 | The too-many-gaps error is returned if and only if the list is full and the frame lies strictly inside one gap. |
| `SorterSpec.PushCases` | deps/quic-go/frame_sorter.go:56-178 | What each outcome leaves behind: duplicates and panics change nothing; otherwise one entry with both ends at a gap or entry boundary replaces everything between them, and the error case has already changed the gaps and dropped the entries. |
| `SorterSpec.CopyRule` | deps/quic-go/frame_sorter.go:162-170 | A stored frame is copied and its buffer released at once if and only if less than 128 bytes of it are stored and it was shortened, or it repeats received bytes only right behind a gap; otherwise the entry keeps its callback. |
| `SorterSpec.PlacedFacts` | deps/quic-go/frame_sorter.go:68-147 | The stored part of a frame begins and ends where a gap or an entry begins, stays within the frame and above `readPos`, and contains every missing byte of the frame. |
| `SorterSpec.SkippedIsKnown` | deps/quic-go/frame_sorter.go:64-104 | A frame dropped as a duplicate carries no missing byte. |
| `SorterSpec.StoreKeepsInv` | deps/quic-go/frame_sorter.go:114-178 | Replacing everything between two boundaries by one entry and removing the range from the gaps keeps the invariant. |
| `SorterSpec.SubtractInGap` | deps/quic-go/frame_sorter.go:120-160 | Removing a range from the gap list removes exactly the bytes of that range. |
| `SorterSpec.SubtractSorted` | deps/quic-go/frame_sorter.go:120-160 | Removing a range keeps the gaps sorted, apart and non-empty, and keeps the open end. |
| `SorterSpec.SubtractLength` | deps/quic-go/frame_sorter.go:142-160 | Removing a range adds at most one gap, and adds one if and only if the range is strictly inside a gap. |
| `SorterSpec.PlacedSplits` | deps/quic-go/frame_sorter.go:68-160 | A frame splits a gap if and only if the part of it that is stored does. |
| `FrameSorterObject.FrameSorter.constructor` | deps/quic-go/frame_sorter.go:36-43 | A new sorter has one gap, from zero to the maximum, and satisfies the invariant. |
| `FrameSorterObject.FrameSorter.FindStartGap` | deps/quic-go/frame_sorter.go:180-190 | Finds the first gap that does not end before the offset, and tells whether the offset is inside it. |
| `FrameSorterObject.FrameSorter.FindEndGap` | deps/quic-go/frame_sorter.go:192-202 | Finds the last gap that starts at or before the offset, and tells whether the offset is inside it. |
| `FrameSorterObject.FrameSorter.DeleteConsecutive` | deps/quic-go/frame_sorter.go:205-218 | Removes exactly the unbroken run of entries from a position, calling each callback once. |
| `FrameSorterObject.FrameSorter.ReplaceFrames` | deps/quic-go/frame_sorter.go:85-112 | Recognises a duplicate, or removes the run of old entries that the new frame replaces, and reports where an old longer entry forces a cut. |
| `FrameSorterObject.FrameSorter.DropCovered` | deps/quic-go/frame_sorter.go:132-140 | Removes every gap strictly between the first and the last touched one together with the entries between them. |
| `FrameSorterObject.FrameSorter.Carve` | deps/quic-go/frame_sorter.go:120-160 | Through all adjust, split and remove branches on the first and the last gap, the list ends up as the old one minus the placed range, and the entries in that range are gone with their callbacks called. |
| `FrameSorterObject.FrameSorter.Locate` | deps/quic-go/frame_sorter.go:68-76 | The two searches together: found if and only if the frame ends below the maximum. |
| `FrameSorterObject.FrameSorter.Fill` | deps/quic-go/frame_sorter.go:68-178 | Everything after the two searches: state, outcome and callbacks are those of the specification. |
| `FrameSorterObject.FrameSorter.QueueRest` | deps/quic-go/frame_sorter.go:162-178 | Cuts the frame to the placed range (copying and calling the callback when cut), checks the gap limit and stores the entry. |
| `FrameSorterObject.FrameSorter.Insert` | deps/quic-go/frame_sorter.go:56-178 | The whole of `push` refines the specification, including the order of the checks. |
| `FrameSorterObject.FrameSorter.Push` | deps/quic-go/frame_sorter.go:45-54 | The branching in-place algorithm computes the same state and outcome as the specification and calls each callback exactly as often; the invariant is kept on success; the gap searches panic if and only if the frame carries data and ends at or above the maximum byte count. |
| `FrameSorterObject.FrameSorter.Pop` | deps/quic-go/frame_sorter.go:220-232 | Returns the entry at `readPos` with its callback, advances, keeps the invariant and never reaches the panic. |
| `FrameSorterObject.FrameSorter.HasMoreData` | deps/quic-go/frame_sorter.go:235-237 | True if and only if something is queued. |
| `FrameSorterObject.FrameSorter.Peek` | deps/quic-go/frame_sorter.go:245-274 | Returns n bytes of the stream across entry boundaries, or nothing if and only if no entry starts at the offset or one of the n bytes is missing. |
| `Wire.MaxDataLenFits` | deps/quic-go/internal/wire/stream_frame.go:136-154 | Every frame within MaxDataLen fits its budget if and only if fewer than 16385 bytes are left after the header and one length byte; from there on a frame of exactly MaxDataLen bytes overruns the budget by two bytes, and by six from 2^30 bytes on. |
| `Wire.MaxDataLenMaximal` | deps/quic-go/internal/wire/stream_frame.go:136-154 | A frame with one byte more than MaxDataLen never fits, and MaxDataLen is positive if and only if a frame of one byte fits. |
| `Wire.CryptoMaxDataLenMaximal` | deps/quic-go/internal/wire/crypto_frame.go:54-66 | The same of the limit for CRYPTO frames. |
| `Wire.SplitOff` | deps/quic-go/internal/wire/stream_frame.go:161-187 | Splitting gives the longest non-empty prefix that fits the budget and a non-empty suffix carrying the FIN, adjacent and together equal to the frame; nothing is split off if and only if not one byte fits. |
| `SendStreamObject.RunSteps` | deps/quic-go/send_stream.go:107-768 | Over every interleaving of writes, frame pops, closes, cancellations, STOP_SENDING, reset frames, acks and losses: the outstanding-frame counter is never negative, completion is reported at most once, and without a reset exactly when every accepted byte and the FIN are acknowledged; a stranded stream stays stranded until shutdown or until STOP_SENDING drops its reliable part. |
| `SendStreamObject.CancelAndSettle` | deps/quic-go/send_stream.go:476-540 | CancelWrite with any reliable size, the waiting Write waking up, everything sent and acknowledged: the stream completes if and only if no Write was waiting whose remainder fits into one frame together with what is kept of the buffered one and reaches beyond the reliable size; then the whole reliable part is acknowledged. Otherwise that Write reports success and the stream is stranded. |
| `SendStreamObject.StopAndSettle` | deps/quic-go/send_stream.go:561-591 | The same for STOP_SENDING, also after a partial reset: it completes if and only if no Write was waiting with 1 to 1452 bytes left. |
| `SendStreamObject.RunToCompletion` | deps/quic-go/send_stream.go:385-411 | A reset stream that is not stranded completes once all that may be sent is sent and acknowledged, from every state, with every reliable byte acknowledged. |
| `SendStreamObject.StrandedRun` | deps/quic-go/send_stream.go:135-211 | Stranding happens: from a fresh stream, by CancelWrite with and without a reliable part and by STOP_SENDING, with a Write that reports all of its 1000 bytes. |
| `SendStreamObject.WaitBehindFrame` | deps/quic-go/send_stream.go:135-198 | A fresh stream comes to have a Write waiting behind a frame that is not full. |
| `SendStreamObject.SendRest` | deps/quic-go/send_stream.go:240-308 | Asking for frames sends everything that may still be sent, after finitely many frames. |
| `SendStreamObject.SendStream.CompletedIffFinished` | deps/quic-go/send_stream.go:385-411 | Without a reset, completion has been reported if and only if all bytes and the FIN are acknowledged and nothing is queued or in flight. |
| `SendStreamObject.SendStream.NothingLeft` | deps/quic-go/send_stream.go:385-411 | Without a reset the counter equals the frames in flight, and the completion test implies that every accepted byte and the FIN were acknowledged. |
| `SendStreamObject.SendStream.constructor` | deps/quic-go/send_stream.go:66-83 | A new stream satisfies the invariant, has accepted, buffered and sent nothing, and has no reliable part. |
| `SendStreamObject.SendStream.IsNewlyCompleted` | deps/quic-go/send_stream.go:385-411 | Reports completion at most once, never with a reset still queued; without a reset only when everything is acknowledged, with a partial one only when every reliable byte that was sent is. |
| `SendStreamObject.SendStream.BeginWrite` | deps/quic-go/send_stream.go:107-128 | A Write starts if and only if the stream is open, not closed and the data not empty; its bytes extend the accepted bytes. |
| `SendStreamObject.SendStream.StartWrite` | deps/quic-go/send_stream.go:107-198 | A Write up to where it returns or waits: data that fits into the buffered frame is taken at once and in order, other data waits, nothing is taken from a closed or reset stream. |
| `SendStreamObject.SendStream.WritePass` | deps/quic-go/send_stream.go:135-198 | One turn of the write loop: a remainder that fits is buffered whole after the bytes already buffered and the call returns its full length; otherwise the call waits or returns what was taken, which after a reset is what was sent or buffered. |
| `SendStreamObject.SendStream.BufferRest` | deps/quic-go/send_stream.go:143-159 | The remainder is appended to the buffered frame, in order, and no byte of the call stays behind. |
| `SendStreamObject.SendStream.FinishWrite` | deps/quic-go/send_stream.go:200-211 | Without a reset a Write returns its full length. |
| `SendStreamObject.SendStream.WriteTimeout` | deps/quic-go/send_stream.go:160-167 | A Write that times out returns exactly how many of its bytes remain accepted, and those are a prefix of what it was given. |
| `SendStreamObject.SendStream.PopStreamFrame` | deps/quic-go/send_stream.go:223-308 | A frame is returned if and only if something may be sent; lost frames go first, new data continues at the write offset; every frame fits the room unless it is the bare FIN, and holds all there is to send, all the window and the reliable size allow, or so much that one byte more would not fit; the FIN is on it if and only if it reaches the end of a finished stream; no accepted byte is lost or repeated; each frame leaves less to send, and has-more is denied only when nothing can be sent whatever the room and the window. |
| `SendStreamObject.SendStream.SendRetransmission` | deps/quic-go/send_stream.go:359-367 | Resends the oldest lost frame, or a prefix of it to which one byte more would not fit; the rest stays at the head of the queue. |
| `SendStreamObject.SendStream.SendNew` | deps/quic-go/send_stream.go:276-383 | Takes the next bytes from the buffered frame or from the waiting Write, in order; as many as there are, as the window and the reliable size allow, or such that one more would not fit the room; with the FIN if and only if nothing is left of a finished stream; has-more is denied only when no byte and no FIN is left. |
| `SendStreamObject.SendStream.SendFin` | deps/quic-go/send_stream.go:263-274 | The FIN in a frame of its own at the end of the data, once. |
| `SendStreamObject.SendStream.Close` | deps/quic-go/send_stream.go:417-441 | Marks the stream finished unless it was shut down, and reports completion at most once. |
| `SendStreamObject.SendStream.SetReliableBoundary` | deps/quic-go/send_stream.go:447-455 | The reliable size becomes everything accepted and packed so far: bytes sent plus the buffered frame. |
| `SendStreamObject.SendStream.CancelWrite` | deps/quic-go/send_stream.go:476-540 | Keeps the first reset code; queues exactly one reset with the final and the reliable size; the buffered frame and the queued ones are cut at the reliable size, or dropped without one; the counter stays exact; a second call changes nothing but the flag. |
| `SendStreamObject.SendStream.TruncateQueues` | deps/quic-go/send_stream.go:510-535 | With a reliable size, buffered and queued frames are exactly the old ones cut at the boundary, and every byte below it is still tracked. |
| `SendStreamObject.SendStream.Abandon` | deps/quic-go/send_stream.go:495-509 | Dropping everything resets the counter and queues one reset frame without a reliable part. |
| `SendStreamObject.SendStream.HandleStopSendingFrame` | deps/quic-go/send_stream.go:561-591 | After STOP_SENDING nothing is reliable any more, even if an earlier reset had a reliable part: buffered and queued frames are gone, a plain reset with the first error code is queued; after a full reset or shutdown nothing changes. |
| `SendStreamObject.SendStream.GetControlFrame` | deps/quic-go/send_stream.go:593-607 | Hands out the queued reset once and counts it. |
| `SendStreamObject.SendStream.CloseForShutdown` | deps/quic-go/send_stream.go:641-650 | Drops buffered and queued frames and blocks sending unless the stream was already finished. |
| `SendStreamObject.SendStream.OnAcked` | deps/quic-go/send_stream.go:664-683 | The counter never becomes negative, the frame moves from in flight to acknowledged, and completion is reported at most once. |
| `SendStreamObject.SendStream.OnLost` | deps/quic-go/send_stream.go:685-726 | A lost frame goes to the end of the queue whole, or cut at the reliable size and without FIN, or is dropped above it; the counter never becomes negative. |
| `SendStreamObject.SendStream.ResetOnAcked` | deps/quic-go/send_stream.go:732-752 | An acknowledged reset is taken off the count only where it was counted; the counter never becomes negative, including when STOP_SENDING replaced an earlier partial reset. |
| `SendStreamObject.SendStream.ResetOnLost` | deps/quic-go/send_stream.go:754-768 | A lost reset is queued again if and only if it still describes the current reliable size. |
| `SendStreamObject.SendConserves` | deps/quic-go/send_stream.go:276-383 | Taking a frame keeps: accepted bytes are the sent prefix, then the buffered frame, then the waiting remainder; every byte below the write offset is acknowledged, in flight or queued. |
| `SendStreamObject.ResendKeepsTrack` | deps/quic-go/send_stream.go:359-367 | Resending part of a frame loses track of no byte and of no FIN. |
| `SendStreamObject.TruncatedCover` | deps/quic-go/send_stream.go:510-535 | Cutting the tracked frames at a limit keeps every byte below the limit tracked. |
| `SendStreamObject.CancelBooks` | deps/quic-go/send_stream.go:476-540 | Cancelling with a reliable part keeps the books for the reliable bytes. |
| `ReceiveStreamObject.ReceiveStream.constructor` | deps/quic-go/receive_stream.go:60-74 | A new stream satisfies the invariant and has read nothing. |
| `ReceiveStreamObject.ReceiveStream.Read` | deps/quic-go/receive_stream.go:84-106 | What was read is always a prefix of the stream; EOF only after exactly the final-offset number of bytes; a short or blocked read only where the next byte is missing or the stream was cancelled or shut down; an interrupted stream is refused with its reason; EOF and the reset error, and nothing else, count as read to the end and complete a stream whose final size is known; completion at most once. |
| `ReceiveStreamObject.ReceiveStream.ReadImpl` | deps/quic-go/receive_stream.go:129-233 | The read loop across frame boundaries: the bytes returned continue the stream without gap or repetition, a stop has one of the reasons above, and the end is noted if and only if EOF or a cancellation was returned. |
| `ReceiveStreamObject.ReceiveStream.ReadStep` | deps/quic-go/receive_stream.go:145-226 | One turn of the loop copies at least one byte or stops for a stated reason. |
| `ReceiveStreamObject.ReceiveStream.DequeueNextFrame` | deps/quic-go/receive_stream.go:356-365 | The next frame is present if and only if the next byte is not missing, and it is the last one if and only if it ends at the known final offset. |
| `ReceiveStreamObject.ReceiveStream.Copy` | deps/quic-go/receive_stream.go:190-213 | Copies as many bytes as both sides have and moves both positions by that number. |
| `ReceiveStreamObject.ReceiveStream.Peek` | deps/quic-go/receive_stream.go:246-354 | Peeked bytes are the next bytes of the stream and none is consumed; n bytes on success, up to the final offset on EOF, up to the reliable size on a remote reset, nothing only where a byte is missing. |
| `ReceiveStreamObject.ReceiveStream.PeekFrame` | deps/quic-go/receive_stream.go:284-328 | The same with a frame at hand: bytes of the frame followed by bytes still queued. |
| `ReceiveStreamObject.ReceiveStream.PeekTo` | deps/quic-go/receive_stream.go:305-327 | Joins the rest of the current frame and queued bytes, or reports a missing byte within the range. |
| `ReceiveStreamObject.ReceiveStream.PeekAhead` | deps/quic-go/receive_stream.go:292-298 | The queued bytes after the current frame, or nothing if and only if one is missing. |
| `ReceiveStreamObject.ReceiveStream.UpdateHighestReceived` | deps/quic-go/internal/flowcontrol/stream_flow_controller.go:49-99 | Each error exactly when the frame contradicts a known final size or exceeds the window; otherwise the highest offset and the final size are recorded and never change once final. |
| `ReceiveStreamObject.ReceiveStream.HandleStreamFrame` | deps/quic-go/receive_stream.go:403-414 | An accepted frame removes exactly its bytes from the missing ones; a final-size error if and only if it contradicts what is known; completion is reported at most once. |
| `ReceiveStreamObject.ReceiveStream.HandleStreamFrameImpl` | deps/quic-go/receive_stream.go:416-432 | The same before completion is checked; the gap limit is the only other failure. |
| `ReceiveStreamObject.ReceiveStream.CancelRead` | deps/quic-go/receive_stream.go:371-401 | STOP_SENDING is queued exactly on the first cancellation of a stream that has neither ended, nor been reset, nor been shut down. |
| `ReceiveStreamObject.ReceiveStream.HandleResetStreamFrame` | deps/quic-go/receive_stream.go:434-476 | A reset fixes the final size, fails if and only if it contradicts a known one, and sets the reliable size, which a later reset can only lower. |
| `ReceiveStreamObject.ReceiveStream.IsNewlyCompleted` | deps/quic-go/receive_stream.go:108-127 | Completion at most once, and only with a known final offset after a read error or a local cancellation. |
| `ReceiveStreamObject.ReceiveStream.CloseForShutdown` | deps/quic-go/receive_stream.go:515-520 | Marks the stream shut down and consumes nothing. |
| `EndToEnd.StreamPair.Run` | deps/quic-go/send_stream.go:107-383 | Over every run of writes, pops, losses, retransmissions, duplicated and reordered deliveries, acks and reads, what Read returned is a prefix of what Write accepted; at EOF it is all of it and the FIN was sent; once the sender has completed the receiver is missing no byte. |
| `EndToEnd.StreamPair.Happen` | deps/quic-go/receive_stream.go:129-233 | The same for each single event, and bytes accepted do not change once the FIN is sent. |
| `EndToEnd.StreamPair.ReadIsPrefix` | deps/quic-go/receive_stream.go:129-233 | In every reachable state the bytes read are a prefix of those accepted, and equal to them when the final offset is reached. |
| `EndToEnd.StreamPair.CompletedMeansDelivered` | deps/quic-go/send_stream.go:385-411 | When the sender reports completion the receiver knows the final size and holds every accepted byte. |
| `EndToEnd.StreamPair.ReadToEnd` | deps/quic-go/receive_stream.go:129-233 | After completion, reading with any buffer size returns every remaining byte and then ends. |
| `EndToEnd.StreamPair.OnWire` | deps/quic-go/send_stream.go:240-383 | Every frame ever sent agrees with the bytes accepted, and a FIN is only sent at their end. |
| `EndToEnd.StreamPair.Deliver` | deps/quic-go/receive_stream.go:403-432 | Delivering any frame ever sent, again or out of order, contradicts no final size and keeps the pair consistent. |
| `EndToEnd.StreamPair.Read` | deps/quic-go/receive_stream.go:84-106 | Reads extend the prefix; with the sender completed a read never blocks and comes up short only at the end. |
| `EndToEnd.StreamPair.Pop` | deps/quic-go/send_stream.go:223-238 | Popping a frame changes no accepted byte and keeps the pair consistent. |
| `EndToEnd.StreamPair.Ack` | deps/quic-go/send_stream.go:664-683 | An acknowledgement of a frame that arrived keeps the pair consistent, so acknowledged bytes are received bytes. |
| `EndToEnd.StreamPair.Lose` | deps/quic-go/send_stream.go:685-726 | A loss, also a spurious one for a frame that did arrive, keeps the pair consistent. |
| `MtuSpec.Accuracy` | deps/quic-go/mtu_discoverer.go:126-253 | If the path carries exactly the sizes up to L and at most two probes of size at most L are lost, every search ends, and from then on `min` is at most L and at least min(L + 1, M) - 21. |
| `MtuSpec.Terminates` | deps/quic-go/mtu_discoverer.go:137-177 | For arbitrary ack and loss outcomes the search is done after finitely many probes, also through probes equal to `min` and repeated lost sizes. |
| `MtuSpec.StepCloser` | deps/quic-go/mtu_discoverer.go:198-253 | Each outcome decreases a lexicographic measure on the distance to the maximum, the lost sizes above `min`, the last outcome and the free slots. |
| `MtuSpec.FirstProbe` | deps/quic-go/mtu_discoverer.go:164-177 | The first probe goes halfway to the maximum. |
| `MtuSpec.NextProbe` | deps/quic-go/mtu_discoverer.go:164-253 | After an acknowledgement the next probe goes halfway from the new minimum to the maximum; after a loss it goes halfway to the smallest lost size remembered, which is below the lost probe unless that was at the minimum. |
| `MtuSpec.LossIsRemembered` | deps/quic-go/mtu_discoverer.go:235-253 | A lost size is remembered as often as it was lost; with three remembered, the largest is forgotten for it. |
| `MtuSpec.AckForgets` | deps/quic-go/mtu_discoverer.go:198-233 | An acknowledgement raises the minimum to the probe and forgets exactly the lost sizes that are not larger. |
| `MtuSpec.RankFalls` | deps/quic-go/mtu_discoverer.go:164-253 | Within one halving of the range each outcome uses up one of at most nine steps, or halves the range. |
| `MtuSpec.NineProbesHalve` | deps/quic-go/mtu_discoverer.go:164-253 | Nine probes halve the range, whatever becomes of each of them. |
| `MtuSpec.LogarithmicallyManyProbes` | deps/quic-go/mtu_discoverer.go:137-253 | The number of probes is logarithmic: a range of 20 times 2^m plus 1 bytes is searched with at most 9m probes, for every fate of the probes. |
| `MtuSpec.StepInv` | deps/quic-go/mtu_discoverer.go:164-253 | Every probe is in [min, max); `lost` stays sorted; `min` never falls and the maximum never rises; an ack raises `min` to the probe and leaves the maximum, a loss leaves `min`. |
| `MtuSpec.StaysAccurate` | deps/quic-go/mtu_discoverer.go:198-253 | At every point of such a search `min` is at most L and the maximum at least min(L + 1, M). |
| `MtuSpec.StaysDone` | deps/quic-go/mtu_discoverer.go:137-139 | Once done, the search does not change. |
| `MtuSpec.ThreeLossesMislead` | deps/quic-go/mtu_discoverer.go:29-32 | Two losses is the best possible bound: three unlucky losses keep a search from 1000 to 2000 on a path that carries 2000 at 1500 or less for ever. |
| `MtuSpec.NextInv` | deps/quic-go/mtu_discoverer.go:183-253 | Ideal bookkeeping of probes by epoch: feedback for the current epoch finds a probe in flight. |
| `MtuSpec.FewMigrations` | deps/quic-go/mtu_discoverer.go:102-105 | With fewer than 256 path migrations no feedback is ever taken for that of another generation. |
| `MtuSpec.Replay` | deps/quic-go/mtu_discoverer.go:154-253 | The state after any sequence of probes, resets and feedback satisfies the invariant. |
| `MtuSpec.StepDiffers` | deps/quic-go/mtu_discoverer.go:198-253 | Feedback that is taken always changes the search, so taking it wrongly is visible. |
| `MtuFinderObject.Happen` | deps/quic-go/mtu_discoverer.go:154-253 | An event leaves the finder as the ideal bookkeeping says if and only if it is not feedback whose 8-bit generation collides with the current one, and it panics if and only if it collides while no probe is in flight. |
| `MtuFinderObject.Run` | deps/quic-go/mtu_discoverer.go:154-253 | Every run without such a collision ends without a panic and with the size the ideal bookkeeping gives. |
| `MtuFinderObject.StaleFeedbackPanics` | deps/quic-go/mtu_discoverer.go:183-253 | For every start and maximum that allow a probe, 256 resets after a probe its feedback panics. |
| `MtuFinderObject.MtuFinder.constructor` | deps/quic-go/mtu_discoverer.go:112-124 | A new finder is at the start of the search, with no probe in flight. |
| `MtuFinderObject.MtuFinder.Init` | deps/quic-go/mtu_discoverer.go:126-135 | Sets `min` and the in-place array to the start of a search. |
| `MtuFinderObject.MtuFinder.Max` | deps/quic-go/mtu_discoverer.go:141-148 | The largest used slot of the array. |
| `MtuFinderObject.MtuFinder.IsDone` | deps/quic-go/mtu_discoverer.go:137-139 | Done if and only if the maximum is at most 21 bytes above the minimum. |
| `MtuFinderObject.MtuFinder.MayProbe` | deps/quic-go/mtu_discoverer.go:154-162 | A probe may be sent if and only if none is in flight and the search is not done. |
| `MtuFinderObject.MtuFinder.GetPing` | deps/quic-go/mtu_discoverer.go:164-177 | The probe lies halfway between the minimum and the smallest lost size, or the maximum unless the last probe was lost, and carries the current generation. |
| `MtuFinderObject.MtuFinder.Reset` | deps/quic-go/mtu_discoverer.go:183-189 | Starts a new search in the next generation, modulo 256. |
| `MtuFinderObject.MtuFinder.OnAcked` | deps/quic-go/mtu_discoverer.go:198-233 | Feedback of another generation is ignored; otherwise the in-place shift of the array gives the state of the specification; panics if and only if no probe is in flight. |
| `MtuFinderObject.MtuFinder.OnLost` | deps/quic-go/mtu_discoverer.go:235-253 | Likewise for the in-place insertion of a lost size. |
| `MtuFinderObject.MtuFinder.Shift` | deps/quic-go/mtu_discoverer.go:210-226 | The array moved down in place: the entries from j on, followed by free slots. |
| `Sni.FindSNIAndECH` | deps/quic-go/sni.go:19-136 | The nested loops compute the specification on every input: incomplete, malformed or the two positions; a message of another type is malformed. |
| `Sni.Locate` | deps/quic-go/sni.go:19-136 | Positions lie inside the message, after its header, and the server name and the encrypted-hello extension do not overlap. |
| `Sni.ScanExtensions` | deps/quic-go/sni.go:85-135 | The loop over extensions stops at the first malformed one or when both are found, as the specification. |
| `Sni.FindHostName` | deps/quic-go/sni.go:100-123 | The loop over names finds the first host name of the list, or reports it malformed. |
| `Sni.LocateEncoded` | deps/quic-go/sni.go:19-136 | For every well-formed ClientHello the parser of its encoding finds exactly where the encoder put the host name and the encrypted-hello extension. |
| `Sni.LocateForm` | deps/quic-go/sni.go:19-136 | The same for every ClientHello that can be encoded: malformed if and only if an extension is repeated before both are found, otherwise the first of each is reported. |
| `Sni.PrefixIsIncomplete` | deps/quic-go/sni.go:20-29 | Every proper prefix of an encoded ClientHello is reported as incomplete, so the stream waits for the rest. |
| `Sni.NamesEncoded` | deps/quic-go/sni.go:100-123 | In a list of names of any types the first host name is found, whatever is before and behind it; without one the length of the last name remains and no position. |
| `Sni.HostIsThere` | deps/quic-go/sni.go:95-129 | At the positions found, the bytes are the host name and the extension. |
| `Sni.ExtensionsApart` | deps/quic-go/sni.go:85-135 | Host name and encrypted-hello extension are apart by at least the headers between them. |
| `Sni.LongerIsIncomplete` | deps/quic-go/sni.go:26-29 | A message that parses stops parsing when more bytes follow it. |
| `CryptoRuns.SentExactlyOnce` | deps/quic-go/crypto_stream.go:131-249 | For every sequence of writes and frame budgets, once everything is out each byte was sent once with its content, except for those of one cut, which were sent twice; each byte exactly once if and only if there is no such cut. |
| `CryptoRuns.TwiceIff` | deps/quic-go/crypto_stream.go:140-180 | Which ClientHellos have such a cut: with a host name, exactly those whose encrypted hello ends right before or inside the second half of the name; without one, by where the length of another name puts the cut. |
| `CryptoRuns.NothingSpansASplit` | deps/quic-go/crypto_stream.go:182-249 | No frame carries the bytes on both sides of a split point, so no frame holds the whole host name. |
| `CryptoRuns.ScrambledOrder` | deps/quic-go/crypto_stream.go:182-249 | Over every run the frames of a ClientHello that is cut apart cleanly go out in one order: everything between the cuts, the first cut, the second, what was written later, each from front to back. |
| `CryptoRuns.HiddenBytes` | deps/quic-go/crypto_stream.go:140-170 | The bytes held back are exactly the second half of the server name and 16 bytes from the middle of the type of the encrypted-hello extension on. |
| `CryptoRuns.ClientHelloIsSplit` | deps/quic-go/crypto_stream.go:140-180 | For every well-formed ClientHello with a host name and no very short encrypted hello: it can be sent, the cuts do not overlap and the name found in the message is split in its middle. |
| `CryptoRuns.NameIsSplit` | deps/quic-go/crypto_stream.go:140-180 | The same for any message, in terms of the positions found in it. |
| `CryptoRuns.RunInv` | deps/quic-go/crypto_stream.go:131-249 | The invariant of the scrambling phases holds after every run. |
| `CryptoRuns.PopProgress` | deps/quic-go/crypto_stream.go:182-249 | With data and a budget of 11 bytes or more a frame always comes out. |
| `CryptoRuns.GetsPastIff` | deps/quic-go/crypto_stream.go:140-249 | Once a ClientHello with something to hide is complete, the stream can ever get past it if and only if its host name is not empty or, without a host name, the last name of another type has two bytes or more. |
| `CryptoRuns.SendsEverything` | deps/quic-go/crypto_stream.go:131-249 | Once the ClientHello is complete, any frames of 11 bytes or more, three per byte at most, empty the stream. |
| `CryptoRuns.PopCloser` | deps/quic-go/crypto_stream.go:182-249 | Each frame leaves less to send. |
| `CryptoRuns.HasDataMeansOwed` | deps/quic-go/crypto_stream.go:131-138 | Data is announced if and only if the ClientHello is complete and some byte has not been sent as often as it is going to be. |
| `CryptoRuns.WriteKeepsBooksIff` | deps/quic-go/crypto_stream.go:140-180 | A write keeps the balance of bytes sent and owed if and only if it is not an empty write after the first cut was sent and before the second, which cuts the ClientHello apart once more. |
| `CryptoRuns.Stalls` | deps/quic-go/crypto_stream.go:131-249 | After any other ClientHello, whatever is written and popped later: with an empty host name, with or without encrypted hello, data is announced for ever and no byte behind the ClientHello is sent; without a usable name nothing is announced or sent. |
| `CryptoRuns.SendableIff` | deps/quic-go/crypto_stream.go:140-180 | A well-formed ClientHello can be sent if and only if it has neither an empty host name nor an encrypted hello without a server name. |
| `CryptoRuns.UnsendableStalls` | deps/quic-go/crypto_stream.go:131-249 | Every other well-formed one stalls the stream for good once written. |
| `CryptoRuns.EmptyNameHello` | deps/quic-go/crypto_stream.go:140-180 | Such a ClientHello, written out. |
| `CryptoSpec.PopSane` | deps/quic-go/crypto_stream.go:182-249 | Popping keeps all offsets within the buffer in every state, also those of malformed messages. |
| `CryptoSpec.PopLongest` | deps/quic-go/crypto_stream.go:182-249 | There is no frame if and only if one byte does not fit; a frame starts at the next offset and reaches the end of its piece unless one byte more would not fit. |
| `CryptoSpec.WriteSane` | deps/quic-go/crypto_stream.go:140-180 | So does writing. |
| `CryptoSpec.PopBetweenOwed` | deps/quic-go/crypto_stream.go:221-248 | Sending from between the cuts pays off exactly the bytes of the frame. |
| `CryptoSpec.PopCutOwed` | deps/quic-go/crypto_stream.go:187-219 | So does sending from a cut, and the stream turns plain when both are sent. |
| `CryptoStreamObject.InitialCryptoStream.constructor` | deps/quic-go/crypto_stream.go:114-129 | A new stream is empty and scrambles only where asked to. |
| `CryptoStreamObject.InitialCryptoStream.HandleCryptoFrame` | deps/quic-go/crypto_stream.go:34-56 | Each error exactly when the frame goes beyond the maximum offset or brings new data after the level was finished; otherwise the frame is pushed to the sorter. |
| `CryptoStreamObject.InitialCryptoStream.GetCryptoData` | deps/quic-go/crypto_stream.go:59-62 | The next in-order piece, or nothing. |
| `CryptoStreamObject.InitialCryptoStream.FinishReceiving` | deps/quic-go/crypto_stream.go:64-73 | Fails if and only if data is still queued. |
| `CryptoStreamObject.InitialCryptoStream.Write` | deps/quic-go/crypto_stream.go:140-180 | The in-place choice of cuts is that of the specification, including the error of a malformed message. |
| `CryptoStreamObject.InitialCryptoStream.PopCryptoFrame` | deps/quic-go/crypto_stream.go:182-249 | The frame and the new state are those of the specification; the frame fits the budget, starts at the next offset and is as long as the budget and its piece allow. |
| `CryptoStreamObject.InitialCryptoStream.PopBase` | deps/quic-go/crypto_stream.go:85-95 | The plain stream sends from the front of the buffer. |
| `CryptoStreamObject.InitialCryptoStream.PopFromCut` | deps/quic-go/crypto_stream.go:187-219 | Shortens the first unsent cut in place; after the last one the sent bytes are dropped. |
| `CryptoStreamObject.InitialCryptoStream.PopFromBetween` | deps/quic-go/crypto_stream.go:221-248 | Sends up to the next cut and jumps over it. |
| `CryptoEndToEnd.CryptoPair.Transfer` | deps/quic-go/crypto_stream.go:34-249 | The round trip of two streams: everything written is sent with any budgets, delivered in any order with repetitions, and read; unless the sorter runs out of gaps, the receiver has read exactly what was written if and only if that is at most 16 KiB, and otherwise refuses a frame. Fewer than a thousand deliveries cannot run out of gaps. |
| `CryptoEndToEnd.CryptoPair.GotIsPrefix` | deps/quic-go/crypto_stream.go:34-62 | At every moment the bytes read are the beginning of those written. |
| `CryptoEndToEnd.CryptoPair.Write` | deps/quic-go/crypto_stream.go:140-180 | A write extends what will be sent and sends nothing. |
| `CryptoEndToEnd.CryptoPair.Send` | deps/quic-go/crypto_stream.go:131-138 | There is a frame to ask for if and only if the ClientHello is complete and some byte is still owed. |
| `CryptoEndToEnd.CryptoPair.Flush` | deps/quic-go/crypto_stream.go:182-249 | Asking for frames while data is announced ends, and has then sent everything unless the ClientHello is incomplete. |
| `CryptoEndToEnd.CryptoPair.Deliver` | deps/quic-go/crypto_stream.go:34-56 | A frame is refused if and only if it ends beyond 16 KiB or brings new data after the end; otherwise only the gap limit fails it. |
| `CryptoEndToEnd.CryptoPair.Read` | deps/quic-go/crypto_stream.go:59-62 | The next bytes in order, none if and only if the next byte has not arrived. |
| `CryptoEndToEnd.CryptoPair.Finish` | deps/quic-go/crypto_stream.go:64-73 | Succeeds only when every byte that arrived has been read. |
| `CryptoEndToEnd.CryptoPair.DeliverAll` | deps/quic-go/crypto_stream.go:34-56 | Any order with repetitions succeeds only if every frame ends within 16 KiB. |
| `CryptoEndToEnd.CryptoPair.FitsIff` | deps/quic-go/crypto_stream.go:182-249 | All frames of an emptied stream end within 16 KiB if and only if all that was written does. |
| `OutgoingSpec.RunKeepsInv` | deps/quic-go/streams_map_outgoing.go:65-253 | In every run of opens, cancellations, wake-ups, limit updates and closing: no stream above the limit is opened, IDs are opened in order, a token is only at the head of the queue, a head that could be served has a token or is running, nobody is overtaken, and nothing sends on a closed channel. |
| `OutgoingSpec.StepKeepsInv` | deps/quic-go/streams_map_outgoing.go:65-253 | Each critical section keeps all that; limits never fall and openings are never undone. |
| `OutgoingSpec.HeadIsServed` | deps/quic-go/streams_map_outgoing.go:100-133 | Whenever the limit allows it, the head of the queue, left to run, opens the next stream and passes the token on. |
| `OutgoingSpec.LimitIsLargest` | deps/quic-go/streams_map_outgoing.go:189-202 | Over every run the limit is the largest the peer ever sent, in whatever order. |
| `OutgoingSpec.RaisedLimitServes` | deps/quic-go/streams_map_outgoing.go:189-202 | A limit that allows a stream is put to use: with nobody waiting the next OpenStream opens it, otherwise the head of the queue gets it by being scheduled. |
| `OutgoingSpec.ClosedForGood` | deps/quic-go/streams_map_outgoing.go:239-253 | Over every run nothing is opened and nobody queued after closing. |
| `OutgoingSpec.ClosingFailsWaiters` | deps/quic-go/streams_map_outgoing.go:102-134 | Closing lets every call that has not returned wake up and fail. |
| `OutgoingSpec.QueueIsServedInOrder` | deps/quic-go/streams_map_outgoing.go:81-134 | If the limit allows n streams and nobody gives up, letting waiters run opens n consecutive streams for the first n waiters, in queue order. |
| `OutgoingSpec.ServeKeepsInv` | deps/quic-go/streams_map_outgoing.go:125-132 | A woken waiter is the head of the queue, and serving it leaves no lost wake-up. |
| `OutgoingSpec.LeaveKeepsInv` | deps/quic-go/streams_map_outgoing.go:102-110 | A waiter that gives up, even one holding the token, leaves no lost wake-up. |
| `OutgoingStreamsObject.OutgoingStreamsMap.constructor` | deps/quic-go/streams_map_outgoing.go:38-63 | A new map has no stream and no allowance. |
| `OutgoingStreamsObject.OutgoingStreamsMap.OpenStream` | deps/quic-go/streams_map_outgoing.go:65-79 | Opens the next ID if and only if not closed, nobody waits and the limit allows it; otherwise the peer was told once that the limit blocks. |
| `OutgoingStreamsObject.OutgoingStreamsMap.BeginOpenSync` | deps/quic-go/streams_map_outgoing.go:81-99 | Opens at once or joins the end of the queue; fails if and only if closed or expired. |
| `OutgoingStreamsObject.OutgoingStreamsMap.ResumeOpenSync` | deps/quic-go/streams_map_outgoing.go:114-133 | A woken call opens exactly the next ID as head of the queue, or waits again exactly when the limit is used up. |
| `OutgoingStreamsObject.OutgoingStreamsMap.CancelOpenSync` | deps/quic-go/streams_map_outgoing.go:102-110 | The waiter is gone from the queue and the step is that of the specification. |
| `OutgoingStreamsObject.OutgoingStreamsMap.MaybeSendBlockedFrame` | deps/quic-go/streams_map_outgoing.go:145-159 | At most one STREAMS_BLOCKED frame per limit, in increasing order. |
| `OutgoingStreamsObject.OutgoingStreamsMap.MaybeUnblockOpenSync` | deps/quic-go/streams_map_outgoing.go:224-237 | Restores that a head that could be served has a token. |
| `OutgoingStreamsObject.OutgoingStreamsMap.SetMaxStream` | deps/quic-go/streams_map_outgoing.go:189-202 | The limit becomes the larger of the two; a blocked frame is queued if and only if the limit rose and still does not reach the last waiting call; the head of the queue gets a token if it may open. |
| `OutgoingStreamsObject.OutgoingStreamsMap.DeleteStream` | deps/quic-go/streams_map_outgoing.go:175-187 | Removes a known stream, fails if and only if it is not there. |
| `OutgoingStreamsObject.OutgoingStreamsMap.GetStream` | deps/quic-go/streams_map_outgoing.go:161-173 | Refuses exactly the IDs not opened yet; finds exactly the live ones. |
| `OutgoingStreamsObject.OutgoingStreamsMap.DeleteFromQueue` | deps/quic-go/streams_map_outgoing.go:104-106 | The queue without that waiter, the others in order. |
| `OutgoingStreamsObject.OutgoingStreamsMap.CloseWithError` | deps/quic-go/streams_map_outgoing.go:239-253 | Closed with an empty queue, and exactly the channels that were in the queue are closed. |
| `IncomingStreamsObject.Run` | deps/quic-go/streams_map_incoming.go:42-209 | Over every run, with the pieces of any number of AcceptStream calls and of closing anywhere between the other events: IDs are accepted in order and once, announced limits strictly increase and stay at or below the maximum stream ID, live plus openable streams never exceed the allowance and equal it until the maximum stream count; no acceptor sleeps while its stream is there unless calls overlapped; a panic only after closing. |
| `IncomingStreamsObject.CreditConserved` | deps/quic-go/streams_map_incoming.go:168-199 | Live plus openable streams equal the allowance if and only if the maximum stream count is not reached, and are fewer otherwise. |
| `IncomingStreamsObject.DeleteCredit` | deps/quic-go/streams_map_incoming.go:185-199 | Forgetting a stream gives the peer exactly one more, or none at the maximum stream ID. |
| `IncomingStreamsObject.TakeAcceptStep` | deps/quic-go/streams_map_incoming.go:73-113 | Beginning, looking, waking and giving up keep the books in every state. |
| `IncomingStreamsObject.ServeAcceptor` | deps/quic-go/streams_map_incoming.go:84-112 | Unless calls overlapped, an acceptor that waits although its stream is there can be woken, and then gets exactly that stream. |
| `IncomingStreamsObject.LostWakeup` | deps/quic-go/streams_map_incoming.go:73-101 | With two calls at once a wake-up can be lost: from a new map, one call sleeps, nobody else is under way and its stream is there. |
| `IncomingStreamsObject.WaitForTwo` | deps/quic-go/streams_map_incoming.go:115-153 | One call waits while a single frame opens two streams. |
| `IncomingStreamsObject.Observe` | deps/quic-go/streams_map_incoming.go:42-71 | What a run may observe follows from the invariant alone. |
| `IncomingStreamsObject.IncomingStreamsMap.constructor` | deps/quic-go/streams_map_incoming.go:42-71 | A new map allows exactly the configured number of streams. |
| `IncomingStreamsObject.IncomingStreamsMap.GetOrOpenStream` | deps/quic-go/streams_map_incoming.go:115-153 | Opens the ID and all lower unopened ones, exactly once each; an error if and only if above the limit; old IDs are found if and only if live, never reopened; a panic if and only if a stream is opened after the channel was closed. |
| `IncomingStreamsObject.IncomingStreamsMap.OpenUpTo` | deps/quic-go/streams_map_incoming.go:136-152 | Exactly the IDs from the next one up to this one are added. |
| `IncomingStreamsObject.IncomingStreamsMap.DeleteStream` | deps/quic-go/streams_map_incoming.go:155-183 | Fails if and only if unknown or already deleted; a stream not yet accepted is only marked, so it is still accepted in its turn. |
| `IncomingStreamsObject.IncomingStreamsMap.Forget` | deps/quic-go/streams_map_incoming.go:185-199 | Removes the stream, and announces a higher limit at most once. |
| `IncomingStreamsObject.IncomingStreamsMap.BeginAccept` | deps/quic-go/streams_map_incoming.go:73-78 | A call throws away the token in the channel, also one meant for another call, and calls overlap from the moment a second one begins. |
| `IncomingStreamsObject.IncomingStreamsMap.Accept` | deps/quic-go/streams_map_incoming.go:84-112 | The next ID in order if it is there; otherwise waits; a marked stream is handed out and then forgotten. |
| `IncomingStreamsObject.IncomingStreamsMap.WakeAcceptor` | deps/quic-go/streams_map_incoming.go:95-101 | A notification or closing lets the acceptor check again. |
| `IncomingStreamsObject.IncomingStreamsMap.CloseWithError` | deps/quic-go/streams_map_incoming.go:201-207 | The error is set; the channel is still open. |
| `IncomingStreamsObject.IncomingStreamsMap.CloseChannel` | deps/quic-go/streams_map_incoming.go:208-209 | Closing the channel panics if and only if it was closed before. |
| `ConnIdManagerObject.Run` | deps/quic-go/conn_id_manager.go:60-295 | Over every run in which the transport parameters come first and the peer issues each number once and retires no number above the one it issues: each issued number is exactly one of active, queued, on one path, or retired with exactly one frame; nothing else is retired; the queue is sorted above the active and the highest probed number; the active number is not below the highest retired; after closing, token registrations equal removals, that of the initial ID included; every ID used for sending or for a path is the one the peer issued under its number, which was not retired. |
| `ConnIdManagerObject.ApplyTransportParameters` | deps/quic-go/conn_id_manager.go:210-217 | The token of the initial ID and the preferred address at the start of a connection keep the books right. |
| `ConnIdManagerObject.Happen` | deps/quic-go/conn_id_manager.go:60-295 | The same for each single event. |
| `ConnIdManagerObject.RefusePartition` | deps/quic-go/conn_id_manager.go:81-88 | Retiring a number on arrival keeps the partition if and only if the number was not delivered before. |
| `ConnIdManagerObject.InsertPartition` | deps/quic-go/conn_id_manager.go:132-166 | Queueing a number keeps the partition if and only if the number was not delivered before. |
| `ConnIdManagerObject.RotateCore` | deps/quic-go/conn_id_manager.go:168-186 | Switching to the front of the queue keeps the partition, the order and the balance of tokens. |
| `ConnIdManagerObject.ConnIdManager.constructor` | deps/quic-go/conn_id_manager.go:45-58 | A new manager has the initial ID with number 0 active. |
| `ConnIdManagerObject.ConnIdManager.Add` | deps/quic-go/conn_id_manager.go:64-130 | A frame keeps every number in exactly one place and the tokens balanced, also when it forces a switch, if and only if its number is new, still queued, or the active one with no later one probed; errors exactly with a zero-length ID, a queued number with other contents, or a full queue. |
| `ConnIdManagerObject.ConnIdManager.QueueAndSwitch` | deps/quic-go/conn_id_manager.go:116-130 | Queues the ID, unless it is in conflict with a queued one, and switches to the front if and only if the active one is below the mark; nothing else is retired. |
| `ConnIdManagerObject.ConnIdManager.AddConnectionID` | deps/quic-go/conn_id_manager.go:132-166 | Inserts at the sorted position; a queued number is kept, an error if and only if its contents differ. |
| `ConnIdManagerObject.ConnIdManager.RetirePriorTo` | deps/quic-go/conn_id_manager.go:90-114 | Retires exactly the queued and path IDs below the mark and nothing at or above it. |
| `ConnIdManagerObject.ConnIdManager.RetirePaths` | deps/quic-go/conn_id_manager.go:90-100 | The path part: exactly the paths below the mark go, each retired once with its token. |
| `ConnIdManagerObject.ConnIdManager.RetireQueued` | deps/quic-go/conn_id_manager.go:101-114 | The queue part, likewise. |
| `ConnIdManagerObject.ConnIdManager.UpdateConnectionID` | deps/quic-go/conn_id_manager.go:168-186 | The front becomes active with its ID and token and the old one is retired once; books that were right stay right, with a higher number than before and none below the highest retired. |
| `ConnIdManagerObject.ConnIdManager.AddFromPreferredAddress` | deps/quic-go/conn_id_manager.go:60-62 | Number 1 is queued; the books stay right if and only if it was queued already or is new with no number in use but 0. |
| `ConnIdManagerObject.ConnIdManager.SetStatelessResetToken` | deps/quic-go/conn_id_manager.go:210-217 | Panics if and only if the initial ID is no longer active; the tokens stay balanced if and only if none was set before. |
| `ConnIdManagerObject.ConnIdManager.ShouldUpdateConnID` | deps/quic-go/conn_id_manager.go:223-236 | True if and only if the handshake is complete, something is queued, and the initial ID is active or two are queued and enough packets were sent. |
| `ConnIdManagerObject.ConnIdManager.Get` | deps/quic-go/conn_id_manager.go:238-244 | Switches to the front of the queue if and only if that is due, and returns the ID issued under the active number, which is not retired. |
| `ConnIdManagerObject.ConnIdManager.GetConnIDForPath` | deps/quic-go/conn_id_manager.go:254-277 | A path keeps its ID; a new path takes the front of the queue; the ID is the one issued under its number and not retired; fails if and only if there is none. |
| `ConnIdManagerObject.ConnIdManager.RetireConnIDForPath` | deps/quic-go/conn_id_manager.go:279-295 | Exactly this path is retired, with its token. |
| `ConnIdManagerObject.ConnIdManager.Close` | deps/quic-go/conn_id_manager.go:188-198 | After closing, every token registered has been removed as often. |
| `ConnIdManagerObject.ConnIdManager.IsActiveStatelessResetToken` | deps/quic-go/conn_id_manager.go:297-311 | True if and only if the token was registered more often than removed. |
| `PlaybackSpec.LayersAreDecodable` | internal/sub/playback.go:265-405 | In every run each layer shown has the timestamp and independence flag of the base, and can be traced back, shown in every unit since and without a restart, to an independent unit. |
| `PlaybackSpec.NeverFasterThanRealTime` | internal/sub/playback.go:407-415 | Between restarts timestamps strictly increase, and two units are never shown closer together than their timestamps are apart. |
| `PlaybackSpec.ArrivalOrderIsIrrelevant` | internal/sub/playback.go:208-250 | For every two orders of the same arrivals of a unit, conflicting duplicates included, the complete prefix and the independence are the same. |
| `PlaybackSpec.PrefixMeaning` | internal/sub/playback.go:341-358 | The complete prefix is the longest run of layers that are present, agree with the base and are not invalidated. |
| `PlaybackSpec.AllCollected` | internal/sub/playback.go:208-250 | A unit holds for each layer the first arrival of it, and is invalid from the lowest layer with conflicting arrivals on. |
| `PlaybackSpec.StartableIff` | internal/sub/playback.go:313-386 | A position allows a start if and only if its unit is independent and some unit at least the minimal buffer later is pending, it and all units between complete up to the level of the first. |
| `PlaybackSpec.FirstStartIff` | internal/sub/playback.go:313-339 | The search finds the first such unit in the order, and none if and only if there is none. |
| `PlaybackSpec.NextInLineIff` | internal/sub/playback.go:462-474 | The next unit is the first in the order with a later timestamp, and none if and only if there is none. |
| `PlaybackSpec.OrderUnique` | internal/sub/playback.go:476-497 | The order by timestamp and key is the only one. |
| `PlaybackSpec.DropFirst` | internal/sub/playback.go:462-474 | Dropping the first units leaves the rest in the same order. |
| `PlaybackSpec.TimesAreExactIff` | internal/sub/playback.go:407-415 | With 64 bits a timestamp is exact if and only if it is below 2^63 microseconds, and a duration if and only if it is below 2^63 nanoseconds. |
| `PlaybackObject.Run` | internal/sub/playback.go:208-518 | Over every run of arrivals and advances: the log of shown units satisfies the decode, pacing and buffer rules (each start is at the first unit behind which the minimal buffer was pending, each later unit the next in line, at the level its layers and the previous level allow), at most 64 units are pending, and the active layer is that of the last unit shown. |
| `PlaybackObject.StaleIsIrrelevant` | internal/sub/playback.go:417-474 | Dropping units already passed changes no later choice, so asking for the deadline does not change it. |
| `PlaybackObject.TimestampOf` | internal/sub/playback.go:499-511 | The timestamp of the lowest layer present. |
| `PlaybackObject.CompletePrefixOf` | internal/sub/playback.go:341-358 | The loop computes the prefix and independence of the specification. |
| `PlaybackObject.SortedUnits` | internal/sub/playback.go:476-497 | All pending units in the unique order. |
| `PlaybackObject.NativePlayback.constructor` | internal/sub/playback.go:106-158 | A new player shows nothing and has nothing pending. |
| `PlaybackObject.NativePlayback.AddObject` | internal/sub/playback.go:208-250 | Invalid arrivals change nothing; others are recorded in their unit, the first one of each layer winning and conflicts invalidating from that layer on; at most 64 units stay, the oldest going first. |
| `PlaybackObject.NativePlayback.TrimPending` | internal/sub/playback.go:513-518 | Removes the oldest units until at most 64 are left. |
| `PlaybackObject.NativePlayback.Advance` | internal/sub/playback.go:265-311 | Shows at most one unit. Playing, it acts exactly when the time of a newer unit has come: the next in line is shown at the level that can be decoded, or playback stalls if there is none. Otherwise it starts exactly when some unit has the minimal buffer behind it and the time of the first such unit has come. |
| `PlaybackObject.NativePlayback.AdvanceOnce` | internal/sub/playback.go:275-310 | One turn of the loop: acts if and only if due. |
| `PlaybackObject.NativePlayback.ShowOrStall` | internal/sub/playback.go:288-309 | Shows the unit at a permitted layer, or stalls if and only if no layer of it can be shown. |
| `PlaybackObject.NativePlayback.NotDueAgain` | internal/sub/playback.go:265-311 | Right after a unit was shown nothing else is due, so the loop shows one. |
| `PlaybackObject.NativePlayback.DueMeaning` | internal/sub/playback.go:265-443 | The deadline has come if and only if, stalled or at the start, a unit with the minimal buffer behind it is due or, playing, a newer unit is. |
| `PlaybackObject.NativePlayback.NextAdvanceDeadline` | internal/sub/playback.go:417-443 | Returns the first time at which `advance` would act, in terms of the pending units, and asking changes no later answer. |
| `PlaybackObject.NativePlayback.TryStart` | internal/sub/playback.go:313-339 | Starts exactly when due, at the first unit with the minimal buffer behind it, at its full complete prefix and not before its timestamp plus the target latency. |
| `PlaybackObject.NativePlayback.FindStart` | internal/sub/playback.go:313-339 | The first pending unit that may start, with its complete prefix; none if and only if no unit has the minimal buffer behind it. |
| `PlaybackObject.NativePlayback.BufferFor` | internal/sub/playback.go:360-386 | The time from this unit to the end of the unbroken run of units with its layers. |
| `PlaybackObject.NativePlayback.Adjust` | internal/sub/playback.go:288-303 | The level becomes the complete prefix at an independent unit, and otherwise falls to it if it is lower; the flags in the array are exactly the layers up to the active one. |
| `PlaybackObject.NativePlayback.Present` | internal/sub/playback.go:388-405 | Removes the unit and records it with its time; stable if and only if the top layer is active. |
| `PlaybackObject.NativePlayback.NextUnit` | internal/sub/playback.go:462-474 | The first unit later than the last one shown; exactly the units before it are dropped. |
| `Timeline.NextSample` | internal/asset.go:1289-1302 | Consecutive numbers start one sample apart and map to the next original sample, or to sample 0 of the next loop. |
| `Timeline.SampleMeaning` | internal/asset.go:1289-1302 | Sample nr starts at nr sample durations, and its original number counts the samples since the first live one that is not before the start of its loop. |
| `Timeline.NoDrift` | internal/asset.go:1289-1302 | Loop w starts less than one sample after w loop lengths, for every w. |
| `Timeline.OrigNrInside` | internal/asset.go:1289-1302 | The original number is never negative and always inside the samples. |
| `Timeline.OrigNrCounts` | internal/asset.go:1289-1302 | The subtraction does not underflow, and the result counts samples since the start of the loop. |
| `Timeline.LoopOfWholeSamples` | internal/asset.go:1289-1302 | When the loop is a whole number of samples the original number is the number modulo the count. |
| `Timeline.CeilDivMeaning` | internal/moqgroup.go:106-118 | The rounded-up quotient is the least count of samples that reaches a time. |
| `Timeline.CalcMoQGroup` | internal/moqgroup.go:106-118 | A group holds exactly the samples that start within its time. |
| `Timeline.GroupsTile` | internal/moqgroup.go:106-118 | Every sample number is in exactly one group. |
| `Timeline.GroupsBeginAtZero` | internal/moqgroup.go:106-118 | The first group starts with sample 0. |
| `Timeline.CutIntoBatches` | internal/moqgroup.go:53-55 | The batches of a group tile it, all full but the last. |
| `Timeline.InOneBatch` | internal/moqgroup.go:53-55 | Every sample of a group is in exactly one batch. |
| `Timeline.ValidateAV1SVCGOP` | internal/asset.go:385-407 | Accepts if and only if the group duration is a whole GOP and sync samples are exactly at its multiples. |
| `Timeline.GroupIsGop` | internal/moqgroup.go:106-118 | With a validated GOP length group n starts at sample n times that length. |
| `Timeline.GroupsAlignedIff` | internal/asset.go:385-407 | On a validated track every group starts with a sync sample and has no other if and only if the GOP length divides the sample count. |
| `Timeline.StrayGop` | internal/asset.go:385-407 | Where it does not divide, some group breaks that. |
| `AssetObject.LoopLengthIff` | internal/asset.go:605-609 | The loop length in milliseconds is that of the first track if and only if a thousand times its duration is below 2^32. |
| `AssetObject.LoopsStayTogetherIff` | internal/asset.go:605-633 | A track starts all its loops within one sample of the common time if and only if the loop is a whole number of its time units. |
| `AssetObject.EachLoopLosesTheRest` | internal/asset.go:618-622 | Otherwise loop w is early by w times the part of a unit that rounding down drops, up to the rounding to a sample. |
| `AssetObject.EarlierThan` | internal/asset.go:618-622 | So after enough loops it is early by more than any number of samples. |
| `AssetObject.AudioDrifts` | internal/asset.go:618-622 | 44 audio frames at 44.1 kHz beside 30 video frames at 29.97 Hz are accepted without overflow and drift. |
| `AssetObject.LoopedSampleExists` | internal/asset.go:605-633 | With the loop lengths set, every live sample of every track is a copy of a recorded one. |
| `AssetObject.LoopedIfCompatible` | internal/asset.go:611-629 | Where no product wraps round, the 32-bit comparisons accept exactly the tracks that fit the loop, and the loop length set lasts the loop in the scale of the track. |
| `AssetObject.OneMinuteOverflows` | internal/asset.go:605-616 | One minute at 90 kHz overflows and is refused although it fits exactly. |
| `AssetObject.Asset.SetLoopDuration` | internal/asset.go:605-633 | With 32-bit products on every input: success if and only if every track is accepted, and then every track has its loop length; on an error exactly the tracks before the refused one are set; without overflow acceptance and lengths are the exact ones; a panic if and only if the first group is empty or the first time scale zero. |
| `AssetObject.Asset.SetLoops` | internal/asset.go:611-629 | The nested loops stop at the first refused track. |
| `AssetObject.Asset.SetTrack` | internal/asset.go:613-628 | One track, by its place and kind. |
| `Dependencies.DependencyOrder` | internal/sub/sub.go:425-456 | Ends on every catalog; succeeds if and only if no missing name and no cycle is reachable; then the result lists each needed track once, dependencies before dependents, the target last. |
| `Dependencies.Visitor.Visit` | internal/sub/sub.go:430-451 | Success leaves the name and all it needs in the list, after what was there; failure proves a reachable cycle or missing name. |
| `Dependencies.Visitor.VisitAll` | internal/sub/sub.go:441-446 | The same for the dependencies of one track. |
| `Dependencies.OrderIsProof` | internal/sub/sub.go:425-456 | Any list with dependencies before dependents proves that its names reach no cycle and no missing name, and contains all they reach. |
| `Dependencies.GetTrackByName` | internal/catalog.go:72-79 | The first track of that name, if any. |
| `Dependencies.GenLOCSVCTracks` | internal/asset.go:987-1013 | One track per spatial layer, each depending on the one below. |
| `Dependencies.LayersFromTheBase` | internal/asset.go:987-1013 | On generated layers any dependency order of layer k is layer 0 to k. |
| `Dependencies.LayersAreFine` | internal/asset.go:987-1013 | Generated layers reach no cycle and no missing name. |
| `Dependencies.LayerOrder` | internal/sub/sub.go:425-456 | So the algorithm on generated tracks returns exactly layers 0 to k, for every base name, count and k. |
| `Nalus.RewriteSample` | internal/media.go:226-257 | On every buffer the in-place rewrite, reading and writing the same array: it succeeds, crashes on an empty NALU or reports an invalid length if and only if after some non-empty NALUs there are fewer than four bytes, a zero length or a length beyond the end; on success exactly the kept NALUs remain, in order. |
| `Nalus.FilterOfJoin` | internal/media.go:226-257 | On the length-prefixed concatenation of any non-empty NALUs (and up to 3 stray bytes) the result is the concatenation of exactly the kept ones, in order. |
| `Nalus.KeptMeaning` | internal/media.go:241-250 | Dropped are exactly the NALUs whose first byte spells type 32, 33 or 34. |
| `Nalus.OutcomeIff` | internal/media.go:226-257 | The three outcomes, each if and only if the bytes are of the corresponding form; a NALU of length zero is the access out of range. |
| `Nalus.FourZeroBytes` | internal/media.go:239-242 | Four zero bytes crash it. |
| `Nalus.SplitIntoNalus` | internal/media.go:231-240 | Every sequence of bytes is a number of non-empty NALUs and a tail at which the loop stops in one of three ways. |
| `Nalus.RewriteTwice` | internal/media.go:226-257 | Rewriting again changes nothing. |
| `Nalus.Consume` | internal/media.go:231-256 | One NALU: bytes written never reach the bytes not yet read. |
| `Nalus.AppendNalu` | internal/media.go:252-254 | Appends a length and a NALU below where they were read, leaving all later bytes alone. |
| `Nalus.MoveDown` | internal/media.go:252-254 | Moves bytes down within one array, also when the ranges overlap. |
| `Nalus.WriteLength` | internal/media.go:252-254 | Writes four big-endian bytes and nothing else. |

## Left out

- Sockets, out-of-band data, segmentation offload, TLS, packet protection, `connection.go` and `packet_packer.go`: plumbing around the modelled parts.
- Mutexes, channels, contexts and timers: every critical section is one step and steps come in any order; a deadline is a step that may happen. Opening several incoming streams is one step, although a call may take a token from the channel in between.
- MtuFinderObject.MtuFinder.MayProbe: the comparison with the clock is not modelled, only the other conditions of `ShouldSendProbe`.
- The receive stream's own control frames, window updates, auto-tuning and the connection-level window: the stream-level window is a parameter of each call.
- SendStreamObject.SendStream.PopStreamFrame: the STREAM_DATA_BLOCKED frame is not modelled, it depends on the connection-level window as well.
- The linked list of gaps is a sequence, stream objects are their IDs, callbacks and tokens are numbers, so aliasing between them is not captured.
- HTTP/3, qlog, metrics, content generation, DRM, catalog fields other than names and dependencies, and calls into mp4ff, locmaf and moqtransport.
- Playback metrics (stall counts and durations, byte counts, rates), the mode without simulation, and the order of timestamps across a restart, which `tryStart` does not promise.
- `initAVCData`: the same rewrite with a library splitting the NALUs; and the parameter sets `initHEVCData` collects, which alias the buffer being rewritten.
- 64-bit wrap-around of times and sample numbers in the timeline, which is modelled with unbounded integers.
- SendStreamObject.SendStream.SetReliableBoundary: only before a reset, where the source gives it a meaning.
- SendStreamObject.SendStream.EnableResetStreamAt: only before a reset, likewise.
- PlaybackObject.Run: times are unbounded integers; TimesAreExactIff says from where on the source's 64-bit ones differ.
- EndToEnd.StreamPair.Run: runs contain no reset. That a partial reset gets its reliable part acknowledged is proved for the sender (CancelAndSettle), not that the receiver reads it.
- SendStreamObject.RunSteps: bytes accepted are accounted for without a reset; after one only the bytes below the reliable size are, and a FIN together with a later partial reset is not.
- CryptoRuns.SentExactlyOnce: assumes a ClientHello that can be sent and no empty write between the cuts; GetsPastIff and WriteKeepsBooksIff show that each is necessary.
- CryptoEndToEnd.CryptoPair.Write: assumes the same of the one write.
- ConnIdManagerObject.ConnIdManager.Add: assumes RetirePriorTo at most the sequence number, as frame parsing enforces.
- ConnIdManagerObject.Run: the initial number 0 is not issued again and the run ends at the first error.
- Dependencies.GenLOCSVCTracks: spatial IDs are 0 to n - 1, as `internal/media.go` assigns them.
- ChangeInitialConnID, UpdateSendWindow, SetReadDeadline, SetWriteDeadline and other setters of one field.
- AssetObject.LoopedSampleExists: the loop does not round to zero, on which `CalcSample` divides by zero.
