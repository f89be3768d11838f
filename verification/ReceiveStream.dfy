/**
 deps/quic-go/receive_stream.go with the receiving half of the stream flow controller
 (internal/flowcontrol/stream_flow_controller.go). A Read that would have to wait returns
 WouldBlock instead; the next Read continues where it left off.
 */
module ReceiveStreamObject {
  import opened Protocol
  import opened Wire
  import opened SorterSpec
  import opened SorterRuns
  import opened FrameSorterObject

  datatype ReadStatus = ReadOk | ReadEOF | WouldBlock | ReadCancelled | ReadShutdown

  datatype ReceiveError = FinalSizeError | FlowControlError | SorterError

  /** The unread part of the frame being read, and the bytes read so far, are where they belong. */
  ghost predicate Positioned(stream: seq<byte>, popped: int, current: Option<seq<byte>>, posInFrame: nat,
                             readPos: nat) {
    && 0 <= popped <= |stream|
    && (current == None ==> readPos == popped)
    && (current.Some? ==>
          && posInFrame <= |current.value| <= popped
          && readPos == popped - |current.value| + posInFrame
          && current.value == stream[popped - |current.value|..popped])
  }

  class ReceiveStream {
    const frameQueue: FrameSorter

    var finalOffset: int
    var currentFrame: Option<seq<byte>>
    var currentFrameDone: Option<nat>
    var readPosInFrame: nat
    var currentFrameIsLast: bool
    var errorRead: bool
    var completed: bool
    var cancelledRemotely: bool
    var cancelledLocally: bool
    var closeForShutdownErr: bool
    var queuedStopSending: bool
    var readPos: nat
    var reliableSize: nat

    // flow controller
    var highestReceived: nat
    var receivedFinalOffset: bool

    /** The stream as far as it has been received, and what Read has returned so far. */
    ghost var stream: seq<byte>
    ghost var read: seq<byte>
    ghost var reports: nat

    /** What is queued, read and still to be read is the stream as received. */
    ghost predicate DataOk()
      reads this, frameQueue
    {
      && Inv(frameQueue.State())
      && Matches(frameQueue.queue, stream[..Min(highestReceived, |stream|)])
      && Positioned(stream, frameQueue.readPos, currentFrame, readPosInFrame, readPos)
      && frameQueue.readPos <= highestReceived
      && read == stream[..readPos]
      && finalOffset == (if receivedFinalOffset then highestReceived else MAX_BYTE_COUNT)
      && highestReceived < MAX_BYTE_COUNT
      && (currentFrameIsLast ==> receivedFinalOffset && frameQueue.readPos == finalOffset)
    }

    /** The stream is complete exactly when its final size is known and it was cancelled or read to its end or error. */
    ghost predicate CompletionOk()
      reads this
    {
      && (completed <==> finalOffset != MAX_BYTE_COUNT && (cancelledLocally || errorRead))
      && reports == (if completed then 1 else 0)
    }

    ghost predicate Valid()
      reads this, frameQueue
    {
      DataOk() && CompletionOk()
    }

    constructor ()
      ensures Valid() && fresh(frameQueue)
      ensures stream == [] && read == [] && !receivedFinalOffset && highestReceived == 0
      ensures !cancelledLocally && !cancelledRemotely && !closeForShutdownErr
    {
      frameQueue := new FrameSorter();
      finalOffset := MAX_BYTE_COUNT;
      currentFrame, currentFrameDone, readPosInFrame, currentFrameIsLast := None, None, 0, false;
      errorRead, completed, cancelledRemotely, cancelledLocally := false, false, false, false;
      closeForShutdownErr, queuedStopSending := false, false;
      readPos, reliableSize, highestReceived, receivedFinalOffset := 0, 0, 0, false;
      stream, read, reports := [], [], 0;
    }

    predicate IsRemoteCancellationEffective()
      reads this`cancelledRemotely, this`readPos, this`reliableSize
    {
      cancelledRemotely && readPos >= reliableSize
    }

    /** Fetch the next frame; afterwards there is one unless the next byte is missing. */
    method DequeueNextFrame()
      requires DataOk()
      requires currentFrame == None || readPosInFrame >= |currentFrame.value|
      modifies this`currentFrame, this`currentFrameDone, this`currentFrameIsLast, this`readPosInFrame, frameQueue
      ensures DataOk()
      ensures frameQueue.gaps == old(frameQueue.gaps)
      ensures currentFrame.Some? ==> readPosInFrame < |currentFrame.value|
      ensures currentFrame == None <==> InGap(frameQueue.gaps, readPos)
      ensures currentFrameIsLast <==> receivedFinalOffset && frameQueue.readPos == finalOffset && !cancelledRemotely
    {
      hide Inv, InGap;
      ghost var s0 := frameQueue.State();
      PopKeepsInv(s0);
      var offset, data, done, _ := frameQueue.Pop();
      PoppedFrame(s0, stream, highestReceived);
      currentFrame, currentFrameDone := data, done;
      currentFrameIsLast := offset + (if data.Some? then |data.value| else 0) >= finalOffset && !cancelledRemotely;
      readPosInFrame := 0;
    }

    /** What a pop hands out is the next piece of the stream. */
    static lemma PoppedFrame(s: Sorter, stream: seq<byte>, highest: nat)
      requires Inv(s) && Matches(s.queue, stream[..Min(highest, |stream|)])
      ensures var r := SorterRuns.Pop(s);
        && Matches(r.sorter.queue, stream[..Min(highest, |stream|)])
        && (r.entry == None ==> r.sorter.readPos == s.readPos)
        && (r.entry.Some? ==>
              && r.sorter.readPos == s.readPos + |r.entry.value.data|
              && 0 < |r.entry.value.data|
              && r.sorter.readPos <= Min(highest, |stream|)
              && 0 <= s.readPos
              && r.entry.value.data == stream[s.readPos..r.sorter.readPos])
    {
    }

    // ---------------------------------------------------------- completion

    /** Completion is reported at most once. */
    method IsNewlyCompleted() returns (newly: bool)
      requires completed ==> finalOffset != MAX_BYTE_COUNT && (cancelledLocally || errorRead)
      requires reports == (if completed then 1 else 0)
      modifies this`completed, this`reports
      ensures CompletionOk()
      ensures newly <==> completed && !old(completed)
      ensures old(completed) ==> completed
    {
      newly := false;
      if completed || finalOffset == MAX_BYTE_COUNT {
        return;
      }
      if cancelledLocally || errorRead {
        completed := true;
        reports := reports + 1;
        return true;
      }
    }

    // ---------------------------------------------------------- reading

    static lemma PieceOf(frame: seq<byte>, stream: seq<byte>, popped: nat, pos: nat, m: nat)
      requires pos + m <= |frame| <= popped <= |stream|
      requires frame == stream[popped - |frame|..popped]
      ensures var at := popped - |frame| + pos;
        stream[..at] + frame[pos..pos + m] == stream[..at + m]
    {
      var base := popped - |frame|;
      assert forall i :: 0 <= i < |frame| ==> frame[i] == stream[base + i];
    }

    /** Copy from the current frame. */
    method Copy(n: nat) returns (data: seq<byte>)
      requires DataOk() && currentFrame.Some?
      modifies this`readPosInFrame, this`readPos, this`read
      ensures DataOk()
      ensures |data| == Min(n, |currentFrame.value| - old(readPosInFrame))
      ensures readPosInFrame == old(readPosInFrame) + |data|
      ensures read == old(read) + data
    {
      hide Inv, Matches;
      var m := Min(n, |currentFrame.value| - readPosInFrame);
      data := currentFrame.value[readPosInFrame..readPosInFrame + m];
      PieceOf(currentFrame.value, stream, frameQueue.readPos, readPosInFrame, m);
      readPosInFrame, readPos, read := readPosInFrame + m, readPos + m, read + data;
    }

    predicate Interrupted()
      reads this`closeForShutdownErr, this`cancelledLocally, this`cancelledRemotely, this`readPos, this`reliableSize
    {
      closeForShutdownErr || cancelledLocally || IsRemoteCancellationEffective()
    }

    /**
     Read at most n bytes. What is returned continues the stream exactly where the previous
     Read stopped. io.EOF is returned only when all bytes up to the final offset have been
     read, and a Read that has to wait does so only if the next byte is missing.
     */
    method Read(n: nat) returns (data: seq<byte>, status: ReadStatus, newly: bool)
      requires Valid()
      modifies this`currentFrame, this`currentFrameDone, this`currentFrameIsLast, this`readPosInFrame, this`readPos,
               this`read, this`errorRead, this`completed, this`reports, frameQueue
      ensures Valid()
      ensures |data| <= n && read == old(read) + data
      ensures frameQueue.gaps == old(frameQueue.gaps)
      ensures status != ReadOk || |data| < n ==> Stopped(status)
      ensures status == WouldBlock ==> data == []
      ensures status == ReadOk && n > 0 ==> data != []
      ensures newly <==> completed && !old(completed)
      ensures errorRead == (old(errorRead) || status in {ReadEOF, ReadCancelled})
      ensures status in {ReadEOF, ReadCancelled} && receivedFinalOffset ==> completed
      ensures status == WouldBlock ==> !Interrupted()
      ensures status == ReadOk && |data| == n ==> !IsRemoteCancellationEffective()
      ensures old(Interrupted() && !(currentFrameIsLast && currentFrame == None)) ==> data == [] && Refused(status)
    {
      hide Inv, Matches, InGap, Positioned;
      data, status := ReadImpl(n);
      newly := IsNewlyCompleted();
    }

    /** The Read without its report of completion. */
    method ReadImpl(n: nat) returns (data: seq<byte>, status: ReadStatus)
      requires DataOk()
      modifies this`currentFrame, this`currentFrameDone, this`currentFrameIsLast, this`readPosInFrame, this`readPos,
               this`read, this`errorRead, frameQueue
      ensures DataOk()
      ensures |data| <= n && read == old(read) + data
      ensures frameQueue.gaps == old(frameQueue.gaps)
      ensures status != ReadOk || |data| < n ==> Stopped(status)
      ensures status == WouldBlock ==> data == []
      ensures status == ReadOk && n > 0 ==> data != []
      ensures errorRead == (old(errorRead) || status in {ReadEOF, ReadCancelled})
      ensures status == WouldBlock ==> !Interrupted()
      ensures status == ReadOk && |data| == n ==> !IsRemoteCancellationEffective()
      ensures old(Interrupted() && !(currentFrameIsLast && currentFrame == None)) ==> data == [] && Refused(status)
    {
      hide Inv, Matches, InGap, Positioned;
      data := [];
      if currentFrameIsLast && currentFrame == None {
        AtEnd();
        errorRead := true;
        return data, ReadEOF;
      }
      if cancelledLocally || IsRemoteCancellationEffective() {
        errorRead := true;
        return data, ReadCancelled;
      }
      if closeForShutdownErr {
        return data, ReadShutdown;
      }
      var stop := None;
      while |data| < n && stop == None
        invariant DataOk() && |data| <= n && read == old(read) + data
        invariant frameQueue.gaps == old(frameQueue.gaps)
        invariant !cancelledLocally && !closeForShutdownErr
        invariant stop.Some? ==>
          Stopped(stop.value) && (stop.value == WouldBlock ==> data == []) && (stop.value == ReadOk ==> data != [])
        invariant errorRead == (old(errorRead) || stop in {Some(ReadEOF), Some(ReadCancelled)})
        invariant stop == Some(WouldBlock) ==> !Interrupted()
        invariant stop == Some(ReadOk) ==> |data| < n
        decreases n - |data|, stop == None
      {
        var piece;
        piece, stop := ReadStep(n - |data|, |data| > 0);
        data := data + piece;
      }
      if stop.Some? {
        return data, stop.value;
      }
      if IsRemoteCancellationEffective() {
        errorRead := true;
        return data, ReadCancelled;
      }
      return data, ReadOk;
    }

    /** The error of a cancelled stream, or else that of one that was shut down. */
    ghost predicate Refused(status: ReadStatus)
      reads this
    {
      status == if cancelledLocally || IsRemoteCancellationEffective() then ReadCancelled else ReadShutdown
    }

    /** Why reading stopped before the buffer was full. */
    ghost predicate Stopped(status: ReadStatus)
      reads this, frameQueue
    {
      match status
      case ReadEOF => receivedFinalOffset && |read| == finalOffset
      case WouldBlock => InGap(frameQueue.gaps, readPos) &&
        (!cancelledRemotely ==> !(receivedFinalOffset && readPos == finalOffset))
      case ReadOk => InGap(frameQueue.gaps, readPos)
      case _ => Interrupted()
    }

    /** One pass of the read loop: a piece of the current frame, or the reason to stop. */
    method ReadStep(want: nat, hasData: bool) returns (piece: seq<byte>, stop: Option<ReadStatus>)
      requires DataOk() && want > 0 && !cancelledLocally && !closeForShutdownErr
      modifies this`currentFrame, this`currentFrameDone, this`currentFrameIsLast, this`readPosInFrame, this`readPos,
               this`read, this`errorRead, frameQueue
      ensures DataOk() && frameQueue.gaps == old(frameQueue.gaps)
      ensures |piece| <= want && read == old(read) + piece
      ensures stop == None ==> |piece| > 0
      ensures stop.Some? ==> Stopped(stop.value)
      ensures stop == Some(WouldBlock) ==> piece == [] && !hasData
      ensures stop == Some(ReadOk) ==> hasData
      ensures errorRead == (old(errorRead) || stop in {Some(ReadEOF), Some(ReadCancelled)})
      ensures stop == Some(WouldBlock) ==> !Interrupted()
      ensures stop == Some(ReadOk) ==> piece == []
    {
      hide Inv, Matches, InGap, Positioned;
      piece := [];
      FrameBounds();
      if currentFrame == None || readPosInFrame >= |currentFrame.value| {
        DequeueNextFrame();
      }
      FrameBounds();
      if currentFrame == None && hasData {
        return piece, Some(ReadOk);
      }
      if IsRemoteCancellationEffective() {
        errorRead := true;
        return piece, Some(ReadCancelled);
      }
      if currentFrame == None && !currentFrameIsLast {
        return piece, Some(WouldBlock);
      }
      if currentFrame.Some? {
        piece := Copy(want);
      }
      if currentFrameIsLast && (currentFrame == None || readPosInFrame >= |currentFrame.value|) {
        ReleaseLast();
        errorRead := true;
        return piece, Some(ReadEOF);
      }
      return piece, None;
    }

    method ReleaseLast()
      requires DataOk() && currentFrameIsLast
      requires currentFrame == None || readPosInFrame >= |currentFrame.value|
      modifies this`currentFrame
      ensures DataOk() && |read| == finalOffset && receivedFinalOffset
    {
      hide Inv, Matches;
      currentFrame := None;
    }

    lemma AtEnd()
      requires DataOk() && currentFrameIsLast && currentFrame == None
      ensures receivedFinalOffset && |read| == finalOffset
    {
      hide Inv, Matches;
    }

    lemma FrameBounds()
      requires DataOk()
      ensures currentFrame.Some? ==> readPosInFrame <= |currentFrame.value|
      ensures currentFrame == None ==> readPos == frameQueue.readPos
    {
      hide Inv, Matches;
    }

    // ---------------------------------------------------------- peeking

    /** Up to where a Peek looks for missing bytes. */
    function PeekLimit(): int
      reads this`cancelledRemotely, this`reliableSize, this`finalOffset
    {
      if cancelledRemotely then reliableSize else finalOffset
    }

    ghost predicate MissingBelow(end: int)
      reads this`readPos, frameQueue
    {
      exists x :: readPos <= x < end && InGap(frameQueue.gaps, x)
    }

    lemma RestOfFrame()
      requires DataOk() && currentFrame.Some?
      ensures readPosInFrame <= |currentFrame.value| && readPos <= frameQueue.readPos <= |stream|
      ensures frameQueue.readPos - readPos == |currentFrame.value| - readPosInFrame
      ensures currentFrame.value[readPosInFrame..] == stream[readPos..frameQueue.readPos]
    {
      hide Inv, Matches;
    }

    /** The m bytes behind the current frame, unless one of them is missing. */
    method PeekAhead(m: int) returns (ahead: Option<seq<byte>>)
      requires DataOk()
      ensures m <= 0 ==> ahead == Some([])
      ensures m > 0 ==>
        (ahead == None <==> exists x :: frameQueue.readPos <= x < frameQueue.readPos + m && InGap(frameQueue.gaps, x))
      ensures ahead.Some? ==>
        && |ahead.value| == Max(m, 0) && 0 <= frameQueue.readPos &&
             frameQueue.readPos + |ahead.value| <= Min(highestReceived, |stream|)
        && ahead.value == stream[frameQueue.readPos..frameQueue.readPos + |ahead.value|]
    {
      hide Inv, Matches, InGap;
      if m <= 0 {
        return Some([]);
      }
      PopKeepsInv(frameQueue.State());
      ghost var known := stream[..Min(highestReceived, |stream|)];
      ahead := frameQueue.Peek(frameQueue.readPos, m, known);
      if ahead.Some? {
        assert known[frameQueue.readPos..frameQueue.readPos + m] == stream[frameQueue.readPos..frameQueue.readPos + m];
      }
    }

    /** The next total bytes, from the current frame and the frames behind it, unless one of them is missing. */
    method PeekTo(total: nat) returns (data: Option<seq<byte>>)
      requires DataOk() && currentFrame.Some?
      ensures data == None ==> MissingBelow(readPos + total) && frameQueue.readPos < readPos + total
      ensures data.Some? ==>
        && |data.value| == total && readPos + total <= Min(highestReceived, |stream|)
        && data.value == stream[readPos..readPos + total]
    {
      hide Inv, Matches, InGap, Positioned;
      RestOfFrame();
      var rest := currentFrame.value[readPosInFrame..];
      var ahead := PeekAhead(total - |rest|);
      if ahead == None {
        return None;
      }
      PieceOfStream(rest, ahead.value, total);
      return Some((rest + ahead.value)[..total]);
    }

    /** Peek when a frame is at hand; WouldBlock means that not enough has been received. */
    method PeekFrame(n: nat) returns (data: seq<byte>, status: ReadStatus)
      requires DataOk() && currentFrame.Some? && readPosInFrame < |currentFrame.value| && n > 0
      requires !IsRemoteCancellationEffective()
      ensures |data| <= n && readPos + |data| <= |stream| && data == stream[readPos..readPos + |data|]
      ensures Peeked(n, data, status) && (status == WouldBlock ==> !currentFrameIsLast)
    {
      hide Inv, Matches, InGap, Positioned;
      RestOfFrame();
      ReadWithinStream();
      var part := PeekTo(n);
      if part.Some? {
        return part.value, ReadOk;
      }
      if currentFrameIsLast {
        return currentFrame.value[readPosInFrame..], ReadEOF;
      }
      if cancelledRemotely && readPos + n > reliableSize {
        part := PeekTo(reliableSize - readPos);
        if part.Some? {
          return part.value, ReadCancelled;
        }
      }
      if readPos + n > finalOffset {
        part := PeekTo(finalOffset - readPos);
        if part.Some? {
          return part.value, ReadEOF;
        }
      }
      return [], WouldBlock;
    }

    lemma PieceOfStream(rest: seq<byte>, ahead: seq<byte>, n: nat)
      requires 0 <= readPos <= frameQueue.readPos && frameQueue.readPos + |ahead| <= |stream| && n <= |rest + ahead|
      requires rest == stream[readPos..frameQueue.readPos] &&
        ahead == stream[frameQueue.readPos..frameQueue.readPos + |ahead|]
      ensures (rest + ahead)[..n] == stream[readPos..readPos + n]
    {
    }

    /** What each outcome of a Peek says. */
    ghost predicate Peeked(n: nat, data: seq<byte>, status: ReadStatus)
      reads this, frameQueue
    {
      match status
      case ReadOk => |data| == n
      case ReadEOF => receivedFinalOffset && readPos + |data| == finalOffset
      case WouldBlock => data == [] && MissingBelow(Min(readPos + n, PeekLimit()))
      case ReadCancelled => (data == [] && (cancelledLocally || IsRemoteCancellationEffective())) ||
        (cancelledRemotely && readPos + |data| == reliableSize)
      case ReadShutdown => data == [] && closeForShutdownErr
    }

    /**
     Peek at n bytes: what is returned is what the next Read will return, and nothing is consumed.
     Fewer than n bytes are returned only up to the end or the reliable size of the stream, and
     Peek waits only if one of the bytes it needs is missing.
     */
    method Peek(n: nat) returns (data: seq<byte>, status: ReadStatus)
      requires Valid()
      modifies this`currentFrame, this`currentFrameDone, this`currentFrameIsLast, this`readPosInFrame, frameQueue
      ensures Valid() && frameQueue.gaps == old(frameQueue.gaps)
      ensures |data| <= n && readPos + |data| <= |stream| && data == stream[readPos..readPos + |data|]
      ensures n == 0 ==> status == ReadOk
      ensures n > 0 ==> Peeked(n, data, status)
    {
      hide Inv, Matches, InGap, Positioned;
      ReadWithinStream();
      data := [];
      if n == 0 {
        return data, ReadOk;
      }
      if currentFrameIsLast && currentFrame == None {
        AtEnd();
        return data, ReadEOF;
      }
      if cancelledLocally || IsRemoteCancellationEffective() {
        return data, ReadCancelled;
      }
      if closeForShutdownErr {
        return data, ReadShutdown;
      }
      FrameBounds();
      if currentFrame == None || readPosInFrame >= |currentFrame.value| {
        DequeueNextFrame();
      }
      FrameBounds();
      if currentFrame.Some? {
        if readPosInFrame < |currentFrame.value| {
          data, status := PeekFrame(n);
          if status != WouldBlock {
            return;
          }
        }
      }
      if currentFrameIsLast || readPos >= finalOffset {
        AtFinalOffset();
        return [], ReadEOF;
      }
      return [], WouldBlock;
    }

    lemma ReadWithinStream()
      requires DataOk()
      ensures readPos <= |stream| && readPos <= highestReceived
    {
      hide Inv, Matches;
    }

    lemma AtFinalOffset()
      requires DataOk() && (readPos >= finalOffset || (currentFrameIsLast && currentFrame == None))
      ensures receivedFinalOffset && readPos == finalOffset
    {
      hide Inv, Matches;
    }

    // ---------------------------------------------------------- receiving

    /** The frame contradicts what is known about the final size (section 4.5 of RFC 9000). */
    predicate ContradictsFinalSize(offset: nat, final: bool)
      reads this`highestReceived, this`receivedFinalOffset
    {
      (receivedFinalOffset && offset > highestReceived) || (final && offset < highestReceived)
    }

    method UpdateHighestReceived(offset: nat, final: bool, window: nat) returns (err: Option<ReceiveError>)
      modifies this`highestReceived, this`receivedFinalOffset
      ensures err == Some(FinalSizeError) <==> old(ContradictsFinalSize(offset, final))
      ensures err == Some(FlowControlError) <==>
        !old(ContradictsFinalSize(offset, final)) && old(highestReceived) < offset && window < offset
      ensures err != Some(SorterError)
      ensures err == None ==>
        && highestReceived == Max(old(highestReceived), offset)
        && receivedFinalOffset == (old(receivedFinalOffset) || final)
        && (final ==> highestReceived == offset)
        && (old(receivedFinalOffset) ==> highestReceived == old(highestReceived))
    {
      if receivedFinalOffset {
        if final && offset != highestReceived {
          return Some(FinalSizeError);
        }
        if offset > highestReceived {
          return Some(FinalSizeError);
        }
      }
      if final {
        receivedFinalOffset := true;
      }
      if offset == highestReceived {
        return None;
      }
      if offset < highestReceived {
        if final {
          return Some(FinalSizeError);
        }
        return None;
      }
      highestReceived := offset;
      if highestReceived > window {
        return Some(FlowControlError);
      }
      return None;
    }

    /** Knowing more of the stream does not change what is known already. */
    static lemma LongerStream(queue: map<int, Entry>, stream: seq<byte>, highest: nat, now: seq<byte>, highest': nat)
      requires Matches(queue, stream[..Min(highest, |stream|)])
      requires stream <= now && highest <= highest'
      ensures Matches(queue, now[..Min(highest', |now|)])
    {
      var a, b := Min(highest, |stream|), Min(highest', |now|);
      assert stream == now[..|stream|] && a <= b;
      forall p | p in queue
        ensures Agrees(queue[p].data, p, now[..b])
      {
        var d := queue[p].data;
        assert Agrees(d, p, stream[..a]);
        PrefixSlice(stream, a, p, p + |d|);
        PrefixSlice(now, |stream|, p, p + |d|);
        PrefixSlice(now, b, p, p + |d|);
      }
    }

    static lemma PrefixSlice(s: seq<byte>, k: nat, i: nat, j: nat)
      requires i <= j <= k <= |s|
      ensures s[..k][i..j] == s[i..j]
    {
    }

    static lemma StillPositioned(stream: seq<byte>, now: seq<byte>, popped: int, current: Option<seq<byte>>,
                                 posInFrame: nat, readPos: nat)
      requires Positioned(stream, popped, current, posInFrame, readPos) && stream <= now
      ensures Positioned(now, popped, current, posInFrame, readPos)
      ensures readPos <= |stream| && stream[..readPos] == now[..readPos]
    {
    }

    /**
     handleStreamFrame, for a frame that carries what the stream (as far as known now) holds
     at its offset. Errors are a contradiction to the final size, a frame beyond the window,
     or too many gaps; anything else is accepted in any order and any number of times.
     */
    method HandleStreamFrame(frame: StreamFrame, window: nat, ghost now: seq<byte>)
      returns (err: Option<ReceiveError>, newly: bool)
      requires Valid() && window < MAX_BYTE_COUNT
      requires stream <= now && Agrees(frame.data, frame.offset, now)
      modifies this`finalOffset, this`highestReceived, this`receivedFinalOffset, this`completed, this`reports,
               this`stream, frameQueue
      ensures err == None ==> Valid() && stream == now
      ensures err == Some(FinalSizeError) <==> old(ContradictsFinalSize(FrameEnd(frame), frame.fin))
      ensures err == Some(FlowControlError) ==> window < FrameEnd(frame)
      ensures err == Some(SorterError) ==> |old(frameQueue.gaps)| == MAX_SORTER_GAPS
      ensures err == None ==>
        && highestReceived == Max(old(highestReceived), FrameEnd(frame))
        && receivedFinalOffset == (old(receivedFinalOffset) || frame.fin)
      ensures err == None && !cancelledLocally ==>
        forall x :: 0 <= x < MAX_BYTE_COUNT ==>
          (InGap(frameQueue.gaps, x) <==> old(InGap(frameQueue.gaps, x)) && !(frame.offset <= x < FrameEnd(frame)))
      ensures CompletionOk() && (newly <==> completed && !old(completed))
    {
      hide Inv, Matches, Positioned, InGap, Agrees;
      err := HandleStreamFrameImpl(frame, window, now);
      newly := IsNewlyCompleted();
    }

    /** The same without the report of completion. */
    method HandleStreamFrameImpl(frame: StreamFrame, window: nat, ghost now: seq<byte>)
        returns (err: Option<ReceiveError>)
      requires DataOk() && window < MAX_BYTE_COUNT
      requires stream <= now && Agrees(frame.data, frame.offset, now)
      modifies this`finalOffset, this`highestReceived, this`receivedFinalOffset, this`stream, frameQueue
      ensures err == None ==> DataOk() && stream == now
      ensures old(finalOffset) != MAX_BYTE_COUNT ==> finalOffset != MAX_BYTE_COUNT
      ensures err == Some(FinalSizeError) <==> old(ContradictsFinalSize(FrameEnd(frame), frame.fin))
      ensures err == Some(FlowControlError) ==> window < FrameEnd(frame)
      ensures err == Some(SorterError) ==> |old(frameQueue.gaps)| == MAX_SORTER_GAPS
      ensures err == None ==>
        && highestReceived == Max(old(highestReceived), FrameEnd(frame))
        && receivedFinalOffset == (old(receivedFinalOffset) || frame.fin)
      ensures err == None && !cancelledLocally ==>
        forall x :: 0 <= x < MAX_BYTE_COUNT ==>
          (InGap(frameQueue.gaps, x) <==> old(InGap(frameQueue.gaps, x)) && !(frame.offset <= x < FrameEnd(frame)))
    {
      hide Inv, Matches, Positioned, InGap, Agrees;
      err := UpdateHighestReceived(FrameEnd(frame), frame.fin, window);
      if err.Some? {
        return;
      }
      if frame.fin {
        finalOffset := FrameEnd(frame);
      }
      Extend(now, old(highestReceived));
      if cancelledLocally {
        return;
      }
      var outcome := PushFrame(frame);
      if outcome == TooManyGaps {
        err := Some(SorterError);
      }
    }

    /** More of the stream is known. */
    ghost method Extend(now: seq<byte>, highest0: nat)
      requires Inv(frameQueue.State()) && Matches(frameQueue.queue, stream[..Min(highest0, |stream|)])
      requires Positioned(stream, frameQueue.readPos, currentFrame, readPosInFrame, readPos)
      requires stream <= now && highest0 <= highestReceived && read == stream[..readPos]
      modifies this`stream
      ensures stream == now
      ensures Matches(frameQueue.queue, stream[..Min(highestReceived, |stream|)])
      ensures Positioned(stream, frameQueue.readPos, currentFrame, readPosInFrame, readPos)
      ensures read == stream[..readPos]
    {
      LongerStream(frameQueue.queue, stream, highest0, now, highestReceived);
      StillPositioned(stream, now, frameQueue.readPos, currentFrame, readPosInFrame, readPos);
      stream := now;
    }

    method PushFrame(frame: StreamFrame) returns (outcome: Outcome)
      requires DataOk() && FrameEnd(frame) <= highestReceived
      requires Agrees(frame.data, frame.offset, stream)
      modifies frameQueue
      ensures outcome in {Stored, Duplicate, TooManyGaps}
      ensures outcome != TooManyGaps ==> DataOk()
      ensures outcome == TooManyGaps ==> |old(frameQueue.gaps)| == MAX_SORTER_GAPS
      ensures forall x :: 0 <= x < MAX_BYTE_COUNT ==>
        (InGap(frameQueue.gaps, x) <==> old(InGap(frameQueue.gaps, x)) && !(frame.offset <= x < FrameEnd(frame)))
    {
      hide Inv, Matches, Positioned, InGap, SorterSpec.Push, DoneCalls;
      ghost var s0 := frameQueue.State();
      ghost var known := stream[..Min(highestReceived, |stream|)];
      outcome := frameQueue.Push(frame.data, frame.offset, Some(0));
      PushOutcome(s0, frame, known);
      assert Agrees(frame.data, frame.offset, known) by {
        assert known[frame.offset..FrameEnd(frame)] == stream[frame.offset..FrameEnd(frame)];
      }
    }

    static lemma PushOutcome(s: Sorter, frame: StreamFrame, known: seq<byte>)
      requires Inv(s) && FrameEnd(frame) < MAX_BYTE_COUNT
      ensures var r := SorterSpec.Push(s, frame.data, frame.offset, Some(0));
        && r.outcome != Panic
        && r.sorter.readPos == s.readPos
        && (r.outcome == TooManyGaps ==> |s.gaps| == MAX_SORTER_GAPS)
        && (Matches(s.queue, known) && Agrees(frame.data, frame.offset, known) ==> Matches(r.sorter.queue, known))
        && forall x :: 0 <= x < MAX_BYTE_COUNT ==>
             (InGap(r.sorter.gaps, x) <==> InGap(s.gaps, x) && !(frame.offset <= x < FrameEnd(frame)))
    {
      hide Inv, Matches, InGap, SorterSpec.Push, Agrees;
      FrameAtMaximumPanics(s, frame.data, frame.offset, Some(0));
      PushCases(s, frame.data, frame.offset, Some(0));
      PushHitsGapLimit(s, frame.data, frame.offset, Some(0));
      if Matches(s.queue, known) && Agrees(frame.data, frame.offset, known) {
        PushMatches(s, frame.data, frame.offset, Some(0), known);
      }
      forall x | 0 <= x < MAX_BYTE_COUNT
        ensures InGap(SorterSpec.Push(s, frame.data, frame.offset, Some(0)).sorter.gaps, x) <==>
                InGap(s.gaps, x) && !(frame.offset <= x < FrameEnd(frame))
      {
        PushFillsGaps(s, frame.data, frame.offset, Some(0), x);
      }
    }

    // ---------------------------------------------------------- cancellation

    method CancelRead() returns (queued: bool, newly: bool)
      requires Valid()
      modifies this`cancelledLocally, this`queuedStopSending, this`completed, this`reports
      ensures Valid() && read == old(read)
      ensures cancelledLocally == (old(cancelledLocally) || !closeForShutdownErr)
      ensures queued <==> !old(cancelledLocally) && !closeForShutdownErr && !errorRead && !cancelledRemotely
      ensures queuedStopSending == (old(queuedStopSending) || queued)
      ensures newly <==> completed && !old(completed)
    {
      hide Inv, Matches, Positioned;
      queued := false;
      if !cancelledLocally && !closeForShutdownErr {
        cancelledLocally := true;
        if !errorRead && !cancelledRemotely {
          queuedStopSending := true;
          queued := true;
        }
      }
      newly := IsNewlyCompleted();
    }

    /** RESET_STREAM(_AT): the final size is checked like that of a FIN. */
    method HandleResetStreamFrame(r: ResetFrame, window: nat) returns (err: Option<ReceiveError>, newly: bool)
      requires Valid() && window < MAX_BYTE_COUNT
      modifies this`finalOffset, this`highestReceived, this`receivedFinalOffset, this`reliableSize,
               this`cancelledRemotely, this`completed, this`reports
      ensures err == None ==> Valid() && read == old(read)
      ensures CompletionOk() && (newly <==> completed && !old(completed))
      ensures !closeForShutdownErr ==> (err == Some(FinalSizeError) <==> old(ContradictsFinalSize(r.finalSize, true)))
      ensures err == None && !closeForShutdownErr ==>
        && receivedFinalOffset && finalOffset == r.finalSize
        && cancelledRemotely == (old(cancelledRemotely) || !cancelledLocally)
        && reliableSize == (if !old(cancelledRemotely) && old(reliableSize) == 0 then r.reliableSize
                            else Min(old(reliableSize), r.reliableSize))
    {
      hide Inv, Matches, Positioned;
      err, newly := None, false;
      if !closeForShutdownErr {
        ghost var highest0 := highestReceived;
        err := UpdateHighestReceived(r.finalSize, true, window);
        if err == None {
          LongerStream(frameQueue.queue, stream, highest0, stream, highestReceived);
          finalOffset := r.finalSize;
          if (!cancelledRemotely && reliableSize == 0) || r.reliableSize < reliableSize {
            reliableSize := r.reliableSize;
          }
          if !cancelledRemotely && !cancelledLocally {
            cancelledRemotely := true;
          }
        }
      }
      newly := IsNewlyCompleted();
    }

    method CloseForShutdown()
      requires Valid()
      modifies this`closeForShutdownErr
      ensures Valid() && closeForShutdownErr && read == old(read)
    {
      hide Inv, Matches, Positioned;
      closeForShutdownErr := true;
    }
  }
}
