/**
 A send stream and the matching receive stream over a network that loses, duplicates,
 delays and reorders frames: the ordered byte-stream guarantee of section 2.2 of RFC 9000.
 */
module EndToEnd {
  import opened Protocol
  import opened Wire
  import opened SorterSpec
  import opened SorterRuns
  import opened FrameSorterObject
  import opened SendStreamObject
  import opened ReceiveStreamObject

  /** One event: an application call, a packet built, delivered, acknowledged or declared lost. */
  datatype Event =
    | WriteEvent(p: seq<byte>)
    | WritePassEvent
    | WriteTimeoutEvent
    | CloseEvent
    | PopEvent(maxBytes: nat, window: nat)
    | DeliverEvent(frame: StreamFrame, receiveWindow: nat)
    | AckEvent(acked: StreamFrame)
    | LossEvent(lost: StreamFrame)
    | ReadEvent(n: nat)

  /** Every byte of the frames has been received, and so has their FIN. */
  ghost predicate AllReceived(frames: set<StreamFrame>, gaps: seq<Interval>, final: bool) {
    && (forall f, x :: f in frames && f.offset <= x < FrameEnd(f) && x < MAX_BYTE_COUNT ==> !InGap(gaps, x))
    && (forall f :: f in frames && f.fin ==> final)
  }

  lemma OneMoreReceived(frames: set<StreamFrame>, gaps: seq<Interval>, final: bool, f: StreamFrame,
                        gaps': seq<Interval>)
    requires AllReceived(frames, gaps, final)
    requires forall x :: 0 <= x < MAX_BYTE_COUNT ==>
      (InGap(gaps', x) <==> InGap(gaps, x) && !(f.offset <= x < FrameEnd(f)))
    ensures AllReceived(frames + {f}, gaps', final || f.fin)
  {
    hide InGap;
  }

  class StreamPair {
    const sender: SendStream
    const receiver: ReceiveStream

    /** The frames that have reached the receiver, which acknowledges nothing else. */
    var arrived: set<StreamFrame>

    /** The bytes handed to the network so far. */
    ghost function Sent(): seq<byte>
      requires sender.writeOffset <= |sender.accepted|
      reads sender
    {
      sender.accepted[..sender.writeOffset]
    }

    /** What the receiver knows was sent, and a final size it knows is the sender's. */
    ghost predicate Agreed()
      requires sender.writeOffset <= |sender.accepted|
      reads sender, receiver
    {
      && receiver.stream <= Sent()
      && receiver.highestReceived <= |Sent()|
      && (receiver.receivedFinalOffset ==>
           sender.finSent && receiver.highestReceived == |sender.accepted| == sender.writeOffset)
    }

    ghost predicate Valid()
      reads this, sender, receiver, receiver.frameQueue
    {
      && sender.Valid() && sender.Undisturbed()
      && receiver.Valid()
      && sender.writeOffset <= |sender.accepted|
      && Agreed()
      && sender.acked <= arrived
      && AllReceived(arrived, receiver.frameQueue.gaps, receiver.receivedFinalOffset)
      && !receiver.cancelledLocally && !receiver.cancelledRemotely && !receiver.closeForShutdownErr
    }

    /**
     Reliable delivery: once the sender's stream is complete, the receiver knows its final size
     and has every byte of it.
     */
    lemma CompletedMeansDelivered()
      requires Valid() && sender.completed
      ensures receiver.receivedFinalOffset && receiver.finalOffset == |sender.accepted| < MAX_BYTE_COUNT
      ensures forall x :: 0 <= x < |sender.accepted| ==> !InGap(receiver.frameQueue.gaps, x)
    {
      hide BooksOk, CountOk, Inv, Matches, Positioned, InGap;
      sender.CompletedIffFinished();
      var fin :| fin in sender.acked && fin.fin;
      assert fin in arrived;
      forall x | 0 <= x < |sender.accepted|
        ensures !InGap(receiver.frameQueue.gaps, x)
      {
        assert CoversByte(sender.acked, x);
        var f :| f in sender.acked && f.offset <= x < FrameEnd(f);
        assert f in arrived;
      }
    }

    /** The guarantee: whatever has been read is a prefix of what has been written. */
    lemma ReadIsPrefix()
      requires Valid()
      ensures receiver.read <= sender.accepted
      ensures receiver.receivedFinalOffset && |receiver.read| == receiver.finalOffset ==>
              sender.finSent && receiver.read == sender.accepted
    {
      hide BooksOk, CountOk, Inv, Matches;
      assert receiver.read == receiver.stream[..receiver.readPos];
    }

    constructor ()
      ensures Valid() && fresh(sender) && fresh(receiver) && fresh(receiver.frameQueue)
      ensures sender.accepted == [] && receiver.read == [] && arrived == {}
    {
      sender := new SendStream(0, false);
      receiver := new ReceiveStream();
      arrived := {};
    }

    /** Frames on the wire carry sent bytes, and only the last byte's frame carries the FIN. */
    lemma OnWire(f: StreamFrame)
      requires sender.Valid() && sender.Undisturbed() && f in sender.wire
      ensures sender.writeOffset <= |sender.accepted|
      ensures Agrees(f.data, f.offset, sender.accepted[..sender.writeOffset])
      ensures FrameEnd(f) <= sender.writeOffset
      ensures f.fin ==> sender.finSent && FrameEnd(f) == |sender.accepted|
      ensures sender.finSent ==> sender.writeOffset == |sender.accepted|
    {
    }

    lemma SentWithinAccepted()
      requires sender.Valid() && sender.Undisturbed()
      ensures sender.writeOffset <= |sender.accepted|
      ensures sender.finSent ==> sender.finishedWriting && sender.writeOffset == |sender.accepted|
    {
    }

    // ---------------------------------------------------------- events at the receiver

    /**
     The network delivers some frame that was sent at some time, perhaps not for the first
     time. The receiver never sees a contradiction to the final size.
     */
    method Deliver(frame: StreamFrame, receiveWindow: nat) returns (err: Option<ReceiveError>)
      requires Valid() && receiveWindow < MAX_BYTE_COUNT
      requires frame in sender.wire
      modifies this`arrived, receiver, receiver.frameQueue
      ensures err == None ==> Valid() && arrived == old(arrived) + {frame}
      ensures err != Some(FinalSizeError)
      ensures err == None ==> receiver.read == old(receiver.read)
    {
      hide BooksOk, CountOk, Inv, Matches, Positioned, AllReceived, InGap;
      OnWire(frame);
      ghost var sent := Sent();
      var newly;
      err, newly := receiver.HandleStreamFrame(frame, receiveWindow, sent);
      if err == None {
        OneMoreReceived(arrived, old(receiver.frameQueue.gaps), old(receiver.receivedFinalOffset), frame,
                        receiver.frameQueue.gaps);
        arrived := arrived + {frame};
      }
    }

    /**
     Reading returns the next bytes of what was written; EOF comes after the very last of them. Once
     the sender's stream is complete, no Read waits, and one that returns less than it was asked for
     has returned the last byte.
     */
    method Read(n: nat) returns (data: seq<byte>, status: ReadStatus)
      requires Valid()
      modifies receiver, receiver.frameQueue
      ensures Valid()
      ensures receiver.read == old(receiver.read) + data && receiver.read <= sender.accepted
      ensures status == ReadEOF ==> sender.finSent && receiver.read == sender.accepted
      ensures sender.completed ==> status in {ReadOk, ReadEOF} && (|data| < n ==> receiver.read == sender.accepted)
      ensures status == ReadOk && n > 0 ==> data != []
    {
      hide BooksOk, CountOk, Inv, Matches, Positioned, InGap, AllReceived;
      var newly;
      data, status, newly := receiver.Read(n);
      ReadIsPrefix();
      if sender.completed {
        CompletedMeansDelivered();
        receiver.ReadWithinStream();
        ReadSoFar();
      }
    }

    lemma ReadSoFar()
      requires Valid()
      ensures |receiver.read| == receiver.readPos <= |sender.accepted|
      ensures |receiver.read| == |sender.accepted| ==> receiver.read == sender.accepted
    {
      hide BooksOk, CountOk, Inv, Matches;
      ReadIsPrefix();
    }

    /** Once the sender's stream is complete, reading on yields everything that was written, then EOF. */
    method ReadToEnd(n: nat) returns (got: seq<byte>)
      requires Valid() && sender.completed && n > 0
      modifies receiver, receiver.frameQueue
      ensures Valid() && receiver.read == old(receiver.read) + got == sender.accepted
    {
      hide sender.Valid, receiver.Valid, Agreed, AllReceived;
      got := [];
      var status := ReadOk;
      ReadIsPrefix();
      while status != ReadEOF
        invariant Valid() && sender.completed && receiver.read == old(receiver.read) + got &&
          receiver.read <= sender.accepted
        invariant status == ReadEOF ==> receiver.read == sender.accepted
        decreases |sender.accepted| - |receiver.read|, status != ReadEOF
      {
        var data;
        data, status := Read(n);
        got := got + data;
      }
    }

    // ---------------------------------------------------------- events at the sender

    method Write(p: seq<byte>)
      requires Valid() && sender.writing == None
      modifies sender
      ensures Valid() && receiver.read <= sender.accepted
      ensures sender.finSent == old(sender.finSent) && (sender.finSent ==> sender.accepted == old(sender.accepted))
    {
      hide BooksOk, CountOk, Inv, Matches, Positioned, AllReceived;
      SentWithinAccepted();
      var written, newly := sender.StartWrite(p);
      SentWithinAccepted();
      ReadIsPrefix();
    }

    method WritePass()
      requires Valid() && sender.writing.Some?
      modifies sender
      ensures Valid()
      ensures sender.finSent == old(sender.finSent) && sender.accepted == old(sender.accepted)
    {
      hide BooksOk, CountOk, Inv, Matches, Positioned, AllReceived;
      var written, newly := sender.WritePass(sender.writing.value.total);
    }

    method WriteTimeout()
      requires Valid() && sender.writing.Some?
      requires !(sender.CanBufferStreamFrame() && |Bytes(sender.dataForWriting)| > 0)
      modifies sender
      ensures Valid()
      ensures sender.finSent == old(sender.finSent) && (sender.finSent ==> sender.accepted == old(sender.accepted))
    {
      hide BooksOk, CountOk, Inv, Matches, Positioned, AllReceived;
      SentWithinAccepted();
      var written := sender.WriteTimeout(sender.writing.value.total);
      SentWithinAccepted();
      assert old(sender.accepted)[..sender.writeOffset] == sender.accepted[..sender.writeOffset];
    }

    method Close()
      requires Valid() && sender.writing == None
      modifies sender
      ensures Valid()
      ensures sender.finSent == old(sender.finSent) && sender.accepted == old(sender.accepted)
    {
      hide BooksOk, CountOk, Inv, Matches, Positioned, AllReceived;
      var newly := sender.Close();
    }

    method Pop(maxBytes: nat, window: nat)
      requires Valid() && maxBytes <= MAX_PACKET_BUFFER_SIZE
      modifies sender
      ensures Valid()
      ensures (old(sender.finSent) ==> sender.finSent) && sender.accepted == old(sender.accepted)
    {
      hide BooksOk, CountOk, Inv, Matches, Positioned, FrameLength, AllReceived;
      SentWithinAccepted();
      var f, more := sender.PopStreamFrame(maxBytes, window);
      SentWithinAccepted();
      assert sender.accepted[..old(sender.writeOffset)] <= sender.accepted[..sender.writeOffset];
    }

    method Ack(f: StreamFrame)
      requires Valid() && f in sender.inFlight && f in arrived
      modifies sender
      ensures Valid()
      ensures sender.finSent == old(sender.finSent) && sender.accepted == old(sender.accepted)
    {
      hide BooksOk, CountOk, Inv, Matches, Positioned, AllReceived;
      var newly := sender.OnAcked(f);
    }

    method Lose(f: StreamFrame)
      requires Valid() && f in sender.inFlight
      modifies sender
      ensures Valid()
      ensures sender.finSent == old(sender.finSent) && sender.accepted == old(sender.accepted)
    {
      hide BooksOk, CountOk, Inv, Matches, Positioned, AllReceived;
      var newly := sender.OnLost(f);
    }

    // ---------------------------------------------------------- every run

    /** One event, if it is possible; got is what a read returned. */
    method Happen(e: Event) returns (got: seq<byte>, eof: bool, failed: bool)
      requires Valid()
      modifies this`arrived, sender, receiver, receiver.frameQueue
      ensures !failed ==> Valid() && receiver.read == old(receiver.read) + got && receiver.read <= sender.accepted
      ensures !failed ==> old(sender.finSent) ==> sender.finSent && sender.accepted == old(sender.accepted)
      ensures eof ==> !failed && sender.finSent && receiver.read == sender.accepted
    {
      hide BooksOk, CountOk, Inv, Matches, Positioned, Agreed, AllReceived;
      got, eof, failed := [], false, false;
      match e {
        case WriteEvent(p) =>
          if sender.writing == None { Write(p); }
        case WritePassEvent =>
          if sender.writing.Some? { WritePass(); }
        case WriteTimeoutEvent =>
          if sender.writing.Some? &&
            !(sender.CanBufferStreamFrame() && |Bytes(sender.dataForWriting)| > 0) { WriteTimeout(); }
        case CloseEvent =>
          if sender.writing == None { Close(); }
        case PopEvent(maxBytes, window) =>
          if maxBytes <= MAX_PACKET_BUFFER_SIZE { Pop(maxBytes, window); }
        case DeliverEvent(frame, window) =>
          if frame in sender.wire && window < MAX_BYTE_COUNT {
            var err := Deliver(frame, window);
            failed := err.Some?;
          }
        case AckEvent(f) =>
          if f in sender.inFlight && f in arrived { Ack(f); }
        case LossEvent(f) =>
          if f in sender.inFlight { Lose(f); }
        case ReadEvent(n) =>
          var status;
          got, status := Read(n);
          eof := status == ReadEOF;
      }
      if !failed { ReadIsPrefix(); }
    }

    /**
     End to end, for every sequence of events: until a delivery is refused (because of flow
     control or the gap limit), the bytes returned by all reads together are a prefix of the
     bytes accepted by all writes, and once a read has returned EOF they are all of them. Once the
     sender's stream is complete, the receiver has all of them.
     */
    method Run(events: seq<Event>) returns (got: seq<byte>, eof: bool, failed: bool)
      requires Valid() && receiver.read == []
      modifies this`arrived, sender, receiver, receiver.frameQueue
      ensures !failed ==> Valid() && receiver.read == got && got <= sender.accepted
      ensures !failed && eof ==> sender.finSent && got == sender.accepted
      ensures !failed && sender.completed ==> forall x :: 0 <= x < |sender.accepted| ==>
        !InGap(receiver.frameQueue.gaps, x)
    {
      hide sender.Valid, receiver.Valid, Agreed, AllReceived;
      got, eof, failed := [], false, false;
      ReadIsPrefix();
      for i := 0 to |events|
        invariant Valid() && !failed && receiver.read == got && got <= sender.accepted
        invariant eof ==> sender.finSent && got == sender.accepted
      {
        var piece, last;
        piece, last, failed := Happen(events[i]);
        got, eof := got + piece, eof || last;
        if failed {
          return;
        }
      }
      if sender.completed { CompletedMeansDelivered(); }
    }
  }
}
