/**
 deps/quic-go/send_stream.go. One method is one critical section: a pass through the Write
 loop, popping a frame, an acknowledgement or a loss, a reset. Waiting, deadlines and the
 packet scheduler appear as the free order in which the methods are called.
 */
module SendStreamObject {
  import opened Protocol
  import opened Wire

  // ------------------------------------------------------------ frames and byte coverage

  /** The frame carries what Write accepted at its offset, and its FIN marks the end of it. */
  ghost predicate Carries(f: StreamFrame, accepted: seq<byte>, sent: nat, finSent: bool) {
    && FrameEnd(f) <= sent <= |accepted|
    && f.data == accepted[f.offset..FrameEnd(f)]
    && |f.data| <= MAX_PACKET_BUFFER_SIZE
    && (f.fin ==> finSent && FrameEnd(f) == |accepted|)
  }

  ghost predicate AllCarry(frames: set<StreamFrame>, accepted: seq<byte>, sent: nat, finSent: bool) {
    forall f :: f in frames ==> Carries(f, accepted, sent, finSent)
  }

  ghost predicate CoversByte(frames: set<StreamFrame>, x: int) {
    exists f :: f in frames && f.offset <= x < FrameEnd(f)
  }

  /** Each of the first n bytes lies in one of the frames. */
  ghost predicate CoversUpTo(frames: set<StreamFrame>, n: int) {
    forall x :: 0 <= x < n ==> CoversByte(frames, x)
  }

  ghost predicate HasFin(frames: set<StreamFrame>) {
    exists f :: f in frames && f.fin
  }

  lemma MoreFrames(known: set<StreamFrame>, more: set<StreamFrame>, n: int)
    requires known <= more
    requires CoversUpTo(known, n)
    ensures CoversUpTo(more, n)
    ensures HasFin(known) ==> HasFin(more)
  {
    forall x | 0 <= x < n
      ensures CoversByte(more, x)
    {
      assert CoversByte(known, x);
      var f :| f in known && f.offset <= x < FrameEnd(f);
      assert f in more;
    }
  }

  /** A frame may be replaced by its two parts. */
  lemma SplitFrame(known: set<StreamFrame>, f: StreamFrame, a: StreamFrame, b: StreamFrame, more: set<StreamFrame>,
                   n: int)
    requires known <= more + {f} && a in more && b in more
    requires a.offset == f.offset && FrameEnd(a) == b.offset && FrameEnd(b) == FrameEnd(f) && b.fin == f.fin
    requires CoversUpTo(known, n)
    ensures CoversUpTo(more, n)
    ensures HasFin(known) ==> HasFin(more)
  {
    forall x | 0 <= x < n
      ensures CoversByte(more, x)
    {
      assert CoversByte(known, x);
      var g :| g in known && g.offset <= x < FrameEnd(g);
      var h := if g != f then g else if x < FrameEnd(a) then a else b;
      assert h in more && h.offset <= x < FrameEnd(h);
    }
    if HasFin(known) {
      var g :| g in known && g.fin;
      assert (if g != f then g else b) in more;
    }
  }

  lemma NewFrame(known: set<StreamFrame>, f: StreamFrame, n: int)
    requires CoversUpTo(known, n) && f.offset == n
    ensures CoversUpTo(known + {f}, FrameEnd(f))
  {
    MoreFrames(known, known + {f}, n);
    forall x | n <= x < FrameEnd(f)
      ensures CoversByte(known + {f}, x)
    {
      assert f in known + {f};
    }
  }

  // ------------------------------------------------------------ truncation at the reliable size

  function Truncate(f: StreamFrame, limit: nat): StreamFrame {
    if f.offset <= limit < FrameEnd(f) then f.(data := f.data[..limit - f.offset]) else f
  }

  function TruncateAll(fs: seq<StreamFrame>, limit: nat): seq<StreamFrame> {
    if fs == [] then []
    else
      var f := fs[|fs| - 1];
      TruncateAll(fs[..|fs| - 1], limit) + if f.offset >= limit then [] else [Truncate(f, limit)]
  }

  /** What remains of the buffered frame after a reset with this reliable size. */
  function CutAt(next: Option<StreamFrame>, limit: nat): Option<StreamFrame> {
    if next.Some? && next.value.offset < limit then Some(Truncate(next.value, limit)) else None
  }

  /** How much there is to resend, in bytes and frames. */
  function Work(fs: seq<StreamFrame>): nat {
    if fs == [] then 0 else |fs[0].data| + 1 + Work(fs[1..])
  }

  lemma RequeuedWork(queue: seq<StreamFrame>, f: StreamFrame, rest: seq<StreamFrame>)
    requires queue != [] && Parts(queue[0], f, rest) && (rest != [] ==> |f.data| > 0)
    ensures Work(Requeued(queue, rest)) < Work(queue)
  {
    if rest == [] { assert Requeued(queue, rest) == queue[1..]; }
      else { assert Requeued(queue, rest)[1..] == queue[1..]; }
  }

  function Frames(fs: seq<StreamFrame>): set<StreamFrame> { set f | f in fs }

  lemma {:induction false} TruncateAllSmall(fs: seq<StreamFrame>, limit: nat)
    requires forall f :: f in fs ==> |f.data| <= MAX_PACKET_BUFFER_SIZE
    ensures forall f :: f in TruncateAll(fs, limit) ==> |f.data| <= MAX_PACKET_BUFFER_SIZE
  {
    if fs != [] {
      TruncateAllSmall(fs[..|fs| - 1], limit);
    }
  }

  /** Every frame that starts below the limit is still there, cut at the limit. */
  lemma {:induction false} TruncateAllMember(fs: seq<StreamFrame>, limit: nat, f: StreamFrame)
    requires f in fs && f.offset < limit
    ensures Truncate(f, limit) in TruncateAll(fs, limit)
  {
    var init := fs[..|fs| - 1];
    if f != fs[|fs| - 1] {
      assert f in init;
      TruncateAllMember(init, limit, f);
    }
  }

  /** Truncation at the reliable size loses none of the bytes below it. */
  lemma TruncatedCover(known: set<StreamFrame>, more: set<StreamFrame>, limit: nat, n: int)
    requires CoversUpTo(known, n) && n <= limit
    requires forall f :: f in known && f.offset < limit ==> f in more || Truncate(f, limit) in more
    ensures CoversUpTo(more, n)
  {
    forall x | 0 <= x < n
      ensures CoversByte(more, x)
    {
      assert CoversByte(known, x);
      var f :| f in known && f.offset <= x < FrameEnd(f);
      assert f in more || Truncate(f, limit) in more;
    }
  }

  // ------------------------------------------------------------ counting

  /**
   What the counter counts: the frames in flight before a reset, those and RESET_STREAM_AT
   frames after a reset with a reliable part, only RESET_STREAM frames after one without.
   */
  ghost predicate CountOk(num: int, reset: bool, reliable: nat, queued: Option<ResetFrame>, flying: nat,
                          resets: multiset<ResetFrame>, resetAts: multiset<ResetFrame>) {
    && (forall r :: r in resets ==> r.reliableSize == 0)
    && (forall r :: r in resetAts ==> r.reliableSize != 0)
    && (queued.Some? ==> reset && queued.value.reliableSize == reliable)
    && if !reset then num == flying && |resets| == 0 && |resetAts| == 0
       else if reliable == 0 then num == |resets|
       else num == flying + |resetAts| && |resets| == 0 && forall r :: r in resetAts ==> r.reliableSize == reliable
  }

  lemma CountUp(num: int, reset: bool, reliable: nat, queued: Option<ResetFrame>, flying: nat,
                resets: multiset<ResetFrame>, resetAts: multiset<ResetFrame>)
    requires CountOk(num, reset, reliable, queued, flying, resets, resetAts)
    requires !reset || reliable > 0
    ensures CountOk(num + 1, reset, reliable, queued, flying + 1, resets, resetAts)
  {
  }

  ghost predicate AllSmall(frames: set<StreamFrame>) {
    forall f :: f in frames ==> |f.data| <= MAX_PACKET_BUFFER_SIZE
  }

  // ------------------------------------------------------------ where frames are

  /** The frames that account for sent bytes: acknowledged, waiting to be resent, or in flight. */
  function KnownFrames(acked: set<StreamFrame>, queue: seq<StreamFrame>,
                       inFlight: multiset<StreamFrame>): set<StreamFrame> {
    acked + Frames(queue) + (set f | f in inFlight)
  }

  /** f is the whole frame head, or its first part with rest as the remainder. */
  ghost predicate Parts(head: StreamFrame, f: StreamFrame, rest: seq<StreamFrame>) {
    if rest == [] then f == head
    else
      && |rest| == 1
      && f.offset == head.offset && !f.fin && rest[0].fin == head.fin
      && FrameEnd(f) == rest[0].offset && |f.data| <= |head.data|
      && f.data == head.data[..|f.data|] && rest[0].data == head.data[|f.data|..]
  }

  /** The queue after its head was sent, except for the remainder. */
  function Requeued(queue: seq<StreamFrame>, rest: seq<StreamFrame>): seq<StreamFrame>
    requires queue != []
  {
    rest + queue[1..]
  }

  /** Resending a queued frame, whole or in part, loses neither bytes nor the FIN. */
  lemma ResendKeepsTrack(acked: set<StreamFrame>, queue: seq<StreamFrame>, inFlight: multiset<StreamFrame>,
                         f: StreamFrame, rest: seq<StreamFrame>, n: int)
    requires queue != [] && Parts(queue[0], f, rest)
    requires CoversUpTo(KnownFrames(acked, queue, inFlight), n)
    ensures var more := KnownFrames(acked, Requeued(queue, rest), inFlight + multiset{f});
      && CoversUpTo(more, n)
      && (HasFin(KnownFrames(acked, queue, inFlight)) ==> HasFin(more))
  {
    hide CoversUpTo, HasFin;
    var known, more := KnownFrames(acked, queue, inFlight),
      KnownFrames(acked, Requeued(queue, rest), inFlight + multiset{f});
    assert queue == [queue[0]] + queue[1..];
    assert f in more;
    if rest == [] {
      assert known <= more;
      MoreFrames(known, more, n);
    } else {
      assert rest[0] in rest + queue[1..];
      assert known <= more + {queue[0]};
      SplitFrame(known, queue[0], f, rest[0], more, n);
    }
  }

  lemma PartsCarry(head: StreamFrame, f: StreamFrame, rest: seq<StreamFrame>, accepted: seq<byte>, sent: nat,
                   finSent: bool)
    requires Parts(head, f, rest) && Carries(head, accepted, sent, finSent)
    ensures Carries(f, accepted, sent, finSent)
    ensures forall r :: r in rest ==> Carries(r, accepted, sent, finSent)
  {
  }

  lemma ResendCarries(acked: set<StreamFrame>, queue: seq<StreamFrame>, inFlight: multiset<StreamFrame>,
                      f: StreamFrame, rest: seq<StreamFrame>, accepted: seq<byte>, sent: nat, finSent: bool)
    requires queue != [] && Parts(queue[0], f, rest)
    requires AllCarry(KnownFrames(acked, queue, inFlight), accepted, sent, finSent)
    ensures AllCarry(KnownFrames(acked, Requeued(queue, rest), inFlight + multiset{f}), accepted, sent, finSent)
    ensures Carries(f, accepted, sent, finSent)
  {
    hide Carries, Parts;
    assert queue[0] in queue;
    assert queue[0] in KnownFrames(acked, queue, inFlight);
    PartsCarry(queue[0], f, rest, accepted, sent, finSent);
    assert forall g :: g in queue[1..] ==> g in queue;
  }

  // ------------------------------------------------------------ the stream's books

  /** A Write call in progress: how many bytes had been accepted before it, and its length. */
  datatype Call = Call(base: nat, total: nat)

  function Bytes(d: Option<seq<byte>>): seq<byte> { if d.Some? then d.value else [] }

  function Payload(f: Option<StreamFrame>): seq<byte> { if f.Some? then f.value.data else [] }

  ghost predicate ShapeOk(known: set<StreamFrame>, next: Option<StreamFrame>, sent: nat, rest: Option<seq<byte>>,
                          writing: Option<Call>) {
    && AllSmall(known)
    && |Payload(next)| <= MAX_PACKET_BUFFER_SIZE
    && (next.Some? ==> next.value.offset == sent)
    && (writing.Some? ==> |Bytes(rest)| <= writing.value.total)
    && (rest.Some? ==> rest.value != [])
  }

  /** Without a reset: accepted bytes = sent prefix ++ buffered frame ++ data of the Write in progress. */
  ghost predicate ConservedOk(accepted: seq<byte>, sent: nat, next: Option<StreamFrame>, rest: Option<seq<byte>>,
                              writing: Option<Call>, finished: bool, finSent: bool,
                              known: set<StreamFrame>, wire: set<StreamFrame>) {
    && sent <= |accepted|
    && Payload(next) + Bytes(rest) == accepted[sent..]
    && (next.Some? ==> next.value.data != [])
    && (writing == None ==> rest == None)
    && (writing.Some? ==> !finished && |accepted| == writing.value.base + writing.value.total)
    && (finSent ==> finished && sent == |accepted| && HasFin(known))
    && AllCarry(known, accepted, sent, finSent)
    && AllCarry(wire, accepted, sent, finSent)
  }

  lemma CallLength(accepted: seq<byte>, sent: nat, next: Option<StreamFrame>, rest: Option<seq<byte>>,
                   writing: Option<Call>,
                   finished: bool, finSent: bool, known: set<StreamFrame>, wire: set<StreamFrame>)
    requires ConservedOk(accepted, sent, next, rest, writing, finished, finSent, known, wire) && writing.Some?
    ensures |accepted| == writing.value.base + writing.value.total
  {
  }

  lemma TimeoutConserves(accepted: seq<byte>, sent: nat, next: Option<StreamFrame>, rest: Option<seq<byte>>,
                         writing: Option<Call>,
                         finished: bool, finSent: bool, known: set<StreamFrame>, wire: set<StreamFrame>)
    requires ConservedOk(accepted, sent, next, rest, writing, finished, finSent, known, wire) && writing.Some?
    ensures |Bytes(rest)| <= |accepted|
    ensures ConservedOk(accepted[..|accepted| - |Bytes(rest)|], sent, next, None, None, finished, finSent, known, wire)
  {
    var k := |accepted| - |Bytes(rest)|;
    assert |accepted[sent..]| == |Payload(next)| + |Bytes(rest)|;
    assert accepted[..k][sent..] == accepted[sent..][..|Payload(next)|] == Payload(next);
    CarryCut(known, accepted, sent, finSent, k);
    CarryCut(wire, accepted, sent, finSent, k);
  }

  lemma CarryCut(frames: set<StreamFrame>, accepted: seq<byte>, sent: nat, finSent: bool, k: nat)
    requires AllCarry(frames, accepted, sent, finSent) && sent <= k <= |accepted| && !finSent
    ensures AllCarry(frames, accepted[..k], sent, finSent)
  {
    forall f | f in frames
      ensures Carries(f, accepted[..k], sent, finSent)
    {
      assert accepted[..k][f.offset..FrameEnd(f)] == accepted[f.offset..FrameEnd(f)];
    }
  }

  lemma CarryAll(frames: set<StreamFrame>, accepted: seq<byte>, sent: nat, finSent: bool, sent': nat, finSent': bool)
    requires AllCarry(frames, accepted, sent, finSent)
    requires sent <= sent' <= |accepted| && (finSent ==> finSent')
    ensures AllCarry(frames, accepted, sent', finSent')
  {
  }

  /** f takes the first of the waiting bytes; next' and rest' are what is left of them. */
  ghost predicate Takes(f: StreamFrame, next: Option<StreamFrame>, rest: Option<seq<byte>>,
                        next': Option<StreamFrame>, rest': Option<seq<byte>>) {
    && f.data + (Payload(next') + Bytes(rest')) == Payload(next) + Bytes(rest)
    && |f.data| <= MAX_PACKET_BUFFER_SIZE && |Payload(next')| <= MAX_PACKET_BUFFER_SIZE
    && (next'.Some? ==> next'.value.data != [] && next'.value.offset == FrameEnd(f))
    && (rest'.Some? ==> rest'.value != [] && rest.Some?)
    && |Bytes(rest')| <= |Bytes(rest)|
  }

  lemma TakesBuffered(f: StreamFrame, next: Option<StreamFrame>, rest: Option<seq<byte>>, next': Option<StreamFrame>,
                      n: nat)
    requires next.Some? && 0 < n <= MAX_PACKET_BUFFER_SIZE && |next.value.data| <= MAX_PACKET_BUFFER_SIZE
    requires rest.Some? ==> rest.value != []
    requires var d := next.value.data;
      if |d| <= n then f.data == d && next' == None
      else f.data == d[..n] && next' == Some(StreamFrame(f.offset + n, d[n..], false))
    ensures Takes(f, next, rest, next', rest)
  {
  }

  lemma TakesWritten(f: StreamFrame, d: seq<byte>, rest': Option<seq<byte>>, n: nat)
    requires 0 < n <= MAX_PACKET_BUFFER_SIZE
    requires if |d| <= n then f.data == d && rest' == None else f.data == d[..n] && rest' == Some(d[n..])
    ensures Takes(f, None, Some(d), None, rest')
  {
  }

  lemma TakesPrefix(f: StreamFrame, next: Option<StreamFrame>, rest: Option<seq<byte>>,
                    next': Option<StreamFrame>, rest': Option<seq<byte>>, accepted: seq<byte>, sent: nat)
    requires Takes(f, next, rest, next', rest')
    requires sent <= |accepted| && Payload(next) + Bytes(rest) == accepted[sent..]
    ensures sent + |f.data| <= |accepted|
    ensures f.data == accepted[sent..sent + |f.data|]
    ensures Payload(next') + Bytes(rest') == accepted[sent + |f.data|..]
    ensures next' == None && rest' == None ==> sent + |f.data| == |accepted|
  {
  }

  /** Handing a new frame with the next bytes to the network. */
  lemma SendConserves(accepted: seq<byte>, sent: nat, next: Option<StreamFrame>, rest: Option<seq<byte>>,
                      writing: Option<Call>,
                      finished: bool, finSent: bool, known: set<StreamFrame>, wire: set<StreamFrame>,
                      f: StreamFrame, next': Option<StreamFrame>, rest': Option<seq<byte>>)
    requires ConservedOk(accepted, sent, next, rest, writing, finished, finSent, known, wire)
    requires f.offset == sent && Takes(f, next, rest, next', rest')
    requires f.fin <==> finished && rest' == None && next' == None && !finSent
    ensures ConservedOk(accepted, FrameEnd(f), next', rest', writing, finished, finSent ||
      f.fin, known + {f}, wire + {f})
  {
    hide HasFin, AllCarry;
    TakesPrefix(f, next, rest, next', rest', accepted, sent);
    CarryAll(known, accepted, sent, finSent, FrameEnd(f), finSent || f.fin);
    CarryAll(wire, accepted, sent, finSent, FrameEnd(f), finSent || f.fin);
    AddCarrier(known, f, accepted, FrameEnd(f), finSent || f.fin);
    AddCarrier(wire, f, accepted, FrameEnd(f), finSent || f.fin);
    FinAdded(known, f);
  }

  lemma FinAdded(known: set<StreamFrame>, f: StreamFrame)
    ensures HasFin(known) || f.fin ==> HasFin(known + {f})
  {
  }

  lemma AddCarrier(frames: set<StreamFrame>, f: StreamFrame, accepted: seq<byte>, sent: nat, finSent: bool)
    ensures AllCarry(frames, accepted, sent, finSent) && Carries(f, accepted, sent, finSent) ==>
            AllCarry(frames + {f}, accepted, sent, finSent)
  {
  }

  lemma ResendConserves(accepted: seq<byte>, sent: nat, next: Option<StreamFrame>, rest: Option<seq<byte>>,
                        writing: Option<Call>,
                        finished: bool, finSent: bool, wire: set<StreamFrame>,
                        acked: set<StreamFrame>, queue: seq<StreamFrame>, inFlight: multiset<StreamFrame>,
                        f: StreamFrame, tail: seq<StreamFrame>)
    requires ConservedOk(accepted, sent, next, rest, writing, finished, finSent, KnownFrames(acked, queue, inFlight),
                         wire)
    requires queue != [] && Parts(queue[0], f, tail)
    ensures ConservedOk(accepted, sent, next, rest, writing, finished, finSent,
                        KnownFrames(acked, Requeued(queue, tail), inFlight + multiset{f}), wire + {f})
  {
    hide AllCarry, HasFin, KnownFrames, Parts, Carries, CoversUpTo, Requeued;
    ResendCarries(acked, queue, inFlight, f, tail, accepted, sent, finSent);
    NoBytes(KnownFrames(acked, queue, inFlight));
    ResendKeepsTrack(acked, queue, inFlight, f, tail, 0);
    AddCarrier(wire, f, accepted, sent, finSent);
  }

  lemma ResendShape(next: Option<StreamFrame>, sent: nat, rest: Option<seq<byte>>, writing: Option<Call>,
                    acked: set<StreamFrame>, queue: seq<StreamFrame>, inFlight: multiset<StreamFrame>,
                    f: StreamFrame, tail: seq<StreamFrame>)
    requires ShapeOk(KnownFrames(acked, queue, inFlight), next, sent, rest, writing)
    requires queue != [] && Parts(queue[0], f, tail)
    ensures ShapeOk(KnownFrames(acked, Requeued(queue, tail), inFlight + multiset{f}), next, sent, rest, writing)
  {
  }

  lemma SendShape(known: set<StreamFrame>, next: Option<StreamFrame>, sent: nat, rest: Option<seq<byte>>,
                  writing: Option<Call>,
                  f: StreamFrame, next': Option<StreamFrame>, rest': Option<seq<byte>>)
    requires ShapeOk(known, next, sent, rest, writing)
    requires Takes(f, next, rest, next', rest')
    ensures ShapeOk(known + {f}, next', FrameEnd(f), rest', writing)
  {
  }

  lemma NoBytes(known: set<StreamFrame>)
    ensures CoversUpTo(known, 0)
  {
  }

  lemma KnownAdd(acked: set<StreamFrame>, queue: seq<StreamFrame>, inFlight: multiset<StreamFrame>, f: StreamFrame)
    ensures KnownFrames(acked, queue, inFlight + multiset{f}) == KnownFrames(acked, queue, inFlight) + {f}
  {
  }

  /** A new frame extends the tracked bytes, up to the reliable size after a reset. */
  lemma SendKeepsTrack(known: set<StreamFrame>, f: StreamFrame, limit: int)
    requires CoversUpTo(known, Min(f.offset, limit))
    ensures CoversUpTo(known + {f}, Min(FrameEnd(f), limit))
  {
    MoreFrames(known, known + {f}, Min(f.offset, limit));
    if f.offset < limit { NewFrame(known, f, f.offset); }
  }

  /** The sent bytes that must arrive: all of them, or the reliable part after a reset. */
  function MustArrive(sent: nat, reset: bool, reliable: nat): int {
    if reset then Min(sent, reliable) else sent
  }

  /**
   The stream's books: frames are small and sit where they should, every byte that must
   still arrive is acknowledged, in flight or queued again, and, without a reset or shutdown,
   no accepted byte is missing or out of place.
   */
  ghost predicate BooksOk(accepted: seq<byte>, sent: nat, next: Option<StreamFrame>, rest: Option<seq<byte>>,
                          writing: Option<Call>, finished: bool, finSent: bool,
                          known: set<StreamFrame>, wire: set<StreamFrame>, reset: bool, shutdown: bool, reliable: nat) {
    && ShapeOk(known, next, sent, rest, writing)
    && (!shutdown ==> CoversUpTo(known, MustArrive(sent, reset, reliable)))
    && (!shutdown && !reset ==> ConservedOk(accepted, sent, next, rest, writing, finished, finSent, known, wire))
  }

  lemma AcceptBooks(accepted: seq<byte>, sent: nat, next: Option<StreamFrame>, rest: Option<seq<byte>>,
                    writing: Option<Call>,
                    finished: bool, finSent: bool, known: set<StreamFrame>, wire: set<StreamFrame>,
                    reset: bool, shutdown: bool, reliable: nat, p: seq<byte>)
    requires BooksOk(accepted, sent, next, rest, writing, finished, finSent, known, wire, reset, shutdown, reliable)
    requires !reset && !shutdown && !finished && writing == None && p != []
    ensures BooksOk(accepted + p, sent, next, Some(p), Some(Call(|accepted|, |p|)), finished, finSent, known, wire,
                    reset, shutdown, reliable)
  {
  }

  lemma BufferBooks(accepted: seq<byte>, sent: nat, next: Option<StreamFrame>, rest: Option<seq<byte>>,
                    writing: Option<Call>,
                    finished: bool, finSent: bool, known: set<StreamFrame>, wire: set<StreamFrame>,
                    reset: bool, shutdown: bool, reliable: nat, f: StreamFrame)
    requires BooksOk(accepted, sent, next, rest, writing, finished, finSent, known, wire, reset, shutdown, reliable)
    requires f.offset == sent && f.data == Payload(next) + Bytes(rest) && 0 < |f.data| <= MAX_PACKET_BUFFER_SIZE
    ensures BooksOk(accepted, sent, Some(f), None, None, finished, finSent, known, wire, reset, shutdown, reliable)
  {
  }

  lemma ReturnBooks(accepted: seq<byte>, sent: nat, next: Option<StreamFrame>, rest: Option<seq<byte>>,
                    writing: Option<Call>,
                    finished: bool, finSent: bool, known: set<StreamFrame>, wire: set<StreamFrame>,
                    reset: bool, shutdown: bool, reliable: nat)
    requires BooksOk(accepted, sent, next, rest, writing, finished, finSent, known, wire, reset, shutdown, reliable)
    requires rest == None || reset || shutdown
    ensures BooksOk(accepted, sent, next, rest, None, finished, finSent, known, wire, reset, shutdown, reliable)
  {
  }

  lemma TimeoutBooks(accepted: seq<byte>, sent: nat, next: Option<StreamFrame>, rest: Option<seq<byte>>,
                     writing: Option<Call>,
                     finished: bool, finSent: bool, known: set<StreamFrame>, wire: set<StreamFrame>,
                     reset: bool, shutdown: bool, reliable: nat)
    requires BooksOk(accepted, sent, next, rest, writing, finished, finSent, known, wire, reset, shutdown, reliable)
    requires writing.Some?
    ensures !reset && !shutdown ==> |Bytes(rest)| <= |accepted| == writing.value.base + writing.value.total
    ensures BooksOk(if reset ||
      shutdown then accepted else accepted[..|accepted| - |Bytes(rest)|], sent, next, None, None,
                    finished, finSent, known, wire, reset, shutdown, reliable)
  {
    hide ConservedOk, CoversUpTo, AllSmall;
    if !shutdown && !reset {
      TimeoutConserves(accepted, sent, next, rest, writing, finished, finSent, known, wire);
      CallLength(accepted, sent, next, rest, writing, finished, finSent, known, wire);
    }
  }

  /** Handing a new frame with the next bytes to the network. */
  lemma SendBooks(accepted: seq<byte>, sent: nat, next: Option<StreamFrame>, rest: Option<seq<byte>>,
                  writing: Option<Call>,
                  finished: bool, finSent: bool, known: set<StreamFrame>, wire: set<StreamFrame>,
                  reset: bool, shutdown: bool, reliable: nat,
            f: StreamFrame, next': Option<StreamFrame>, rest': Option<seq<byte>>)
    requires BooksOk(accepted, sent, next, rest, writing, finished, finSent, known, wire, reset, shutdown, reliable)
    requires f.offset == sent && Takes(f, next, rest, next', rest')
    requires !reset && !shutdown ==> (f.fin <==> finished && rest' == None && next' == None && !finSent)
    ensures BooksOk(accepted, FrameEnd(f), next', rest', writing, finished, finSent ||
      f.fin, known + {f}, wire + {f}, reset, shutdown, reliable)
  {
    hide ConservedOk, CoversUpTo, Takes, ShapeOk;
    SendShape(known, next, sent, rest, writing, f, next', rest');
    if !shutdown {
      SendKeepsTrack(known, f, if reset then reliable else FrameEnd(f));
      if !reset { SendConserves(accepted, sent, next, rest, writing, finished, finSent, known, wire, f, next', rest'); }
    }
  }

  lemma LaunchBooks(accepted: seq<byte>, sent: nat, next: Option<StreamFrame>, rest: Option<seq<byte>>,
                    writing: Option<Call>,
                    finished: bool, finSent: bool, wire: set<StreamFrame>, reset: bool, shutdown: bool, reliable: nat,
                    acked: set<StreamFrame>, queue: seq<StreamFrame>, inFlight: multiset<StreamFrame>,
                    f: StreamFrame, next': Option<StreamFrame>, rest': Option<seq<byte>>)
    requires BooksOk(accepted, sent, next, rest, writing, finished, finSent, KnownFrames(acked, queue, inFlight), wire,
                     reset, shutdown, reliable)
    requires f.offset == sent && Takes(f, next, rest, next', rest')
    requires !reset && !shutdown ==> (f.fin <==> finished && rest' == None && next' == None && !finSent)
    ensures BooksOk(accepted, FrameEnd(f), next', rest', writing, finished, finSent || f.fin,
                    KnownFrames(acked, queue, inFlight + multiset{f}), wire + {f}, reset, shutdown, reliable)
  {
    hide BooksOk, KnownFrames, Takes;
    KnownAdd(acked, queue, inFlight, f);
    SendBooks(accepted, sent, next, rest, writing, finished, finSent, KnownFrames(acked, queue, inFlight), wire,
              reset, shutdown, reliable, f, next', rest');
  }

  /** Resending a lost frame, whole or in part. */
  lemma ResendBooks(accepted: seq<byte>, sent: nat, next: Option<StreamFrame>, rest: Option<seq<byte>>,
                    writing: Option<Call>,
                    finished: bool, finSent: bool, wire: set<StreamFrame>, reset: bool, shutdown: bool, reliable: nat,
                    acked: set<StreamFrame>, queue: seq<StreamFrame>, inFlight: multiset<StreamFrame>,
                    f: StreamFrame, tail: seq<StreamFrame>)
    requires BooksOk(accepted, sent, next, rest, writing, finished, finSent, KnownFrames(acked, queue, inFlight), wire,
                     reset, shutdown, reliable)
    requires queue != [] && Parts(queue[0], f, tail)
    ensures BooksOk(accepted, sent, next, rest, writing, finished, finSent,
                    KnownFrames(acked, Requeued(queue, tail), inFlight + multiset{f}), wire + {f}, reset, shutdown,
                      reliable)
  {
    hide ConservedOk, CoversUpTo, Parts, ShapeOk, KnownFrames, Requeued, MustArrive;
    ResendShape(next, sent, rest, writing, acked, queue, inFlight, f, tail);
    if !shutdown {
      ResendKeepsTrack(acked, queue, inFlight, f, tail, MustArrive(sent, reset, reliable));
      if !reset { ResendConserves(accepted, sent, next, rest, writing, finished, finSent, wire, acked, queue, inFlight,
                                  f, tail); }
    }
  }

  lemma CloseBooks(accepted: seq<byte>, sent: nat, next: Option<StreamFrame>, rest: Option<seq<byte>>,
                   writing: Option<Call>,
                   finSent: bool, known: set<StreamFrame>, wire: set<StreamFrame>, reset: bool, shutdown: bool,
                     reliable: nat)
    requires BooksOk(accepted, sent, next, rest, writing, false, finSent, known, wire, reset, shutdown, reliable)
    requires writing == None
    ensures BooksOk(accepted, sent, next, rest, writing, true, finSent, known, wire, reset, shutdown, reliable)
  {
  }

  /** Before a reset the reliable size may be chosen freely. */
  lemma BoundaryBooks(accepted: seq<byte>, sent: nat, next: Option<StreamFrame>, rest: Option<seq<byte>>,
                      writing: Option<Call>,
                      finished: bool, finSent: bool, known: set<StreamFrame>, wire: set<StreamFrame>,
                      shutdown: bool, reliable: nat, reliable': nat)
    requires BooksOk(accepted, sent, next, rest, writing, finished, finSent, known, wire, false, shutdown, reliable)
    ensures BooksOk(accepted, sent, next, rest, writing, finished, finSent, known, wire, false, shutdown, reliable')
  {
  }

  /** A reset with a reliable part keeps track of every byte below the reliable size. */
  lemma CancelBooks(accepted: seq<byte>, sent: nat, next: Option<StreamFrame>, rest: Option<seq<byte>>,
                    writing: Option<Call>,
                    finished: bool, finSent: bool, wire: set<StreamFrame>, shutdown: bool, reliable: nat,
                    acked: set<StreamFrame>, queue: seq<StreamFrame>, inFlight: multiset<StreamFrame>,
                      next': Option<StreamFrame>)
    requires BooksOk(accepted, sent, next, rest, writing, finished, finSent, KnownFrames(acked, queue, inFlight), wire,
                     false, shutdown, reliable)
    requires next'.Some? ==> next.Some? && next'.value == Truncate(next.value, reliable)
    ensures BooksOk(accepted, sent, next', rest, writing, finished, finSent,
                    KnownFrames(acked, TruncateAll(queue, reliable), inFlight), wire, true, shutdown, reliable)
  {
    hide CoversUpTo, ConservedOk, TruncateAll;
    var known, more := KnownFrames(acked, queue, inFlight), KnownFrames(acked, TruncateAll(queue, reliable), inFlight);
    forall f | f in queue
      ensures |f.data| <= MAX_PACKET_BUFFER_SIZE
    {
      assert f in known;
    }
    TruncateAllSmall(queue, reliable);
    if !shutdown {
      FewerBytes(known, sent, Min(sent, reliable));
      forall f | f in known && f.offset < reliable
        ensures f in more || Truncate(f, reliable) in more
      {
        if f in queue { TruncateAllMember(queue, reliable, f); }
      }
      TruncatedCover(known, more, reliable, Min(sent, reliable));
    }
  }

  lemma FewerBytes(known: set<StreamFrame>, n: int, m: int)
    requires CoversUpTo(known, n) && m <= n
    ensures CoversUpTo(known, m)
  {
  }

  /** Once nothing needs to arrive any more, the buffered and queued frames may be dropped. */
  lemma DropBooks(accepted: seq<byte>, sent: nat, next: Option<StreamFrame>, rest: Option<seq<byte>>,
                  writing: Option<Call>,
                  finished: bool, finSent: bool, known: set<StreamFrame>, wire: set<StreamFrame>,
                  reset: bool, shutdown: bool, reliable: nat, less: set<StreamFrame>, reset': bool, shutdown': bool)
    requires BooksOk(accepted, sent, next, rest, writing, finished, finSent, known, wire, reset, shutdown, reliable)
    requires less <= known && (reset' || shutdown')
    ensures BooksOk(accepted, sent, None, rest, writing, finished, finSent, less, wire, reset', shutdown',
                    if shutdown' then reliable else 0)
  {
  }

  /** After a reset, a frame may be dropped or truncated at the reliable size. */
  lemma LossBooks(accepted: seq<byte>, sent: nat, next: Option<StreamFrame>, rest: Option<seq<byte>>,
                  writing: Option<Call>,
                  finished: bool, finSent: bool, known: set<StreamFrame>, wire: set<StreamFrame>,
                  shutdown: bool, reliable: nat, more: set<StreamFrame>)
    requires BooksOk(accepted, sent, next, rest, writing, finished, finSent, known, wire, true, shutdown, reliable)
    requires AllSmall(more)
    requires forall f :: f in known && f.offset < reliable ==> f in more || Truncate(f, reliable) in more
    ensures BooksOk(accepted, sent, next, rest, writing, finished, finSent, more, wire, true, shutdown, reliable)
  {
    hide CoversUpTo, AllSmall;
    if !shutdown { TruncatedCover(known, more, reliable, Min(sent, reliable)); }
  }

  lemma TakesNothing(f: StreamFrame)
    requires f.data == []
    ensures Takes(f, None, None, None, None)
  {
  }

  lemma KnownLess(acked: set<StreamFrame>, queue: seq<StreamFrame>, inFlight: multiset<StreamFrame>)
    ensures KnownFrames(acked, [], inFlight) <= KnownFrames(acked, queue, inFlight)
  {
  }

  lemma KnownAcked(acked: set<StreamFrame>, queue: seq<StreamFrame>, inFlight: multiset<StreamFrame>, f: StreamFrame)
    requires f in inFlight
    ensures KnownFrames(acked + {f}, queue, inFlight - multiset{f}) == KnownFrames(acked, queue, inFlight)
  {
  }

  lemma KnownLost(acked: set<StreamFrame>, queue: seq<StreamFrame>, inFlight: multiset<StreamFrame>, f: StreamFrame)
    requires f in inFlight
    ensures KnownFrames(acked, queue + [f], inFlight - multiset{f}) == KnownFrames(acked, queue, inFlight)
  {
  }

  lemma KnownTruncated(acked: set<StreamFrame>, queue: seq<StreamFrame>, inFlight: multiset<StreamFrame>,
                       f: StreamFrame, again: seq<StreamFrame>, limit: nat)
    requires f in inFlight && AllSmall(KnownFrames(acked, queue, inFlight))
    requires again == if f.offset >= limit then [] else [Truncate(f, limit)]
    ensures var more := KnownFrames(acked, queue + again, inFlight - multiset{f});
      && AllSmall(more)
      && forall g :: g in KnownFrames(acked, queue, inFlight) && g.offset < limit ==>
           g in more || Truncate(g, limit) in more
  {
  }

  lemma TruncateStep(fs: seq<StreamFrame>, i: nat, limit: nat)
    requires i < |fs|
    ensures TruncateAll(fs[..i + 1], limit) ==
            TruncateAll(fs[..i], limit) + if fs[i].offset >= limit then [] else [Truncate(fs[i], limit)]
  {
    assert fs[..i + 1][..i] == fs[..i];
  }

  // ------------------------------------------------------------ counting a step

  lemma CountBoundary(num: int, reliable: nat, queued: Option<ResetFrame>, flying: nat,
                      resets: multiset<ResetFrame>, resetAts: multiset<ResetFrame>, reliable': nat)
    requires CountOk(num, false, reliable, queued, flying, resets, resetAts)
    ensures CountOk(num, false, reliable', queued, flying, resets, resetAts)
  {
  }

  lemma CountReset(num: int, reset: bool, reliable: nat, queued: Option<ResetFrame>, flying: nat,
                   resets: multiset<ResetFrame>, resetAts: multiset<ResetFrame>, r: ResetFrame)
    requires CountOk(num, reset, reliable, queued, flying, resets, resetAts)
    requires !reset || reliable > 0
    ensures r.reliableSize == 0 ==> CountOk(0, true, 0, Some(r), flying, resets, resetAts)
    ensures !reset && 0 < r.reliableSize == reliable ==> CountOk(num, true, reliable, Some(r), flying, resets, resetAts)
  {
  }

  lemma CountControl(num: int, reset: bool, reliable: nat, r: ResetFrame, flying: nat,
                     resets: multiset<ResetFrame>, resetAts: multiset<ResetFrame>)
    requires CountOk(num, reset, reliable, Some(r), flying, resets, resetAts)
    ensures r.reliableSize == 0 ==> CountOk(num + 1, reset, reliable, None, flying, resets + multiset{r}, resetAts)
    ensures r.reliableSize != 0 ==> CountOk(num + 1, reset, reliable, None, flying, resets, resetAts + multiset{r})
  {
  }

  /** The fate of a reset frame; one that a later STOP_SENDING made obsolete is not counted. */
  lemma CountResetFrame(num: int, reset: bool, reliable: nat, queued: Option<ResetFrame>, flying: nat,
                        resets: multiset<ResetFrame>, resetAts: multiset<ResetFrame>, r: ResetFrame,
                        queued': Option<ResetFrame>, left: int, resets': multiset<ResetFrame>,
                          resetAts': multiset<ResetFrame>)
    requires CountOk(num, reset, reliable, queued, flying, resets, resetAts)
    requires r in resets || r in resetAts
    requires queued' == queued || (queued' == Some(r) && r.reliableSize == reliable)
    requires left == if r.reliableSize == reliable then num - 1 else num
    requires resets' == if r.reliableSize == 0 then resets - multiset{r} else resets
    requires resetAts' == if r.reliableSize == 0 then resetAts else resetAts - multiset{r}
    ensures left >= 0
    ensures CountOk(left, reset, reliable, queued', flying, resets', resetAts')
  {
  }

  // ------------------------------------------------------------ noticing the end

  /** Once nothing is left to send or to wait for, completion has been reported. */
  ghost predicate Noticed(completed: bool, shutdown: bool, reset: bool, finSent: bool, consumed: bool,
                          next: Option<StreamFrame>,
                          queue: seq<StreamFrame>, queued: Option<ResetFrame>, num: int) {
    && !shutdown && Payload(next) == [] && queue == [] && queued == None && num <= 0
    && (finSent || (reset && consumed))
    ==> completed
  }

  /** Without a reset or shutdown, completion is reported only when nothing is left to send or to wait for. */
  ghost predicate Settled(completed: bool, shutdown: bool, reset: bool, finSent: bool, inFlight: multiset<StreamFrame>,
                          queue: seq<StreamFrame>) {
    completed && !shutdown && !reset ==> finSent && |inFlight| == 0 && queue == []
  }

  class SendStream {
    const streamID: nat

    var numOutstandingFrames: int
    var retransmissionQueue: seq<StreamFrame>
    var reliableSize: nat
    var writeOffset: nat
    var shutdownErr: bool
    var resetErr: Option<nat>
    var queuedResetStreamFrame: Option<ResetFrame>
    var supportsResetStreamAt: bool
    var finishedWriting: bool
    var finSent: bool
    var cancellationFlagged: bool
    var completed: bool
    var dataForWriting: Option<seq<byte>>
    var nextFrame: Option<StreamFrame>

    // What the environment knows: the bytes accepted by Write, the Write in progress, the
    // frames whose acknowledgement or loss is still to come, the acknowledged frames, all
    // frames ever handed to the network, and how often completion was reported.
    var accepted: seq<byte>
    var writing: Option<Call>
    var inFlight: multiset<StreamFrame>
    var resets: multiset<ResetFrame>
    var resetAts: multiset<ResetFrame>
    ghost var acked: set<StreamFrame>
    var wire: set<StreamFrame>
    ghost var reports: nat

    function ReliableOffset(): nat
      reads this`supportsResetStreamAt, this`reliableSize
    {
      if supportsResetStreamAt then reliableSize else 0
    }

    ghost function Known(): set<StreamFrame>
      reads this`acked, this`retransmissionQueue, this`inFlight
    {
      KnownFrames(acked, retransmissionQueue, inFlight)
    }

    /** No reset and no shutdown so far. */
    predicate Undisturbed()
      reads this`resetErr, this`shutdownErr
    {
      resetErr == None && !shutdownErr
    }

    ghost predicate Booked()
      reads this`accepted, this`writeOffset, this`nextFrame, this`dataForWriting, this`writing, this`finishedWriting,
            this`finSent, this`acked, this`retransmissionQueue, this`inFlight, this`wire, this`resetErr,
              this`shutdownErr, this`supportsResetStreamAt, this`reliableSize
    {
      BooksOk(accepted, writeOffset, nextFrame, dataForWriting, writing, finishedWriting, finSent, Known(), wire,
              resetErr.Some?, shutdownErr, ReliableOffset())
    }

    /** Everything but that completion has been noticed. */
    ghost predicate Sound()
      reads this
    {
      && CountOk(numOutstandingFrames, resetErr.Some?, ReliableOffset(), queuedResetStreamFrame, |inFlight|, resets,
                 resetAts)
      && BooksOk(accepted, writeOffset, nextFrame, dataForWriting, writing, finishedWriting, finSent,
                 KnownFrames(acked, retransmissionQueue, inFlight), wire, resetErr.Some?, shutdownErr, ReliableOffset())
      && reports == (if completed then 1 else 0)
      && Settled(completed, shutdownErr, resetErr.Some?, finSent, inFlight, retransmissionQueue)
    }

    ghost predicate Valid()
      reads this
    {
      && Sound()
      && Noticed(completed, shutdownErr, resetErr.Some?, finSent, cancellationFlagged || finishedWriting, nextFrame,
                 retransmissionQueue, queuedResetStreamFrame, numOutstandingFrames)
    }

    constructor (id: nat, resetAt: bool)
      ensures Valid() && Undisturbed() && streamID == id
      ensures accepted == [] && wire == {} && acked == {} && !completed && !finishedWriting && !finSent &&
        writing == None
      ensures supportsResetStreamAt == resetAt && reliableSize == 0 && writeOffset == 0
      ensures nextFrame == None && dataForWriting == None && retransmissionQueue == [] && inFlight == multiset{}
    {
      streamID := id;
      numOutstandingFrames, retransmissionQueue := 0, [];
      reliableSize, writeOffset := 0, 0;
      shutdownErr, resetErr, queuedResetStreamFrame := false, None, None;
      supportsResetStreamAt := resetAt;
      finishedWriting, finSent, cancellationFlagged, completed := false, false, false, false;
      dataForWriting, nextFrame := None, None;
      accepted, writing := [], None;
      inFlight, resets, resetAts := multiset{}, multiset{}, multiset{};
      acked, wire, reports := {}, {}, 0;
      new;
      assert Known() == {};
    }

    // ---------------------------------------------------------- completion

    /** All accepted bytes and the FIN have been acknowledged, and nothing is left to send. */
    ghost predicate FullyAcked()
      reads this`finishedWriting, this`finSent, this`acked, this`accepted, this`nextFrame, this`dataForWriting
    {
      && finishedWriting && finSent
      && CoversUpTo(acked, |accepted|)
      && HasFin(acked)
      && Payload(nextFrame) == [] && Bytes(dataForWriting) == []
    }

    /** Nothing is left to send, and nothing sent is still on its way. */
    ghost predicate Finished()
      reads this`finishedWriting, this`finSent, this`acked, this`accepted, this`nextFrame, this`dataForWriting,
            this`inFlight, this`retransmissionQueue
    {
      FullyAcked() && |inFlight| == 0 && retransmissionQueue == []
    }

    /**
     Without a reset, completion has been reported if and only if every byte and the FIN are acknowledged and nothing
     is outstanding.
     */
    lemma CompletedIffFinished()
      requires Valid() && Undisturbed()
      ensures completed <==> Finished()
    {
      hide BooksOk;
      NothingLeft();
    }

    lemma NothingLeft()
      requires Sound() && Undisturbed()
      ensures numOutstandingFrames == |inFlight| && queuedResetStreamFrame == None
      ensures finSent && numOutstandingFrames <= 0 && retransmissionQueue == [] ==> FullyAcked()
    {
      if finSent && numOutstandingFrames <= 0 && retransmissionQueue == [] {
        assert |inFlight| == 0;
        assert Known() == acked;
        assert accepted[writeOffset..] == [];
      }
    }

    /**
     Reset while the buffered frame reaches beyond the reliable size: what is beyond is never sent, and the
     stream never completes.
     */
    ghost predicate Stranded()
      reads this`resetErr, this`shutdownErr, this`supportsResetStreamAt, this`reliableSize, this`nextFrame,
            this`writeOffset
    {
      resetErr.Some? && !shutdownErr && Payload(nextFrame) != [] &&
        writeOffset + |Payload(nextFrame)| > ReliableOffset()
    }

    /** How much there is to send: every frame makes it less. */
    function LeftToSend(): nat
      reads this`retransmissionQueue, this`nextFrame, this`dataForWriting, this`finSent
    {
      Work(retransmissionQueue) + (if nextFrame.Some? then |nextFrame.value.data| + 1 else 0) + |Bytes(dataForWriting)|
      + if finSent then 0 else 1
    }

    /**
     newly tells whether completion was reported just now. It never is twice, and without a reset
     only when every accepted byte and the FIN have been acknowledged.
     */
    ghost predicate CompletionReported(newly: bool, before: bool)
      reads this
    {
      && completed == (before || newly) && !(before && newly)
      && (newly ==> !Stranded() && queuedResetStreamFrame == None)
      && (newly && Undisturbed() ==> FullyAcked())
      && (newly && resetErr.Some? && !shutdownErr && ReliableOffset() > 0 ==> ReliablyAcked())
    }

    /** Every byte of the reliable part that was sent has been acknowledged. */
    ghost predicate ReliablyAcked()
      reads this`acked, this`writeOffset, this`supportsResetStreamAt, this`reliableSize
    {
      CoversUpTo(acked, Min(writeOffset, ReliableOffset()))
    }

    lemma ReliablePartArrived()
      requires Sound() && resetErr.Some? && !shutdownErr && numOutstandingFrames <= 0 && retransmissionQueue == []
      ensures ReliableOffset() > 0 ==> ReliablyAcked()
    {
      if ReliableOffset() > 0 {
        assert |inFlight| == 0;
        assert Known() == acked;
      }
    }

    /** Reports completion if nothing is left to send or to wait for. */
    method IsNewlyCompleted() returns (newly: bool)
      requires Sound()
      modifies this`completed, this`reports
      ensures Valid()
      ensures CompletionReported(newly, old(completed))
    {
      hide CountOk, BooksOk, FullyAcked, ReliablyAcked;
      if Undisturbed() { NothingLeft(); }
      if completed {
        return false;
      }
      if nextFrame.Some? && |nextFrame.value.data| > 0 {
        return false;
      }
      if numOutstandingFrames > 0 || |retransmissionQueue| > 0 || queuedResetStreamFrame.Some? {
        return false;
      }
      if finSent || (resetErr.Some? && (cancellationFlagged || finishedWriting)) {
        if resetErr.Some? && !shutdownErr { ReliablePartArrived(); }
        completed := true;
        reports := reports + 1;
        return true;
      }
      return false;
    }

    // ---------------------------------------------------------- writing

    /** The checks at the start of Write; if they pass, the data waits to be sent. */
    method BeginWrite(p: seq<byte>) returns (started: bool, newly: bool)
      requires Valid() && writing == None
      modifies this`dataForWriting, this`writing, this`accepted, this`cancellationFlagged, this`completed, this`reports
      ensures Valid()
      ensures started <==> Undisturbed() && !finishedWriting && p != []
      ensures if started then accepted == old(accepted) + p && writing == Some(Call(|old(accepted)|, |p|))
              else accepted == old(accepted) && writing == None
      ensures dataForWriting == if started then Some(p) else old(dataForWriting)
      ensures started ==> !newly
      ensures CompletionReported(newly, old(completed))
    {
      hide CountOk, BooksOk, KnownFrames, FullyAcked, ReliablyAcked;
      started, newly := false, false;
      if resetErr.Some? {
        cancellationFlagged := true;
        newly := IsNewlyCompleted();
        return;
      }
      if shutdownErr || finishedWriting || p == [] {
        return;
      }
      started := true;
      AcceptBooks(accepted, writeOffset, nextFrame, dataForWriting, writing, finishedWriting, finSent, Known(), wire,
                  resetErr.Some?, shutdownErr, ReliableOffset(), p);
      dataForWriting, accepted, writing := Some(p), accepted + p, Some(Call(|accepted|, |p|));
    }

    predicate CanBufferStreamFrame()
      reads this`nextFrame, this`dataForWriting
    {
      |Payload(nextFrame)| + |Bytes(dataForWriting)| <= MAX_PACKET_BUFFER_SIZE
    }

    /** Copy the rest of the data into the frame that goes out next. */
    method BufferRest()
      requires Valid() && CanBufferStreamFrame() && |Bytes(dataForWriting)| > 0
      modifies this`nextFrame, this`dataForWriting, this`writing
      ensures Valid() && writing == None && dataForWriting == None
      ensures nextFrame == Some(StreamFrame(writeOffset, Payload(old(nextFrame)) + Bytes(old(dataForWriting)), false))
    {
      hide CountOk, BooksOk, KnownFrames;
      var f := StreamFrame(writeOffset, Payload(nextFrame) + Bytes(dataForWriting), false);
      BufferBooks(accepted, writeOffset, nextFrame, dataForWriting, writing, finishedWriting, finSent, Known(), wire,
                  resetErr.Some?, shutdownErr, ReliableOffset(), f);
      nextFrame := Some(f);
      dataForWriting := None;
      writing := None;
    }

    lemma RestBounded()
      requires Valid() && writing.Some?
      ensures |Bytes(dataForWriting)| <= writing.value.total
    {
    }

    method FinishWrite(total: nat) returns (written: nat, newly: bool)
      requires Valid() && writing.Some? && writing.value.total == total
      requires dataForWriting == None || !Undisturbed()
      modifies this`writing, this`cancellationFlagged, this`completed, this`reports
      ensures Valid() && writing == None
      ensures written == total - |Bytes(dataForWriting)|
      ensures cancellationFlagged == (old(cancellationFlagged) || (|Bytes(dataForWriting)| > 0 && !shutdownErr))
      ensures CompletionReported(newly, old(completed))
    {
      hide CountOk, BooksOk, KnownFrames, FullyAcked, ReliablyAcked;
      newly := false;
      RestBounded();
      ReturnBooks(accepted, writeOffset, nextFrame, dataForWriting, writing, finishedWriting, finSent, Known(), wire,
                  resetErr.Some?, shutdownErr, ReliableOffset());
      writing := None;
      written := total - |Bytes(dataForWriting)|;
      if |Bytes(dataForWriting)| > 0 && !shutdownErr {
        cancellationFlagged := true;
        newly := IsNewlyCompleted();
      }
    }

    /**
     One pass of the Write loop. It returns the number of bytes written once the rest fits
     into the buffered frame, everything has been sent, or an error occurred. Without a
     reset, Write returns only when all its bytes are accepted.
     */
    method WritePass(total: nat) returns (written: Option<nat>, newly: bool)
      requires Valid() && writing.Some? && writing.value.total == total
      modifies this`nextFrame, this`dataForWriting, this`writing, this`cancellationFlagged, this`completed, this`reports
      ensures Valid()
      ensures written.Some? <==> writing == None
      ensures written == None ==> writing == old(writing) && dataForWriting == old(dataForWriting) && !newly
      ensures Undisturbed() && written.Some? ==> written.value == total
      ensures if old(CanBufferStreamFrame() && |Bytes(dataForWriting)| > 0)
              then written == Some(total) &&
                Payload(nextFrame) == Payload(old(nextFrame)) + Bytes(old(dataForWriting)) && !newly
              else
                && nextFrame == old(nextFrame) && (written == None <==> Undisturbed() && old(dataForWriting).Some?)
                && (written.Some? ==> written.value == total - |Bytes(old(dataForWriting))|)
      ensures old(cancellationFlagged) ==> cancellationFlagged
      ensures CompletionReported(newly, old(completed))
    {
      hide CountOk, BooksOk, FullyAcked, ReliablyAcked;
      written, newly := None, false;
      if CanBufferStreamFrame() && |Bytes(dataForWriting)| > 0 {
        BufferRest();
        written := Some(total);
      } else if dataForWriting == None || shutdownErr || resetErr.Some? {
        var n;
        n, newly := FinishWrite(total);
        written := Some(n);
      }
    }

    /**
     Write up to where it returns or waits, which the source does under one lock: data that fits into the
     buffered frame is accepted at once, other data waits.
     */
    method StartWrite(p: seq<byte>) returns (written: Option<nat>, newly: bool)
      requires Valid() && writing == None
      modifies this`nextFrame, this`dataForWriting, this`writing, this`accepted, this`cancellationFlagged,
               this`completed,
               this`reports
      ensures Valid()
      ensures if Undisturbed() && !finishedWriting && p != [] then
                && accepted == old(accepted) + p && !newly
                && (if |Payload(old(nextFrame))| + |p| <= MAX_PACKET_BUFFER_SIZE
                    then written == Some(|p|) && writing == None && Payload(nextFrame) == Payload(old(nextFrame)) + p
                    else Waits(p) && written == None && nextFrame == old(nextFrame))
              else accepted == old(accepted) && writing == None && written == Some(0) && nextFrame == old(nextFrame)
      ensures CompletionReported(newly, old(completed))
    {
      hide Valid, FullyAcked, ReliablyAcked, Stranded;
      var started;
      started, newly := BeginWrite(p);
      if !started { return Some(0), newly; }
      written, newly := WritePass(|p|);
    }

    /** A Write of p has been called, and none of its bytes has been taken. */
    predicate Waits(p: seq<byte>)
      reads this`writing, this`dataForWriting
    {
      writing.Some? && writing.value.total == |p| && dataForWriting == Some(p)
    }

    /** The write deadline passed: bytes neither sent nor buffered are not accepted after all. */
    method WriteTimeout(total: nat) returns (written: nat)
      requires Valid() && writing.Some? && writing.value.total == total
      requires !(CanBufferStreamFrame() && |Bytes(dataForWriting)| > 0)
      modifies this`dataForWriting, this`writing, this`accepted
      ensures Valid() && writing == None
      ensures Undisturbed() ==>
        accepted <= old(accepted) && |accepted| == old(writing).value.base + written && written <= total
    {
      hide CountOk, BooksOk, KnownFrames;
      RestBounded();
      TimeoutBooks(accepted, writeOffset, nextFrame, dataForWriting, writing, finishedWriting, finSent, Known(), wire,
                   resetErr.Some?, shutdownErr, ReliableOffset());
      written := total - |Bytes(dataForWriting)|;
      if Undisturbed() {
        accepted := accepted[..|accepted| - |Bytes(dataForWriting)|];
      }
      dataForWriting := None;
      writing := None;
    }

    // ---------------------------------------------------------- sending

    /** The oldest lost frame, or at least a byte of it, fits. */
    predicate HeadFits(maxBytes: nat)
      requires retransmissionQueue != []
      reads this`retransmissionQueue
    {
      FrameLength(streamID, retransmissionQueue[0]) <= maxBytes ||
        LengthWith(streamID, retransmissionQueue[0].offset, 1) <= maxBytes
    }

    /** Something may be sent in maxBytes bytes with a send window of window bytes. */
    predicate CanSend(maxBytes: nat, window: nat)
      reads this
    {
      && !shutdownErr
      && (resetErr.Some? ==> ReliableOffset() > 0 && (writeOffset < ReliableOffset() || retransmissionQueue != []))
      && if retransmissionQueue != [] then HeadFits(maxBytes)
         else if nextFrame.Some? || |Bytes(dataForWriting)| > 0 then window > 0 &&
              LengthWith(streamID, writeOffset, 1) <= maxBytes
         else finishedWriting && !finSent
    }

    /** Resend the oldest lost frame, or as much of it as fits. */
    method SendRetransmission(maxBytes: nat) returns (f: Option<StreamFrame>)
      requires Valid() && retransmissionQueue != []
      requires resetErr == None || ReliableOffset() > 0
      modifies this`retransmissionQueue, this`numOutstandingFrames, this`inFlight, this`wire
      ensures Valid()
      ensures if f.Some? then wire == old(wire) + {f.value} && inFlight == old(inFlight) + multiset{f.value}
              else wire == old(wire) && inFlight == old(inFlight)
      ensures f.Some? ==> FrameLength(streamID, f.value) <= maxBytes
      ensures f.Some? <==> old(HeadFits(maxBytes))
      ensures f.Some? ==> Resent(f.value, maxBytes)
      ensures if f.Some? then Work(retransmissionQueue) < old(Work(retransmissionQueue))
        else retransmissionQueue == old(retransmissionQueue)
    {
      hide Valid, FrameLength, Work, LengthWith;
      var head := retransmissionQueue[0];
      HeadSmall();
      if FrameLength(streamID, head) <= maxBytes {
        RequeuedWork(retransmissionQueue, head, []);
        Resend(head, []);
        return Some(head);
      }
      var (prefix, rest) := SplitOff(streamID, head, maxBytes);
      if prefix == None {
        return None;
      }
      RequeuedWork(retransmissionQueue, prefix.value, [rest]);
      Resend(prefix.value, [rest]);
      return prefix;
    }

    /** The oldest lost frame went out whole, or the longest part of it that fits; its rest is the next to go out. */
    twostate predicate Resent(f: StreamFrame, maxBytes: nat)
      requires old(retransmissionQueue) != []
      reads this
    {
      var head, n := old(retransmissionQueue)[0], |f.data|;
      if f == head then retransmissionQueue == old(retransmissionQueue)[1..]
      else
        && n < |head.data| && f == StreamFrame(head.offset, head.data[..n], false)
        && LengthWith(streamID, head.offset, n + 1) > maxBytes
        && retransmissionQueue == [StreamFrame(head.offset + n, head.data[n..],
                                               head.fin)] + old(retransmissionQueue)[1..]
    }

    lemma HeadSmall()
      requires Valid() && retransmissionQueue != []
      ensures |retransmissionQueue[0].data| <= MAX_PACKET_BUFFER_SIZE
    {
    }

    /** Send f, the head of the retransmission queue or its first part. */
    method Resend(f: StreamFrame, rest: seq<StreamFrame>)
      requires Valid() && retransmissionQueue != []
      requires resetErr == None || ReliableOffset() > 0
      requires Parts(retransmissionQueue[0], f, rest)
      modifies this`retransmissionQueue, this`numOutstandingFrames, this`inFlight, this`wire
      ensures Valid()
      ensures wire == old(wire) + {f} && inFlight == old(inFlight) + multiset{f}
      ensures retransmissionQueue == Requeued(old(retransmissionQueue), rest)
    {
      hide CountOk, BooksOk, KnownFrames, Parts, ReliableOffset, Requeued;
      ResendBooks(accepted, writeOffset, nextFrame, dataForWriting, writing, finishedWriting, finSent, wire,
                  resetErr.Some?, shutdownErr, ReliableOffset(), acked, retransmissionQueue, inFlight, f, rest);
      assert |inFlight + multiset{f}| == |inFlight| + 1;
      CountedNonNegative();
      CountUp(numOutstandingFrames, resetErr.Some?, ReliableOffset(), queuedResetStreamFrame, |inFlight|, resets,
              resetAts);
      retransmissionQueue := Requeued(retransmissionQueue, rest);
      Record(inFlight + multiset{f}, wire + {f});
    }

    /** Count a frame as outstanding; counter and books already take it into account. */
    method Record(flying: multiset<StreamFrame>, onWire: set<StreamFrame>)
      requires reports == (if completed then 1 else 0)
      requires numOutstandingFrames >= 0 && (completed ==> !Undisturbed())
      requires CountOk(numOutstandingFrames + 1, resetErr.Some?, ReliableOffset(), queuedResetStreamFrame, |flying|,
                       resets, resetAts)
      requires BooksOk(accepted, writeOffset, nextFrame, dataForWriting, writing, finishedWriting, finSent,
                       KnownFrames(acked, retransmissionQueue, flying), onWire, resetErr.Some?, shutdownErr,
                         ReliableOffset())
      modifies this`numOutstandingFrames, this`inFlight, this`wire
      ensures Valid() && wire == onWire && inFlight == flying
    {
      hide CountOk, BooksOk, KnownFrames, ReliableOffset;
      numOutstandingFrames := numOutstandingFrames + 1;
      inFlight, wire := flying, onWire;
    }

    method Advance(next: Option<StreamFrame>, rest: Option<seq<byte>>, sent: nat, fin: bool)
      modifies this`nextFrame, this`dataForWriting, this`writeOffset, this`finSent
      ensures nextFrame == next && dataForWriting == rest && writeOffset == sent && finSent == fin
    {
      nextFrame, dataForWriting, writeOffset, finSent := next, rest, sent, fin;
    }

    /** Hand a frame with new data, or the bare FIN, to the network. */
    method Launch(f: StreamFrame, next: Option<StreamFrame>, rest: Option<seq<byte>>)
      requires Valid()
      requires resetErr == None || ReliableOffset() > 0
      requires f.offset == writeOffset && Takes(f, nextFrame, dataForWriting, next, rest)
      requires Undisturbed() ==> (f.fin <==> finishedWriting && rest == None && next == None && !finSent)
      requires Undisturbed() ==> !finSent
      modifies this`nextFrame, this`dataForWriting, this`writeOffset, this`finSent, this`numOutstandingFrames,
               this`inFlight, this`wire
      ensures Valid()
      ensures wire == old(wire) + {f} && inFlight == old(inFlight) + multiset{f}
      ensures writeOffset == FrameEnd(f) && finSent == (old(finSent) || f.fin)
      ensures nextFrame == next && dataForWriting == rest
    {
      hide CountOk, BooksOk, KnownFrames, ReliableOffset, Takes, FrameEnd;
      Launchable(f, next, rest);
      CountedNonNegative();
      var flying, onWire := inFlight + multiset{f}, wire + {f};
      Advance(next, rest, FrameEnd(f), finSent || f.fin);
      Record(flying, onWire);
    }

    lemma Launchable(f: StreamFrame, next: Option<StreamFrame>, rest: Option<seq<byte>>)
      requires Valid()
      requires resetErr == None || ReliableOffset() > 0
      requires f.offset == writeOffset && Takes(f, nextFrame, dataForWriting, next, rest)
      requires Undisturbed() ==> (f.fin <==> finishedWriting && rest == None && next == None && !finSent)
      ensures CountOk(numOutstandingFrames + 1, resetErr.Some?, ReliableOffset(), queuedResetStreamFrame,
                      |inFlight + multiset{f}|, resets, resetAts)
      ensures BooksOk(accepted, FrameEnd(f), next, rest, writing, finishedWriting, finSent || f.fin,
                      KnownFrames(acked, retransmissionQueue, inFlight + multiset{f}), wire + {f},
                      resetErr.Some?, shutdownErr, ReliableOffset())
    {
      hide CountOk, BooksOk, KnownFrames, ReliableOffset, Takes, FrameEnd;
      assert |inFlight + multiset{f}| == |inFlight| + 1;
      CountUp(numOutstandingFrames, resetErr.Some?, ReliableOffset(), queuedResetStreamFrame, |inFlight|, resets,
              resetAts);
      LaunchBooks(accepted, writeOffset, nextFrame, dataForWriting, writing, finishedWriting, finSent, wire,
                  resetErr.Some?, shutdownErr, ReliableOffset(), acked, retransmissionQueue, inFlight, f, next, rest);
    }

    /** The bytes that the next frame with new data can take: those of the buffered frame, or of the Write. */
    function Front(): seq<byte>
      reads this`nextFrame, this`dataForWriting
    {
      if nextFrame.Some? then nextFrame.value.data else Bytes(dataForWriting)
    }

    /**
     A frame with new data carries the next bytes: all there are, as many as the limit allows, or as many as
     fit. It has the FIN if it is the end.
     */
    twostate predicate NewData(g: StreamFrame, maxBytes: nat, limit: nat)
      reads this
    {
      && g.data <= old(Front())
      && (|g.data| == Min(limit, |old(Front())|) || LengthWith(streamID, g.offset, |g.data| + 1) > maxBytes)
      && (g.fin <==> finishedWriting && !old(finSent) && nextFrame == None && dataForWriting == None)
      && finSent == (old(finSent) || g.fin)
    }

    /** There are bytes or a FIN that have not been sent. */
    predicate MoreToSend()
      reads this`nextFrame, this`dataForWriting, this`finishedWriting, this`finSent
    {
      nextFrame.Some? || |Bytes(dataForWriting)| > 0 || (finishedWriting && !finSent)
    }

    twostate predicate SameData()
      reads this
    {
      nextFrame == old(nextFrame) && dataForWriting == old(dataForWriting) && writeOffset == old(writeOffset) &&
        finSent == old(finSent)
    }

    /** Sending takes from the front of the buffered frame and puts nothing into it. */
    twostate predicate BufferKept()
      reads this
    {
      if old(nextFrame) == None then nextFrame == None
      else writeOffset + |Payload(nextFrame)| == old(writeOffset + |Payload(nextFrame)|)
    }

    /** popNewStreamFrame: take the next bytes from the buffered frame or from the Write in progress. */
    method SendNew(maxBytes: nat, window: nat) returns (f: Option<StreamFrame>, more: bool)
      requires Valid() && maxBytes <= MAX_PACKET_BUFFER_SIZE
      requires resetErr == None || ReliableOffset() > 0
      requires nextFrame.Some? || |Bytes(dataForWriting)| > 0
      modifies this`nextFrame, this`dataForWriting, this`writeOffset, this`finSent, this`numOutstandingFrames,
               this`inFlight, this`wire
      ensures Valid()
      ensures old(writeOffset) <= writeOffset && (old(finSent) ==> finSent)
      ensures if f.Some? then wire == old(wire) + {f.value} && inFlight == old(inFlight) + multiset{f.value}
              else wire == old(wire) && inFlight == old(inFlight)
      ensures f.Some? ==> FrameLength(streamID, f.value) <= maxBytes
      ensures f.Some? <==> window > 0 && LengthWith(streamID, old(writeOffset), 1) <= maxBytes
      ensures f.Some? ==> NewData(f.value, maxBytes, window)
      ensures f.Some? ==>
        f.value.offset == old(writeOffset) && FrameEnd(f.value) == writeOffset <= old(writeOffset) + window
      ensures more || !MoreToSend()
      ensures if f.Some? then LeftToSend() < old(LeftToSend()) else more && SameData()
      ensures BufferKept()
    {
      hide Valid, Work, LeftToSend, BufferKept;
      MaxDataLenFits'(streamID, writeOffset, maxBytes);
      MaxDataLenMaximal(streamID, writeOffset, maxBytes);
      var n := Min(window, MaxDataLen(streamID, writeOffset, maxBytes));
      hide MaxDataLen, LengthWith;
      if n == 0 {
        SameWork();
        return None, true;
      }
      if nextFrame.Some? {
        var g := SendBuffered(n);
        return Some(g), nextFrame.Some? || dataForWriting.Some?;
      } else {
        var g := SendWritten(n);
        return Some(g), dataForWriting.Some? || finishedWriting;
      }
    }

    twostate lemma SameWork()
      ensures SameData() ==> BufferKept()
    {
    }

    /** At most n bytes of the buffered frame. */
    method SendBuffered(n: nat) returns (g: StreamFrame)
      requires Valid() && 0 < n <= MAX_PACKET_BUFFER_SIZE && nextFrame.Some?
      requires resetErr == None || ReliableOffset() > 0
      modifies this`nextFrame, this`dataForWriting, this`writeOffset, this`finSent, this`numOutstandingFrames,
               this`inFlight, this`wire
      ensures Valid() && Sent(g, n)
      ensures nextFrame == None && dataForWriting == None ==> !(finishedWriting && !finSent)
    {
      hide Valid, Work;
      BufferedAtOffset();
      if Undisturbed() { WaitingBeforeFin(); }
      var d := nextFrame.value.data;
      var whole := |d| <= n;
      var fin := finishedWriting && dataForWriting == None && whole && !finSent;
      g := StreamFrame(writeOffset, if whole then d else d[..n], fin);
      var next := if whole then None else Some(StreamFrame(writeOffset + n, d[n..], false));
      TakesBuffered(g, nextFrame, dataForWriting, next, n);
      Launch(g, next, dataForWriting);
    }

    /** At most n bytes of the Write in progress. */
    method SendWritten(n: nat) returns (g: StreamFrame)
      requires Valid() && 0 < n <= MAX_PACKET_BUFFER_SIZE && nextFrame == None && |Bytes(dataForWriting)| > 0
      requires resetErr == None || ReliableOffset() > 0
      modifies this`nextFrame, this`dataForWriting, this`writeOffset, this`finSent, this`numOutstandingFrames,
               this`inFlight, this`wire
      ensures Valid() && Sent(g, n) && nextFrame == None
    {
      hide Valid, Work;
      if Undisturbed() { WaitingBeforeFin(); }
      var d := dataForWriting.value;
      var whole := |d| <= n;
      var fin := finishedWriting && whole && !finSent;
      g := StreamFrame(writeOffset, if whole then d else d[..n], fin);
      var rest := if whole then None else Some(d[n..]);
      TakesWritten(g, d, rest, n);
      Launch(g, None, rest);
    }

    /** A frame with new data went out. */
    twostate predicate Sent(g: StreamFrame, n: nat)
      reads this
    {
      && wire == old(wire) + {g} && inFlight == old(inFlight) + multiset{g}
      && g.offset == old(writeOffset) && FrameEnd(g) == writeOffset
      && g.data == old(Front())[..Min(n, |old(Front())|)]
      && (g.fin <==> finishedWriting && !old(finSent) && nextFrame == None && dataForWriting == None)
      && finSent == (old(finSent) || g.fin)
      && LeftToSend() < old(LeftToSend())
      && BufferKept()
    }

    /** Without a reset, data that waits to be sent means that the FIN has not been sent. */
    lemma WaitingBeforeFin()
      requires Valid() && Undisturbed() && (nextFrame.Some? || |Bytes(dataForWriting)| > 0)
      ensures !finSent
    {
      hide CountOk, KnownFrames, CoversUpTo, AllSmall, HasFin, AllCarry;
    }

    lemma BufferedAtOffset()
      requires Valid()
      ensures nextFrame.Some? ==>
        nextFrame.value.offset == writeOffset && |nextFrame.value.data| <= MAX_PACKET_BUFFER_SIZE
      ensures dataForWriting.Some? ==> dataForWriting.value != []
    {
    }

    static lemma MaxDataLenFits'(id: nat, offset: nat, maxSize: nat)
      requires maxSize <= MAX_PACKET_BUFFER_SIZE
      ensures MaxDataLen(id, offset, maxSize) <= MAX_PACKET_BUFFER_SIZE
      ensures forall f: StreamFrame :: f.offset == offset && 0 < |f.data| <= MaxDataLen(id, offset, maxSize) ==>
        FrameLength(id, f) <= maxSize
    {
    }

    /**
     The next frame for a packet with room for maxBytes: a lost frame first, then new data
     within the send window, then the bare FIN. Only the bare FIN may exceed the room. After a
     reset, new data is sent only up to the reliable size. Unless more is claimed, there is nothing
     to send any more, whatever the room and the window.
     */
    method PopStreamFrame(maxBytes: nat, window: nat) returns (f: Option<StreamFrame>, more: bool)
      requires Valid() && maxBytes <= MAX_PACKET_BUFFER_SIZE
      modifies this`nextFrame, this`dataForWriting, this`writeOffset, this`finSent, this`numOutstandingFrames,
               this`inFlight, this`wire, this`retransmissionQueue
      ensures Valid()
      ensures old(writeOffset) <= writeOffset && (old(finSent) ==> finSent)
      ensures if f.Some? then wire == old(wire) + {f.value} && inFlight == old(inFlight) + multiset{f.value}
              else wire == old(wire) && inFlight == old(inFlight)
      ensures f.Some? && f.value.data != [] ==> FrameLength(streamID, f.value) <= maxBytes
      ensures old(Stranded()) ==> Stranded()
      ensures f.Some? <==> old(CanSend(maxBytes, window))
      ensures f.Some? && old(retransmissionQueue) != [] ==> Resent(f.value, maxBytes) && writeOffset == old(writeOffset)
      ensures f.Some? && old(retransmissionQueue) == [] ==>
        NewData(f.value, maxBytes, if resetErr.Some? then Min(window, ReliableOffset() - old(writeOffset)) else window)
      ensures f.Some? && old(retransmissionQueue) == [] ==>
        f.value.offset == old(writeOffset) && FrameEnd(f.value) == writeOffset <= old(writeOffset) + window
      ensures f.Some? && resetErr.Some? && old(retransmissionQueue) == [] ==> writeOffset <= ReliableOffset()
      ensures !more ==> forall m, w :: !CanSend(m, w)
      ensures if f.Some? then LeftToSend() < old(LeftToSend())
        else SameData() && retransmissionQueue == old(retransmissionQueue)
      ensures BufferKept()
    {
      hide Valid, LengthWith, HeadFits, Work, LeftToSend;
      if shutdownErr {
        return None, false;
      }
      var reliable := ReliableOffset();
      if resetErr.Some? && (reliable == 0 || (writeOffset >= reliable && retransmissionQueue == [])) {
        return None, false;
      }
      if |retransmissionQueue| > 0 {
        f := SendRetransmission(maxBytes);
        if f.Some? { LessWork(); }
        return f, true;
      }
      if |Bytes(dataForWriting)| == 0 && nextFrame == None {
        if finishedWriting && !finSent {
          var fin := SendFin();
          return Some(fin), false;
        }
        return None, false;
      }
      if window == 0 {
        return None, true;
      }
      var limit := if resetErr.Some? && writeOffset < reliable then Min(window, reliable - writeOffset) else window;
      f, more := SendNew(maxBytes, limit);
      if f.Some? && resetErr.Some? && writeOffset >= reliable { more := false; }
    }

    twostate lemma LessWork()
      requires SameData() && Work(retransmissionQueue) < old(Work(retransmissionQueue))
      ensures LeftToSend() < old(LeftToSend())
    {
    }

    /** The FIN in a frame of its own. */
    method SendFin() returns (fin: StreamFrame)
      requires Valid() && |Bytes(dataForWriting)| == 0 && nextFrame == None && finishedWriting && !finSent
      requires resetErr == None || ReliableOffset() > 0
      modifies this`nextFrame, this`dataForWriting, this`writeOffset, this`finSent, this`numOutstandingFrames,
               this`inFlight, this`wire
      ensures Valid() && Sent(fin, 0) && fin == StreamFrame(old(writeOffset), [], true) && finSent
      ensures nextFrame == None && |Bytes(dataForWriting)| == 0
    {
      hide Valid, Work;
      fin := StreamFrame(writeOffset, [], true);
      BufferedAtOffset();
      TakesNothing(fin);
      Launch(fin, None, None);
    }

    // ---------------------------------------------------------- closing and resetting

    method Close() returns (newly: bool)
      requires Valid() && writing == None
      modifies this`finishedWriting, this`cancellationFlagged, this`completed, this`reports
      ensures Valid()
      ensures finishedWriting == (old(finishedWriting) || !shutdownErr)
      ensures CompletionReported(newly, old(completed))
    {
      hide CountOk, BooksOk, KnownFrames, FullyAcked, ReliablyAcked;
      newly := false;
      if shutdownErr || finishedWriting {
        return;
      }
      CloseBooks(accepted, writeOffset, nextFrame, dataForWriting, writing, finSent, Known(), wire, resetErr.Some?,
                 shutdownErr, ReliableOffset());
      finishedWriting, cancellationFlagged := true, cancellationFlagged || resetErr.Some?;
      newly := IsNewlyCompleted();
    }

    /** All bytes sent or buffered so far are to be delivered even if the stream is reset. */
    method SetReliableBoundary()
      requires Valid() && resetErr == None
      modifies this`reliableSize
      ensures Valid()
      ensures reliableSize == writeOffset + |Payload(nextFrame)|
    {
      hide CountOk, BooksOk, KnownFrames;
      var boundary := writeOffset + |Payload(nextFrame)|;
      BoundaryBooks(accepted, writeOffset, nextFrame, dataForWriting, writing, finishedWriting, finSent, Known(), wire,
                    shutdownErr, ReliableOffset(), if supportsResetStreamAt then boundary else 0);
      CountBoundary(numOutstandingFrames, ReliableOffset(), queuedResetStreamFrame, |inFlight|, resets, resetAts,
                    if supportsResetStreamAt then boundary else 0);
      reliableSize := boundary;
    }

    method EnableResetStreamAt()
      requires Valid() && resetErr == None
      modifies this`supportsResetStreamAt
      ensures Valid() && supportsResetStreamAt
    {
      hide CountOk, BooksOk, KnownFrames;
      BoundaryBooks(accepted, writeOffset, nextFrame, dataForWriting, writing, finishedWriting, finSent, Known(), wire,
                    shutdownErr, ReliableOffset(), reliableSize);
      CountBoundary(numOutstandingFrames, ReliableOffset(), queuedResetStreamFrame, |inFlight|, resets, resetAts,
                    reliableSize);
      supportsResetStreamAt := true;
    }

    /** Give up all data that was not sent yet or has to be resent. */
    method Abandon(r: ResetFrame, newReliableSize: nat)
      requires Valid() && !shutdownErr && r.reliableSize == 0
      requires resetErr == None || (ReliableOffset() > 0 && resetErr == Some(r.errorCode))
      requires supportsResetStreamAt ==> newReliableSize == 0
      modifies this`numOutstandingFrames, this`retransmissionQueue, this`nextFrame, this`resetErr, this`reliableSize,
               this`queuedResetStreamFrame
      ensures Valid() && resetErr == Some(r.errorCode) && ReliableOffset() == 0
      ensures nextFrame == None && retransmissionQueue == [] && queuedResetStreamFrame == Some(r)
    {
      hide CountOk, BooksOk, KnownFrames;
      CountReset(numOutstandingFrames, resetErr.Some?, ReliableOffset(), queuedResetStreamFrame, |inFlight|, resets,
                 resetAts, r);
      KnownLess(acked, retransmissionQueue, inFlight);
      ghost var known := KnownFrames(acked, [], inFlight);
      DropBooks(accepted, writeOffset, nextFrame, dataForWriting, writing, finishedWriting, finSent, Known(), wire,
                resetErr.Some?, shutdownErr, ReliableOffset(), known, true, shutdownErr);
      retransmissionQueue, nextFrame := [], None;
      EnterReset(0, r, newReliableSize);
    }

    /** Queue the RESET_STREAM frame; counter and books already fit the reset stream. */
    method EnterReset(num: nat, r: ResetFrame, newReliableSize: nat)
      requires reports == (if completed then 1 else 0)
      requires var reliable := if supportsResetStreamAt then newReliableSize else 0;
        && CountOk(num, true, reliable, Some(r), |inFlight|, resets, resetAts)
        && BooksOk(accepted, writeOffset, nextFrame, dataForWriting, writing, finishedWriting, finSent, Known(), wire,
                   true, shutdownErr, reliable)
      modifies this`numOutstandingFrames, this`resetErr, this`reliableSize, this`queuedResetStreamFrame
      ensures Valid() && resetErr == Some(r.errorCode) && reliableSize == newReliableSize
      ensures numOutstandingFrames == num && queuedResetStreamFrame == Some(r)
    {
      hide CountOk, BooksOk, KnownFrames;
      numOutstandingFrames, resetErr, reliableSize, queuedResetStreamFrame := num, Some(r.errorCode), newReliableSize,
        Some(r);
    }

    static method TruncateFrames(fs: seq<StreamFrame>, limit: nat) returns (kept: seq<StreamFrame>)
      ensures kept == TruncateAll(fs, limit)
    {
      kept := [];
      for i := 0 to |fs|
        invariant kept == TruncateAll(fs[..i], limit)
      {
        TruncateStep(fs, i, limit);
        if fs[i].offset < limit {
          kept := kept + [Truncate(fs[i], limit)];
        }
      }
      assert fs[..|fs|] == fs;
    }

    /** Cut buffered and queued frames at the reliable size. */
    method TruncateQueues(r: ResetFrame)
      requires Valid() && !shutdownErr && resetErr == None && r.reliableSize == ReliableOffset() > 0
      modifies this`numOutstandingFrames, this`retransmissionQueue, this`nextFrame, this`resetErr, this`reliableSize,
               this`queuedResetStreamFrame
      ensures Valid() && resetErr == Some(r.errorCode) && reliableSize == old(reliableSize)
      ensures nextFrame == CutAt(old(nextFrame), r.reliableSize) &&
        retransmissionQueue == TruncateAll(old(retransmissionQueue), r.reliableSize)
      ensures queuedResetStreamFrame == Some(r) && numOutstandingFrames == old(numOutstandingFrames)
    {
      hide CountOk, BooksOk, KnownFrames, TruncateAll, Truncate;
      var reliable := ReliableOffset();
      CountReset(numOutstandingFrames, resetErr.Some?, reliable, queuedResetStreamFrame, |inFlight|, resets, resetAts,
                 r);
      var next := CutAt(nextFrame, reliable);
      CancelBooks(accepted, writeOffset, nextFrame, dataForWriting, writing, finishedWriting, finSent, wire,
                  shutdownErr,
                  reliable, acked, retransmissionQueue, inFlight, next);
      var kept := TruncateFrames(retransmissionQueue, reliable);
      CountedNonNegative();
      nextFrame, retransmissionQueue := next, kept;
      EnterReset(numOutstandingFrames, r, reliableSize);
    }

    /** Nothing is left to send or to wait for, and the application knows of the reset. */
    lemma ResetIsOver()
      requires Valid() && resetErr.Some? && !shutdownErr && (cancellationFlagged || finishedWriting)
      requires Payload(nextFrame) == [] && retransmissionQueue == [] && queuedResetStreamFrame == None
      requires inFlight == multiset{} && resets == multiset{} && resetAts == multiset{}
      ensures completed
      ensures ReliablyAcked()
    {
      hide BooksOk;
      ReliablePartArrived();
      if ReliableOffset() == 0 { NoBytes(acked); }
    }

    /** With room for a full packet there is always room for a byte, so only a stranded frame stays behind. */
    lemma NothingElseLeft()
      requires Valid() && resetErr.Some? && !shutdownErr && !Stranded() &&
        !CanSend(MAX_PACKET_BUFFER_SIZE, MAX_PACKET_BUFFER_SIZE)
      requires ReliableOffset() == 0 ==> retransmissionQueue == []
      ensures retransmissionQueue == [] && Payload(nextFrame) == []
    {
      hide CountOk, BooksOk, Noticed, Settled;
    }

    lemma CountedNonNegative()
      requires Sound()
      ensures numOutstandingFrames >= 0
    {
    }

    method FlagCancellation()
      requires Valid()
      modifies this`cancellationFlagged
      ensures Sound() && cancellationFlagged && (resetErr == None ==> Valid())
    {
      hide CountOk, BooksOk, KnownFrames;
      cancellationFlagged := true;
    }

    /** CancelWrite: reset the stream, keeping only its reliable part. */
    method CancelWrite(errorCode: nat) returns (newly: bool)
      requires Valid()
      modifies this
      ensures Valid()
      ensures shutdownErr == old(shutdownErr) && accepted == old(accepted) && wire == old(wire)
      ensures !shutdownErr ==>
        resetErr == Some(if old(resetErr).Some? then old(resetErr).value else errorCode) && cancellationFlagged
      ensures writing == old(writing) && dataForWriting == old(dataForWriting) && resets == old(resets)
      ensures ReliableOffset() == old(ReliableOffset()) && writeOffset == old(writeOffset)
      ensures old(Undisturbed()) ==>
        && queuedResetStreamFrame == Some(ResetFrame(Max(writeOffset, ReliableOffset()), errorCode, ReliableOffset()))
        && nextFrame == CutAt(old(nextFrame), ReliableOffset())
        && retransmissionQueue == (if ReliableOffset() == 0 then [] else TruncateAll(old(retransmissionQueue),
             ReliableOffset()))
      ensures !old(Undisturbed()) ==>
        nextFrame == old(nextFrame) && retransmissionQueue == old(retransmissionQueue) &&
          queuedResetStreamFrame == old(queuedResetStreamFrame)
      ensures old(Stranded()) ==> Stranded()
      ensures old(Undisturbed()) ==> !newly
      ensures CompletionReported(newly, old(completed))
    {
      hide Valid, Sound, FullyAcked, ReliablyAcked, TruncateAll, Truncate;
      newly := false;
      if shutdownErr {
        return;
      }
      FlagCancellation();
      if resetErr.Some? {
        newly := IsNewlyCompleted();
        return;
      }
      var reliable := ReliableOffset();
      var r := ResetFrame(Max(writeOffset, reliable), errorCode, reliable);
      if reliable == 0 {
        Abandon(r, reliableSize);
      } else {
        TruncateQueues(r);
      }
    }

    /** STOP_SENDING: the peer needs no data at all any more, not even the reliable part. */
    method HandleStopSendingFrame(errorCode: nat)
      requires Valid()
      modifies this`numOutstandingFrames, this`retransmissionQueue, this`nextFrame, this`resetErr, this`reliableSize,
               this`queuedResetStreamFrame
      ensures Valid()
      ensures !shutdownErr ==>
        ReliableOffset() == 0 && resetErr == Some(if old(resetErr).Some? then old(resetErr).value else errorCode)
      ensures if old(shutdownErr || (resetErr.Some? && ReliableOffset() == 0))
              then nextFrame == old(nextFrame) && retransmissionQueue == old(retransmissionQueue) &&
                queuedResetStreamFrame == old(queuedResetStreamFrame)
                && reliableSize == old(reliableSize)
              else nextFrame == None && retransmissionQueue == [] &&
                   queuedResetStreamFrame == Some(ResetFrame(writeOffset, resetErr.value, 0))
    {
      hide CountOk, BooksOk, KnownFrames;
      if shutdownErr || (resetErr.Some? && ReliableOffset() == 0) {
        return;
      }
      Abandon(ResetFrame(writeOffset, if resetErr.Some? then resetErr.value else errorCode, 0), 0);
    }

    method CloseForShutdown()
      requires Valid()
      modifies this`shutdownErr, this`retransmissionQueue, this`nextFrame
      ensures Valid()
      ensures shutdownErr <==> old(shutdownErr) || !finishedWriting
      ensures if old(shutdownErr) || finishedWriting then nextFrame == old(nextFrame) &&
        retransmissionQueue == old(retransmissionQueue)
              else nextFrame == None && retransmissionQueue == []
    {
      hide CountOk, BooksOk, KnownFrames;
      if !shutdownErr && !finishedWriting {
        KnownLess(acked, retransmissionQueue, inFlight);
        DropBooks(accepted, writeOffset, nextFrame, dataForWriting, writing, finishedWriting, finSent, Known(), wire,
                  resetErr.Some?, shutdownErr, ReliableOffset(), KnownFrames(acked, [], inFlight), resetErr.Some?,
                    true);
        shutdownErr, retransmissionQueue, nextFrame := true, [], None;
      }
    }

    method GetControlFrame() returns (r: Option<ResetFrame>)
      requires Valid()
      modifies this`numOutstandingFrames, this`queuedResetStreamFrame, this`resets, this`resetAts
      ensures Valid() && r == old(queuedResetStreamFrame) && queuedResetStreamFrame == None
      ensures r.Some? && r.value.reliableSize == 0 ==>
        resets == old(resets) + multiset{r.value} && resetAts == old(resetAts)
      ensures r.Some? && r.value.reliableSize != 0 ==>
        resets == old(resets) && resetAts == old(resetAts) + multiset{r.value}
    {
      hide CountOk, BooksOk, KnownFrames, Settled, ReliableOffset;
      r := queuedResetStreamFrame;
      if r == None {
        return;
      }
      CountedNonNegative();
      CountControl(numOutstandingFrames, resetErr.Some?, ReliableOffset(), r.value, |inFlight|, resets, resetAts);
      var plain := if r.value.reliableSize == 0 then resets + multiset{r.value} else resets;
      var at := if r.value.reliableSize == 0 then resetAts else resetAts + multiset{r.value};
      SettleReset(numOutstandingFrames + 1, None, plain, at);
    }

    // ---------------------------------------------------------- acknowledgements and losses

    /** What remains of the counter once a frame in flight is acknowledged or lost. */
    function CountWithout(): int
      reads this`resetErr, this`supportsResetStreamAt, this`reliableSize, this`numOutstandingFrames
    {
      if resetErr.Some? && ReliableOffset() == 0 then numOutstandingFrames else numOutstandingFrames - 1
    }

    lemma SettledCount(f: StreamFrame)
      requires Valid() && f in inFlight
      ensures CountWithout() >= 0 && (completed ==> !Undisturbed())
      ensures CountOk(CountWithout(), resetErr.Some?, ReliableOffset(), queuedResetStreamFrame,
                      |inFlight - multiset{f}|, resets, resetAts)
    {
    }

    /** A frame is no longer in flight; counter and books already reflect that. */
    method Settle(left: int, queue: seq<StreamFrame>, ghost ackedNow: set<StreamFrame>, flying: multiset<StreamFrame>)
      requires reports == (if completed then 1 else 0)
      requires CountOk(left, resetErr.Some?, ReliableOffset(), queuedResetStreamFrame, |flying|, resets, resetAts)
      requires BooksOk(accepted, writeOffset, nextFrame, dataForWriting, writing, finishedWriting, finSent,
                       KnownFrames(ackedNow, queue, flying), wire, resetErr.Some?, shutdownErr, ReliableOffset())
      requires completed ==> !Undisturbed()
      modifies this`numOutstandingFrames, this`inFlight, this`retransmissionQueue, this`acked
      ensures Sound()
      ensures inFlight == flying && acked == ackedNow && retransmissionQueue == queue && numOutstandingFrames == left
    {
      hide CountOk, BooksOk, KnownFrames;
      numOutstandingFrames, retransmissionQueue := left, queue;
      inFlight, acked := flying, ackedNow;
    }

    /** An acknowledged frame; the counter never goes below zero. */
    method OnAcked(f: StreamFrame) returns (newly: bool)
      requires Valid() && f in inFlight
      modifies this`numOutstandingFrames, this`inFlight, this`retransmissionQueue, this`acked, this`completed,
               this`reports
      ensures Valid() && numOutstandingFrames >= 0
      ensures inFlight == old(inFlight) - multiset{f} && acked == old(acked) + {f}
      ensures retransmissionQueue == old(retransmissionQueue)
      ensures CompletionReported(newly, old(completed))
    {
      hide CountOk, BooksOk, KnownFrames, FullyAcked, ReliablyAcked, Noticed, Settled, Stranded;
      newly := false;
      SettleAcked(f);
      if !(resetErr.Some? && ReliableOffset() == 0) {
        newly := IsNewlyCompleted();
      }
    }

    method SettleAcked(f: StreamFrame)
      requires Valid() && f in inFlight
      modifies this`numOutstandingFrames, this`inFlight, this`retransmissionQueue, this`acked
      ensures Sound() && numOutstandingFrames == old(CountWithout()) >= 0
      ensures inFlight == old(inFlight) - multiset{f} && acked == old(acked) + {f}
      ensures retransmissionQueue == old(retransmissionQueue)
    {
      hide CountOk, BooksOk, KnownFrames, Noticed, Settled;
      KnownAcked(acked, retransmissionQueue, inFlight, f);
      SettledCount(f);
      Settle(CountWithout(), retransmissionQueue, acked + {f}, inFlight - multiset{f});
    }

    /** A lost frame is queued again, unless a reset made it (partly) pointless. */
    method OnLost(f: StreamFrame) returns (newly: bool)
      requires Valid() && f in inFlight
      modifies this`numOutstandingFrames, this`inFlight, this`retransmissionQueue, this`acked, this`completed,
               this`reports
      ensures Valid() && numOutstandingFrames >= 0
      ensures inFlight == old(inFlight) - multiset{f} && acked == old(acked)
      ensures retransmissionQueue == old(retransmissionQueue) +
        (if resetErr == None then [f] else if f.offset >= ReliableOffset() then [] else [Truncate(f, ReliableOffset())])
      ensures CompletionReported(newly, old(completed))
    {
      hide CountOk, BooksOk, KnownFrames, Truncate, FullyAcked, ReliablyAcked, Noticed, Settled, Stranded;
      newly := false;
      SettleLost(f);
      if resetErr.Some? && ReliableOffset() > 0 && f.offset >= ReliableOffset() {
        newly := IsNewlyCompleted();
      }
    }

    method SettleLost(f: StreamFrame)
      requires Valid() && f in inFlight
      modifies this`numOutstandingFrames, this`inFlight, this`retransmissionQueue, this`acked
      ensures Sound() && numOutstandingFrames == old(CountWithout()) >= 0
      ensures inFlight == old(inFlight) - multiset{f} && acked == old(acked)
      ensures retransmissionQueue == old(retransmissionQueue) +
        (if resetErr == None then [f] else if f.offset >= ReliableOffset() then [] else [Truncate(f, ReliableOffset())])
      ensures Valid() || (resetErr.Some? && ReliableOffset() > 0 && f.offset >= ReliableOffset())
    {
      hide CountOk, BooksOk, KnownFrames, Truncate, FullyAcked, ReliablyAcked, Settled, Stranded;
      var reliable := ReliableOffset();
      var again := if resetErr == None then [f]
                   else if f.offset >= reliable then []
                   else [Truncate(f, reliable)];
      LostBooks(f, again);
      SettledCount(f);
      Settle(CountWithout(), retransmissionQueue + again, acked, inFlight - multiset{f});
    }

    lemma LostBooks(f: StreamFrame, again: seq<StreamFrame>)
      requires Booked() && f in inFlight
      requires again == if resetErr == None then [f]
                        else if f.offset >= ReliableOffset() then []
                        else [Truncate(f, ReliableOffset())]
      ensures BooksOk(accepted, writeOffset, nextFrame, dataForWriting, writing, finishedWriting, finSent,
                      KnownFrames(acked, retransmissionQueue + again, inFlight - multiset{f}), wire,
                      resetErr.Some?, shutdownErr, ReliableOffset())
    {
      hide BooksOk, KnownFrames, Truncate;
      if resetErr == None {
        KnownLost(acked, retransmissionQueue, inFlight, f);
      } else {
        BooksSmall();
        KnownTruncated(acked, retransmissionQueue, inFlight, f, again, ReliableOffset());
        LossBooks(accepted, writeOffset, nextFrame, dataForWriting, writing, finishedWriting, finSent, Known(), wire,
                  shutdownErr, ReliableOffset(),
                    KnownFrames(acked, retransmissionQueue + again, inFlight - multiset{f}));
      }
    }

    lemma BooksSmall()
      requires Booked()
      ensures AllSmall(Known())
    {
    }

    function CountWithoutReset(r: ResetFrame): int
      reads this`supportsResetStreamAt, this`reliableSize, this`numOutstandingFrames
    {
      if r.reliableSize == ReliableOffset() then numOutstandingFrames - 1 else numOutstandingFrames
    }

    lemma SettledReset(r: ResetFrame, queued: Option<ResetFrame>)
      requires Valid() && (r in resets || r in resetAts)
      requires queued == queuedResetStreamFrame || (queued == Some(r) && r.reliableSize == ReliableOffset())
      ensures CountWithoutReset(r) >= 0
      ensures CountOk(CountWithoutReset(r), resetErr.Some?, ReliableOffset(), queued, |inFlight|,
                      if r.reliableSize == 0 then resets - multiset{r} else resets,
                      if r.reliableSize == 0 then resetAts else resetAts - multiset{r})
    {
      hide CountOk, BooksOk;
      CountResetFrame(numOutstandingFrames, resetErr.Some?, ReliableOffset(), queuedResetStreamFrame, |inFlight|,
                      resets, resetAts,
                      r, queued, CountWithoutReset(r),
                      if r.reliableSize == 0 then resets - multiset{r} else resets,
                      if r.reliableSize == 0 then resetAts else resetAts - multiset{r});
    }

    /** A reset frame was sent, acknowledged or lost; the counter already reflects that. */
    method SettleReset(left: int, queued: Option<ResetFrame>, plain: multiset<ResetFrame>, at: multiset<ResetFrame>)
      requires Valid()
      requires CountOk(left, resetErr.Some?, ReliableOffset(), queued, |inFlight|, plain, at)
      modifies this`numOutstandingFrames, this`resets, this`resetAts, this`queuedResetStreamFrame
      ensures Sound() && queuedResetStreamFrame == queued && numOutstandingFrames == left && resets == plain &&
        resetAts == at
    {
      hide CountOk, BooksOk, KnownFrames, Settled;
      numOutstandingFrames, queuedResetStreamFrame := left, queued;
      resets, resetAts := plain, at;
    }

    lemma ResetKind(r: ResetFrame)
      requires Valid()
      ensures (r in resets ==> r.reliableSize == 0) && (r in resetAts ==> r.reliableSize != 0)
    {
    }

    /** An acknowledged reset; one that STOP_SENDING made obsolete is ignored. */
    method ResetOnAcked(r: ResetFrame) returns (newly: bool)
      requires Valid() && (r in resets || r in resetAts)
      modifies this`numOutstandingFrames, this`resets, this`resetAts, this`queuedResetStreamFrame, this`completed,
               this`reports
      ensures Valid() && numOutstandingFrames >= 0
      ensures queuedResetStreamFrame == old(queuedResetStreamFrame)
      ensures resets == (if r.reliableSize == 0 then old(resets) - multiset{r} else old(resets))
      ensures resetAts == (if r.reliableSize == 0 then old(resetAts) else old(resetAts) - multiset{r})
      ensures CompletionReported(newly, old(completed))
    {
      hide CountOk, BooksOk, KnownFrames, FullyAcked, ReliablyAcked, Settled, Stranded;
      newly := false;
      SettledReset(r, queuedResetStreamFrame);
      SettleReset(CountWithoutReset(r), queuedResetStreamFrame,
                  if r.reliableSize == 0 then resets - multiset{r} else resets,
                  if r.reliableSize == 0 then resetAts else resetAts - multiset{r});
      if r.reliableSize == ReliableOffset() {
        newly := IsNewlyCompleted();
      }
    }

    /** A lost reset is queued again, unless it is obsolete. */
    method ResetOnLost(r: ResetFrame)
      requires Valid() && (r in resets || r in resetAts)
      modifies this`numOutstandingFrames, this`resets, this`resetAts, this`queuedResetStreamFrame
      ensures Valid() && numOutstandingFrames >= 0
      ensures queuedResetStreamFrame == if r.reliableSize == ReliableOffset() then Some(r)
        else old(queuedResetStreamFrame)
      ensures resets == (if r.reliableSize == 0 then old(resets) - multiset{r} else old(resets))
      ensures resetAts == (if r.reliableSize == 0 then old(resetAts) else old(resetAts) - multiset{r})
    {
      hide CountOk, BooksOk, KnownFrames, FullyAcked, ReliablyAcked, Settled, Stranded, CompletionReported;
      var queued := if r.reliableSize == ReliableOffset() then Some(r) else queuedResetStreamFrame;
      SettledReset(r, queued);
      SettleReset(CountWithoutReset(r), queued,
                  if r.reliableSize == 0 then resets - multiset{r} else resets,
                  if r.reliableSize == 0 then resetAts else resetAts - multiset{r});
    }
  }

  // ------------------------------------------------------------ every run

  datatype Step =
    | WriteStep(p: seq<byte>)
    | WritePassStep
    | WriteTimeoutStep
    | PopStep(maxBytes: nat, window: nat)
    | CloseStep
    | BoundaryStep
    | EnableResetAtStep
    | CancelWriteStep(code: nat)
    | StopSendingStep(code: nat)
    | ControlFrameStep
    | AckStep(f: StreamFrame)
    | LossStep(f: StreamFrame)
    | AckResetStep(r: ResetFrame)
    | LossResetStep(r: ResetFrame)
    | ShutdownStep

  /** A call by the application, if it is allowed now; returns whether completion was reported. */
  method TakeAppStep(s: SendStream, step: Step) returns (newly: bool)
    requires s.Valid()
    modifies s
    ensures s.Valid() && s.CompletionReported(newly, old(s.completed))
    ensures old(s.Stranded()) && step != ShutdownStep ==> s.Stranded() && s.ReliableOffset() == old(s.ReliableOffset())
  {
    hide s.Valid, s.FullyAcked, s.ReliablyAcked;
    newly := false;
    match step {
      case WriteStep(p) =>
        if s.writing == None { var n; n, newly := s.StartWrite(p); }
      case WritePassStep =>
        if s.writing.Some? { var n; n, newly := s.WritePass(s.writing.value.total); }
      case WriteTimeoutStep =>
        if s.writing.Some? && !(s.CanBufferStreamFrame() && |Bytes(s.dataForWriting)| > 0) {
          var n := s.WriteTimeout(s.writing.value.total);
        }
      case CloseStep =>
        if s.writing == None { newly := s.Close(); }
      case BoundaryStep =>
        if s.resetErr == None { s.SetReliableBoundary(); }
      case EnableResetAtStep =>
        if s.resetErr == None { s.EnableResetStreamAt(); }
      case CancelWriteStep(code) => newly := s.CancelWrite(code);
      case ShutdownStep => s.CloseForShutdown();
      case _ =>
    }
  }

  /** A packet built, or STOP_SENDING received. */
  method TakeNetworkStep(s: SendStream, step: Step) returns (newly: bool)
    requires s.Valid()
    modifies s
    ensures s.Valid() && s.CompletionReported(newly, old(s.completed))
    ensures old(s.Stranded() && (s.ReliableOffset() == 0 || !step.StopSendingStep?)) ==>
      s.Stranded() && s.ReliableOffset() == old(s.ReliableOffset())
  {
    hide s.Valid, s.FullyAcked, s.ReliablyAcked, FrameLength, s.CanSend, s.LeftToSend;
    newly := false;
    match step {
      case PopStep(maxBytes, window) =>
        if maxBytes <= MAX_PACKET_BUFFER_SIZE { var f, more := s.PopStreamFrame(maxBytes, window); }
      case StopSendingStep(code) => s.HandleStopSendingFrame(code);
      case ControlFrameStep => var r := s.GetControlFrame();
      case _ =>
    }
  }

  /** A frame acknowledged or lost. */
  method TakeFeedbackStep(s: SendStream, step: Step) returns (newly: bool)
    requires s.Valid()
    modifies s`numOutstandingFrames, s`inFlight, s`retransmissionQueue, s`acked, s`completed, s`reports, s`resets,
             s`resetAts, s`queuedResetStreamFrame
    ensures s.Valid() && s.CompletionReported(newly, old(s.completed))
  {
    hide s.Valid, s.FullyAcked, s.ReliablyAcked, s.Stranded;
    newly := false;
    match step {
      case AckStep(f) =>
        if f in s.inFlight { newly := s.OnAcked(f); }
      case LossStep(f) =>
        if f in s.inFlight { newly := s.OnLost(f); }
      case AckResetStep(r) =>
        if r in s.resets || r in s.resetAts { newly := s.ResetOnAcked(r); }
      case LossResetStep(r) =>
        if r in s.resets || r in s.resetAts { s.ResetOnLost(r); }
      case _ =>
    }
  }

  predicate Feedback(step: Step) {
    step.AckStep? || step.LossStep? || step.AckResetStep? || step.LossResetStep?
  }

  /** Steps that give a stranded stream no way out. */
  ghost predicate StaysStranded(reliable: nat, steps: seq<Step>) {
    forall step :: step in steps ==> step != ShutdownStep && (reliable == 0 || !step.StopSendingStep?)
  }

  /**
   In every interleaving of writes, frames, acknowledgements, losses, CancelWrite, STOP_SENDING
   and shutdown, the outstanding-frame counter stays non-negative and completion is reported
   at most once; without a reset or shutdown it has been reported if and only if every accepted
   byte and the FIN are acknowledged and nothing is outstanding. A stranded stream never completes,
   unless STOP_SENDING makes it drop a reliable part.
   */
  method RunSteps(s: SendStream, steps: seq<Step>) returns (reported: nat)
    requires s.Valid() && !s.completed
    modifies s
    ensures s.Valid() && s.numOutstandingFrames >= 0
    ensures reported <= 1 && (reported == 1 <==> s.completed)
    ensures s.Undisturbed() ==> (s.completed <==> s.Finished())
    ensures old(s.Stranded()) && StaysStranded(old(s.ReliableOffset()), steps) ==> s.Stranded() && reported == 0
  {
    hide CountOk, BooksOk, KnownFrames, Noticed, Settled, s.Finished, s.FullyAcked, s.ReliablyAcked, s.Stranded,
      Feedback;
    reported := 0;
    s.CountedNonNegative();
    for i := 0 to |steps|
      invariant s.Valid() && s.numOutstandingFrames >= 0
      invariant reported == if s.completed then 1 else 0
      invariant old(s.Stranded()) && StaysStranded(old(s.ReliableOffset()), steps) ==>
        s.Stranded() && s.ReliableOffset() == old(s.ReliableOffset()) && reported == 0
    {
      var step, newly := steps[i], false;
      assert step in steps;
      if Feedback(step) {
        newly := TakeFeedbackStep(s, step);
      } else if step.PopStep? || step.StopSendingStep? || step.ControlFrameStep? {
        newly := TakeNetworkStep(s, step);
      } else {
        newly := TakeAppStep(s, step);
      }
      s.CountedNonNegative();
      if newly { reported := reported + 1; }
    }
    if s.Undisturbed() { s.CompletedIffFinished(); }
  }

  // ------------------------------------------------------------ when a reset stream completes

  /** Everything that may still be sent goes out. */
  method SendRest(s: SendStream)
    requires s.Valid() && s.resetErr.Some? && !s.shutdownErr && !s.Stranded()
    requires s.ReliableOffset() == 0 ==> s.retransmissionQueue == []
    modifies s`nextFrame, s`dataForWriting, s`writeOffset, s`finSent, s`numOutstandingFrames, s`inFlight, s`wire,
             s`retransmissionQueue
    ensures s.Valid() && s.retransmissionQueue == [] && Payload(s.nextFrame) == []
    ensures old(s.writeOffset + |Payload(s.nextFrame)|) <= s.writeOffset
  {
    hide s.Valid, LengthWith, Work, s.HeadFits, s.LeftToSend;
    var more := true;
    while more
      invariant s.Valid() && !s.Stranded()
      invariant old(s.writeOffset + |Payload(s.nextFrame)|) <= s.writeOffset + |Payload(s.nextFrame)|
      invariant s.ReliableOffset() == 0 ==> s.retransmissionQueue == []
      invariant !more ==> !s.CanSend(MAX_PACKET_BUFFER_SIZE, MAX_PACKET_BUFFER_SIZE)
      decreases s.LeftToSend(), more
    {
      var f, _ := s.PopStreamFrame(MAX_PACKET_BUFFER_SIZE, MAX_PACKET_BUFFER_SIZE);
      more := f.Some?;
    }
    s.NothingElseLeft();
  }

  /** Everything in flight is acknowledged. */
  method AcknowledgeFrames(s: SendStream)
    requires s.Valid()
    modifies s`numOutstandingFrames, s`inFlight, s`retransmissionQueue, s`acked, s`completed, s`reports
    ensures s.Valid() && s.inFlight == multiset{} && s.retransmissionQueue == old(s.retransmissionQueue)
  {
    hide s.Valid, s.CompletionReported, s.Stranded;
    while s.inFlight != multiset{}
      invariant s.Valid() && s.retransmissionQueue == old(s.retransmissionQueue)
      decreases |s.inFlight|
    {
      var f :| f in s.inFlight;
      var newly := s.OnAcked(f);
    }
  }

  /** The reset frame is sent, and all reset frames are acknowledged. */
  method AcknowledgeResets(s: SendStream)
    requires s.Valid()
    modifies s`numOutstandingFrames, s`completed, s`reports, s`resets, s`resetAts, s`queuedResetStreamFrame
    ensures s.Valid() && s.queuedResetStreamFrame == None && s.resets == multiset{} && s.resetAts == multiset{}
  {
    hide s.Valid, s.CompletionReported, s.Stranded;
    var r := s.GetControlFrame();
    while s.resets != multiset{} || s.resetAts != multiset{}
      invariant s.Valid() && s.queuedResetStreamFrame == None
      decreases |s.resets| + |s.resetAts|
    {
      var a :| a in s.resets || a in s.resetAts;
      s.ResetKind(a);
      var newly := s.ResetOnAcked(a);
    }
  }

  /**
   A reset stream that is not stranded completes once everything is sent and acknowledged, and then every byte
   of the reliable part that was sent or buffered has been acknowledged.
   */
  method RunToCompletion(s: SendStream)
    requires s.Valid() && s.resetErr.Some? && !s.shutdownErr && !s.Stranded() &&
      (s.cancellationFlagged || s.finishedWriting)
    requires s.ReliableOffset() == 0 ==> s.retransmissionQueue == []
    modifies s
    ensures s.Valid() && s.completed
    ensures CoversUpTo(s.acked, old(Min(s.writeOffset + |Payload(s.nextFrame)|, s.ReliableOffset())))
  {
    hide s.Valid, s.Stranded, CoversUpTo;
    ghost var n := Min(s.writeOffset + |Payload(s.nextFrame)|, s.ReliableOffset());
    SendRest(s);
    AcknowledgeFrames(s);
    AcknowledgeResets(s);
    s.ResetIsOver();
    FewerBytes(s.acked, Min(s.writeOffset, s.ReliableOffset()), n);
  }

  /**
   A Write waits whose remainder, together with what a reset with this reliable size leaves in the buffered
   frame, fits into one frame and goes beyond the reliable size.
   */
  predicate WouldStrand(s: SendStream, reliable: nat)
    reads s
  {
    && s.writing.Some?
    && var kept, rest := |Payload(CutAt(s.nextFrame, reliable))|, |Bytes(s.dataForWriting)|;
    && 0 < rest && kept + rest <= MAX_PACKET_BUFFER_SIZE && s.writeOffset + kept + rest > reliable
  }

  /**
   CancelWrite, a waiting Write that wakes up, and everything sent and acknowledged. The stream completes if
   and only if no Write was waiting with a short remainder: such a Write buffers its remainder after the
   reset, reports success, and leaves the stream stranded. A completed stream has its whole reliable part
   acknowledged.
   */
  method CancelAndSettle(s: SendStream, code: nat) returns (written: Option<nat>)
    requires s.Valid() && s.Undisturbed() && !s.completed
    modifies s
    ensures s.Valid()
    ensures s.completed <==> !old(WouldStrand(s, s.ReliableOffset()))
    ensures s.completed ==> CoversUpTo(s.acked, old(Min(s.writeOffset + |Payload(s.nextFrame)|, s.ReliableOffset())))
    ensures old(WouldStrand(s, s.ReliableOffset())) ==> s.Stranded() && written == Some(old(s.writing).value.total)
  {
    hide s.Valid, s.FullyAcked, s.ReliablyAcked, TruncateAll, Truncate, CoversUpTo;
    written := None;
    ghost var n := Min(s.writeOffset + |Payload(s.nextFrame)|, s.ReliableOffset());
    var strands := WouldStrand(s, s.ReliableOffset());
    s.BufferedAtOffset();
    CutEnds(s.nextFrame, s.ReliableOffset());
    var newly := s.CancelWrite(code);
    if s.writing.Some? { written, newly := s.WritePass(s.writing.value.total); }
    if !strands {
      ghost var m := Min(s.writeOffset + |Payload(s.nextFrame)|, s.ReliableOffset());
      RunToCompletion(s);
      FewerBytes(s.acked, m, n);
    }
  }

  lemma CutEnds(next: Option<StreamFrame>, limit: nat)
    ensures var cut := CutAt(next, limit);
      && (cut.Some? ==> cut.value.offset == next.value.offset && cut.value.offset + |Payload(cut)| <= limit)
      && (next.Some? ==> Min(next.value.offset + |Payload(next)|, limit) <= next.value.offset + |Payload(cut)|)
  {
  }

  /**
   The same for STOP_SENDING, also after a CancelWrite that kept a reliable part, when the application takes
   note of it: here any waiting remainder that fits into a frame strands the stream.
   */
  method StopAndSettle(s: SendStream, code: nat) returns (written: Option<nat>)
    requires s.Valid() && !s.shutdownErr && (s.resetErr == None || s.ReliableOffset() > 0) && !s.completed
    modifies s
    ensures s.Valid()
    ensures s.completed <==> !old(WouldStrand(s, 0))
    ensures old(WouldStrand(s, 0)) ==> s.Stranded() && written == Some(old(s.writing).value.total)
  {
    hide s.Valid, s.FullyAcked, s.ReliablyAcked, Truncate;
    written := None;
    var strands := WouldStrand(s, 0);
    s.HandleStopSendingFrame(code);
    var newly;
    if s.writing.Some? { written, newly := s.WritePass(s.writing.value.total); }
    newly := s.CancelWrite(code);
    if !strands { RunToCompletion(s); }
  }

  // ------------------------------------------------------------ that it happens

  /** A fresh stream on which a Write comes to wait behind a frame that is not full, with or without a boundary. */
  method WaitBehindFrame(reliable: bool) returns (s: SendStream)
    ensures fresh(s) && s.Valid() && s.Undisturbed() && !s.completed && s.Waits(seq(1000, _ => 0))
    ensures s.ReliableOffset() == if reliable then 100 else 0
    ensures WouldStrand(s, s.ReliableOffset()) && WouldStrand(s, 0)
  {
    hide s.Valid, s.FullyAcked, s.ReliablyAcked;
    s := new SendStream(0, true);
    var written, newly := s.StartWrite(seq(100, _ => 0));
    if reliable { s.SetReliableBoundary(); }
    written, newly := s.StartWrite(seq(1000, _ => 0));
    written, newly := s.StartWrite(seq(1000, _ => 0));
    s.BufferedAtOffset();
  }

  /** Both ways of resetting it leave it stranded, although the Write reports all its bytes. */
  method StrandedRun(reliable: bool, stopped: bool) returns (s: SendStream, written: Option<nat>)
    ensures fresh(s) && s.Valid() && s.Stranded() && !s.completed && written == Some(1000)
  {
    hide s.Valid;
    s := WaitBehindFrame(reliable);
    if stopped { written := StopAndSettle(s, 0); } else { written := CancelAndSettle(s, 0); }
  }
}
