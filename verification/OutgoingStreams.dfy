/**
 deps/quic-go/streams_map_outgoing.go: the map of outgoing streams as an object. Each method is one
 critical section and performs exactly one step of OutgoingSpec. Channels and the program counters
 of the waiting calls live in `waiters`.
 */
module OutgoingStreamsObject {
  import opened Protocol
  import opened OutgoingSpec

  class OutgoingStreamsMap {
    ghost const first: nat
    var streams: set<int>
    var openQueue: seq<nat>
    var waiters: seq<Waiter>
    var nextStream: int
    var maxStream: int
    var blockedSent: bool
    /** The limits for which a STREAMS_BLOCKED frame was queued. */
    var blockedFrames: seq<int>
    var closed: bool
    /** Which streams were opened, and by which waiting call. */
    var openings: seq<Opening>

    ghost function Model(): Streams
      reads this
    {
      Streams(nextStream, maxStream, openQueue, waiters, closed, false, openings)
    }

    /** Being blocked is reported at most once for each limit. */
    ghost predicate Reported()
      reads this
    {
      && (forall i, j :: 0 <= i < j < |blockedFrames| ==> blockedFrames[i] < blockedFrames[j])
      && (forall i :: 0 <= i < |blockedFrames| ==> blockedFrames[i] <= maxStream)
      && (blockedSent <==> blockedFrames != [] && blockedFrames[|blockedFrames| - 1] == maxStream)
    }

    ghost predicate Valid()
      reads this
    {
      Inv(Model(), first) && Reported() && forall id :: id in streams ==> id < nextStream
    }

    constructor (first: nat)
      ensures Valid() && this.first == first && Model() == Begin(first) && blockedFrames == [] && streams == {}
    {
      this.first, streams, openQueue, waiters := first, {}, [], [];
      nextStream, maxStream, blockedSent, blockedFrames := first, INVALID_BYTE_COUNT, false, [];
      closed, openings := false, [];
    }

    // ---------------------------------------------------------- parts of critical sections

    method OpenOneStream(waiter: Option<nat>) returns (id: int)
      modifies this`streams, this`nextStream, this`openings
      ensures id == old(nextStream) && streams == old(streams) + {id}
      ensures Model() == OpenOne(old(Model()), waiter)
    {
      id := nextStream;
      streams := streams + {id};
      nextStream := nextStream + 4;
      openings := openings + [Opening(id, waiter)];
    }

    method MaybeSendBlockedFrame()
      requires (forall i, j :: 0 <= i < j < |blockedFrames| ==> blockedFrames[i] < blockedFrames[j])
      requires (forall i :: 0 <= i < |blockedFrames| ==> blockedFrames[i] <= maxStream)
      requires (blockedSent <==> blockedFrames != [] && blockedFrames[|blockedFrames| - 1] == maxStream)
      modifies this`blockedSent, this`blockedFrames
      ensures Reported() && blockedSent
      ensures blockedFrames == old(blockedFrames) + if old(blockedSent) then [] else [maxStream]
    {
      if blockedSent { return; }
      blockedFrames := blockedFrames + [maxStream];
      blockedSent := true;
    }

    /** A send on a full channel is skipped; a send on a closed one, which would panic, does not occur. */
    method MaybeUnblockOpenSync()
      requires InvAsleep(Model(), first)
      modifies this`waiters
      ensures Model() == Unblock(old(Model())) && Inv(Model(), first)
    {
      UnblockWakes(Model(), first);
      if |openQueue| == 0 || nextStream > maxStream { return; }
      var w := openQueue[0];
      assert w in openQueue;
      if !waiters[w].token {
        waiters := waiters[w := waiters[w].(token := true)];
      }
    }

    method DeleteFromQueue(w: nat)
      modifies this`openQueue
      ensures openQueue == Remove(old(openQueue), w)
    {
      hide Remove;
      var kept: seq<nat> := [];
      for i := 0 to |openQueue|
        invariant openQueue == old(openQueue)
        invariant kept + Remove(openQueue[i..], w) == Remove(openQueue, w)
      {
        RemoveStep(openQueue, i, w);
        if openQueue[i] != w { kept := kept + [openQueue[i]]; }
      }
      RemoveNone(w);
      assert openQueue[|openQueue|..] == [] && kept + [] == kept;
      openQueue := kept;
    }

    static lemma RemoveStep(queue: seq<nat>, i: nat, w: nat)
      requires i < |queue|
      ensures Remove(queue[i..], w) == (if queue[i] == w then [] else [queue[i]]) + Remove(queue[i + 1..], w)
    {
      assert queue[i..][1..] == queue[i + 1..];
    }

    // ---------------------------------------------------------- critical sections

    method OpenStream() returns (id: Option<int>)
      requires Valid()
      modifies this
      ensures Valid() && Model() == Step(old(Model()), Open)
      ensures id.Some? <==> !old(closed) && old(openQueue) == [] && old(nextStream) <= old(maxStream)
      ensures id.Some? ==> id.value == old(nextStream) && id.value !in old(streams) && id.value in streams
      ensures blockedFrames == old(blockedFrames) + if old(closed) || id.Some? || old(blockedSent) then []
        else [maxStream]
    {
      hide Inv;
      StepKeepsInv(Model(), Open, first);
      if closed { return None; }
      if |openQueue| > 0 || nextStream > maxStream {
        MaybeSendBlockedFrame();
        return None;
      }
      var n := OpenOneStream(None);
      return Some(n);
    }

    /** OpenStreamSync up to the point where it returns or begins to wait. */
    method BeginOpenSync(expired: bool) returns (id: Option<int>, waiter: Option<nat>)
      requires Valid()
      modifies this
      ensures Valid() && Model() == Step(old(Model()), OpenSync(expired))
      ensures id.Some? ==> id.value == old(nextStream) && old(openQueue) == [] && id.value !in old(streams)
      ensures waiter.Some? ==> waiter.value == old(|waiters|) && openQueue == old(openQueue) + [waiter.value]
      ensures id == None && waiter == None <==> old(closed) || expired
      ensures id == None || waiter == None
      ensures blockedFrames == old(blockedFrames) + if waiter == None || old(blockedSent) then [] else [maxStream]
    {
      hide Inv;
      StepKeepsInv(Model(), OpenSync(expired), first);
      id, waiter := None, None;
      if closed || expired { return; }
      if |openQueue| == 0 && nextStream <= maxStream {
        var n := OpenOneStream(None);
        return Some(n), None;
      }
      waiter := Some(|waiters|);
      waiters := waiters + [Waiter(Waiting, false, false, false, |openings|)];
      openQueue := openQueue + [waiter.value];
      MaybeSendBlockedFrame();
    }

    method LeaveQueue(w: nat)
      requires Valid() && w < |waiters| && Alive(waiters[w])
      modifies this`waiters, this`openQueue
      ensures Valid() && Model() == Leave(old(Model()), w)
    {
      hide Inv, InvAsleep, Unblock;
      DropKeepsAsleep(Model(), w, first);
      DeleteFromQueue(w);
      waiters := waiters[w := waiters[w].(phase := Failed)];
      MaybeUnblockOpenSync();
    }

    /** OpenStreamSync once it has received from its channel and has the lock again. */
    method ResumeOpenSync(w: nat) returns (id: Option<int>, again: bool)
      requires Valid() && w < |waiters| && waiters[w].phase == Woken
      modifies this
      ensures Valid() && Model() == Step(old(Model()), Resume(w))
      ensures id.Some? <==> !old(closed) && !old(waiters[w]).cancelled && old(nextStream) <= old(maxStream)
      ensures id.Some? ==> id.value == old(nextStream) <= maxStream && old(openQueue) != [] && old(openQueue)[0] == w
      ensures again <==> !old(closed) && !old(waiters[w]).cancelled && old(nextStream) > old(maxStream)
    {
      hide Inv, Unblock, Queued, TokenAtHead, HeadAwake, NoOvertaking, WithinLimit;
      StepKeepsInv(Model(), Resume(w), first);
      id, again := None, false;
      if closed {
        waiters := waiters[w := waiters[w].(phase := Failed)];
      } else if waiters[w].cancelled {
        LeaveQueue(w);
      } else if nextStream > maxStream {
        waiters := waiters[w := waiters[w].(phase := Waiting)];
        again := true;
      } else {
        ServedAsleep(Model(), w, first);
        var n := OpenOneStream(Some(w));
        openQueue := openQueue[1..];
        waiters := waiters[w := waiters[w].(phase := Served)];
        MaybeUnblockOpenSync();
        id := Some(n);
      }
    }

    static lemma ServedAsleep(s: Streams, w: nat, first: int)
      requires Inv(s, first) && !s.closed && w < |s.waiters| && s.waiters[w].phase == Woken && s.next <= s.max
      ensures s.queue != [] && s.queue[0] == w && InvAsleep(Serve(s, w), first)
    {
      hide NoOvertaking;
      ServeQueued(s, w);
      ServeOrder(s, w);
    }

    /** OpenStreamSync once it has seen that its context is over and has the lock again. */
    method CancelOpenSync(w: nat)
      requires Valid() && w < |waiters| && waiters[w].phase == Cancelling
      modifies this`waiters, this`openQueue
      ensures Valid() && Model() == Step(old(Model()), GiveUp(w)) && w !in openQueue
    {
      assert Increasing(openQueue);
      RemoveOne(openQueue, w);
      hide Inv, Unblock;
      LeaveQueue(w);
    }

    method SetMaxStream(id: int)
      requires Valid()
      modifies this
      ensures Valid() && Model() == Step(old(Model()), SetMax(id))
      ensures maxStream == Max(old(maxStream), id)
      ensures streams == old(streams) && openings == old(openings) && openQueue == old(openQueue) &&
        closed == old(closed)
      ensures blockedFrames == old(blockedFrames) +
        if id > old(maxStream) && id < nextStream + 4 * (|openQueue| - 1) then [id] else []
    {
      hide Inv, InvAsleep, Unblock;
      if id <= maxStream { return; }
      RaisedAsleep(Model(), id, first);
      maxStream := id;
      blockedSent := false;
      if maxStream < nextStream - 4 + 4 * |openQueue| {
        MaybeSendBlockedFrame();
      }
      MaybeUnblockOpenSync();
    }

    static lemma RaisedAsleep(s: Streams, id: int, first: int)
      requires Inv(s, first) && id > s.max
      ensures InvAsleep(s.(max := id), first)
    {
    }

    method DeleteStream(id: int) returns (ok: bool)
      requires Valid()
      modifies this`streams
      ensures Valid() && ok == (id in old(streams)) && streams == old(streams) - {id}
    {
      if id !in streams { return false; }
      streams := streams - {id};
      return true;
    }

    /** Streams that were never opened are refused. */
    method GetStream(id: int) returns (open: bool, refused: bool)
      requires Valid()
      ensures refused <==> id >= nextStream
      ensures open <==> id in streams
    {
      if id >= nextStream { return false, true; }
      return id in streams, false;
    }

    method CloseQueuedChannels()
      requires forall w :: w in openQueue ==> w < |waiters|
      modifies this`waiters
      ensures waiters == CloseChannels(old(waiters), openQueue)
    {
      ghost var before := waiters;
      for i := 0 to |openQueue|
        invariant |waiters| == |before|
        invariant forall w :: 0 <= w < |waiters| ==>
          waiters[w] == if w in openQueue[..i] then before[w].(channelClosed := true) else before[w]
      {
        var w := openQueue[i];
        assert w in openQueue;
        assert openQueue[..i + 1] == openQueue[..i] + [w];
        waiters := waiters[w := waiters[w].(channelClosed := true)];
      }
      assert openQueue[..|openQueue|] == openQueue;
    }

    method CloseWithError()
      requires Valid()
      modifies this
      ensures Valid() && Model() == Step(old(Model()), Close)
      ensures closed && openQueue == [] && openings == old(openings) && |waiters| == |old(waiters)|
      ensures forall w :: 0 <= w < |waiters| ==>
        waiters[w] == if w in old(openQueue) then old(waiters)[w].(channelClosed := true) else old(waiters)[w]
      ensures streams == old(streams) && blockedFrames == old(blockedFrames)
    {
      hide Inv, CloseChannels;
      StepKeepsInv(Model(), Close, first);
      QueueKnown(Model(), first);
      closed := true;
      CloseQueuedChannels();
      openQueue := [];
    }

    static lemma QueueKnown(s: Streams, first: int)
      requires Inv(s, first)
      ensures forall w :: w in s.queue ==> w < |s.waiters| && !s.waiters[w].channelClosed
    {
    }
  }
}
