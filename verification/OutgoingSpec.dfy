/**
 deps/quic-go/streams_map_outgoing.go as a step system: every critical section, every channel
 receive and every context cancellation is one step, and steps of different goroutines
 interleave arbitrarily.
 */
module OutgoingSpec {
  import opened Protocol

  /**
   Where an OpenStreamSync call is: waiting in its select, woken by its channel or by its context but
   without the lock yet, or returned.
   */
  datatype Phase = Waiting | Woken | Cancelling | Served | Failed

  /**
   token: the channel's one-element buffer is full. since: how many streams had been opened when the
   call began to wait.
   */
  datatype Waiter = Waiter(phase: Phase, token: bool, channelClosed: bool, cancelled: bool, since: nat)

  datatype Opening = Opening(id: int, waiter: Option<nat>)

  /** A waiter's number is its place in the order of arrival. queue holds the numbers of those waiting. */
  datatype Streams = Streams(
    next: int, max: int, queue: seq<nat>, waiters: seq<Waiter>,
    closed: bool, panicked: bool, openings: seq<Opening>)

  datatype Action =
    | Open
    | OpenSync(expired: bool)
    | ExpireContext(w: nat)
    | TakeToken(w: nat)
    | NoticeExpiry(w: nat)
    | Resume(w: nat)
    | GiveUp(w: nat)
    | SetMax(id: int)
    | Close

  function Begin(first: int): Streams {
    Streams(first, INVALID_BYTE_COUNT, [], [], false, false, [])
  }

  predicate Alive(w: Waiter) { w.phase in {Waiting, Woken, Cancelling} }

  // ------------------------------------------------------------ the critical sections

  function OpenOne(s: Streams, waiter: Option<nat>): Streams {
    s.(next := s.next + 4, openings := s.openings + [Opening(s.next, waiter)])
  }

  function SetPhase(s: Streams, w: nat, phase: Phase): Streams
    requires w < |s.waiters|
  {
    s.(waiters := s.waiters[w := s.waiters[w].(phase := phase)])
  }

  /** Puts a token into the first channel unless it holds one; sending on a closed channel panics. */
  function Unblock(s: Streams): Streams {
    if s.queue == [] || s.next > s.max || s.queue[0] >= |s.waiters| then s
    else
      var w := s.waiters[s.queue[0]];
      if w.channelClosed then s.(panicked := true)
      else s.(waiters := s.waiters[s.queue[0] := w.(token := true)])
  }

  function Remove(queue: seq<nat>, w: nat): seq<nat> {
    if queue == [] then []
    else (if queue[0] == w then [] else [queue[0]]) + Remove(queue[1..], w)
  }

  /** A waiter that gives up and leaves the queue. */
  function Drop(s: Streams, w: nat): Streams
    requires w < |s.waiters|
  {
    SetPhase(s, w, Failed).(queue := Remove(s.queue, w))
  }

  /** Leaves the queue because of its context, passing on what it might have been woken for. */
  function Leave(s: Streams, w: nat): Streams
    requires w < |s.waiters|
  {
    Unblock(Drop(s, w))
  }

  /** Opens a stream for w and drops the head of the queue. */
  function Serve(s: Streams, w: nat): Streams
    requires w < |s.waiters| && s.queue != []
  {
    SetPhase(OpenOne(s, Some(w)), w, Served).(queue := s.queue[1..])
  }

  /** What OpenStreamSync does with the lock after it was woken. */
  function AfterWakeup(s: Streams, w: nat): Streams
    requires w < |s.waiters|
  {
    if s.closed then SetPhase(s, w, Failed)
    else if s.waiters[w].cancelled then Leave(s, w)
    else if s.next > s.max then SetPhase(s, w, Waiting)
    else if s.queue == [] then s.(panicked := true)
    else Unblock(Serve(s, w))
  }

  function BeginSync(s: Streams, expired: bool): Streams {
    if s.closed || expired then s
    else if s.queue == [] && s.next <= s.max then OpenOne(s, None)
    else s.(waiters := s.waiters + [Waiter(Waiting, false, false, false, |s.openings|)],
            queue := s.queue + [|s.waiters|])
  }

  function CloseChannels(waiters: seq<Waiter>, queue: seq<nat>): (r: seq<Waiter>)
    ensures |r| == |waiters|
    ensures forall w :: 0 <= w < |r| ==>
      r[w] == if w in queue then waiters[w].(channelClosed := true) else waiters[w]
  {
    seq(|waiters|,
        w requires 0 <= w < |waiters| => if w in queue then waiters[w].(channelClosed := true) else waiters[w])
  }

  function CloseAll(s: Streams): Streams {
    var again := exists w :: w in s.queue && w < |s.waiters| && s.waiters[w].channelClosed;
    s.(closed := true, queue := [], waiters := CloseChannels(s.waiters, s.queue), panicked := s.panicked || again)
  }

  /** One step; a step that is not possible changes nothing. */
  function Step(s: Streams, a: Action): Streams {
    match a
    case Open => if s.closed || s.queue != [] || s.next > s.max then s else OpenOne(s, None)
    case OpenSync(expired) => BeginSync(s, expired)
    case ExpireContext(w) =>
      if w >= |s.waiters| then s else s.(waiters := s.waiters[w := s.waiters[w].(cancelled := true)])
    case TakeToken(w) =>
      if w < |s.waiters| && s.waiters[w].phase == Waiting && (s.waiters[w].token || s.waiters[w].channelClosed)
      then s.(waiters := s.waiters[w := s.waiters[w].(phase := Woken, token := false)]) else s
    case NoticeExpiry(w) =>
      if w < |s.waiters| && s.waiters[w].phase == Waiting && s.waiters[w].cancelled then SetPhase(s, w, Cancelling)
        else s
    case Resume(w) => if w < |s.waiters| && s.waiters[w].phase == Woken then AfterWakeup(s, w) else s
    case GiveUp(w) => if w < |s.waiters| && s.waiters[w].phase == Cancelling then Leave(s, w) else s
    case SetMax(id) => if id <= s.max then s else Unblock(s.(max := id))
    case Close => CloseAll(s)
  }

  function Run(first: int, actions: seq<Action>): Streams {
    if actions == [] then Begin(first) else Step(Run(first, actions[..|actions| - 1]), actions[|actions| - 1])
  }

  // ------------------------------------------------------------ the invariant

  predicate Increasing(queue: seq<nat>) {
    forall i, j :: 0 <= i < j < |queue| ==> queue[i] < queue[j]
  }

  /** The queue is exactly the calls that have not returned, in order of arrival. */
  ghost predicate Queued(s: Streams) {
    && Increasing(s.queue)
    && (s.closed ==> s.queue == [])
    && (forall w :: w in s.queue ==> w < |s.waiters| && Alive(s.waiters[w]))
    && (!s.closed ==> forall w :: 0 <= w < |s.waiters| ==>
         !s.waiters[w].channelClosed && (Alive(s.waiters[w]) ==> w in s.queue))
  }

  /** Only the head of the queue has a token or has been woken by one. */
  ghost predicate TokenAtHead(s: Streams) {
    !s.closed ==>
      forall w :: 0 <= w < |s.waiters| && Alive(s.waiters[w]) && (s.waiters[w].token || s.waiters[w].phase == Woken) ==>
      s.queue != [] && s.queue[0] == w
  }

  /** No wakeup is lost: if the head could open a stream, it has a token or is already running. */
  ghost predicate HeadAwake(s: Streams) {
    s.queue != [] && s.queue[0] < |s.waiters| && s.next <= s.max ==>
      s.waiters[s.queue[0]].token || s.waiters[s.queue[0]].phase in {Woken, Cancelling}
  }

  /** Stream IDs are handed out one after the other, within the limit. */
  ghost predicate WithinLimit(s: Streams, first: int) {
    && s.next == first + 4 * |s.openings|
    && (forall i :: 0 <= i < |s.openings| ==> s.openings[i].id == first + 4 * i <= s.max)
  }

  /** Nobody overtakes a waiting call: since it began to wait, only earlier ones opened streams. */
  ghost predicate NoOvertaking(s: Streams) {
    && (forall w, i :: w in s.queue && w < |s.waiters| && s.waiters[w].since <= i < |s.openings| ==>
          s.openings[i].waiter.Some? && s.openings[i].waiter.value < w)
    && (forall i, j :: 0 <= i < j < |s.openings| && s.openings[i].waiter.Some? && s.openings[j].waiter.Some? ==>
          s.openings[i].waiter.value < s.openings[j].waiter.value)
    && (forall w, i :: w in s.queue && 0 <= i < |s.openings| && s.openings[i].waiter.Some? ==>
         s.openings[i].waiter.value < w)
    && (forall i :: 0 <= i < |s.openings| && s.openings[i].waiter.Some? ==> s.openings[i].waiter.value < |s.waiters|)
  }

  ghost predicate Inv(s: Streams, first: int) {
    !s.panicked && Queued(s) && TokenAtHead(s) && HeadAwake(s) && WithinLimit(s, first) && NoOvertaking(s)
  }

  // ------------------------------------------------------------ every step keeps it

  lemma Tail(queue: seq<nat>)
    requires queue != [] && Increasing(queue)
    ensures Increasing(queue[1..])
    ensures forall v :: v in queue <==> v == queue[0] || v in queue[1..]
    ensures forall v :: v in queue[1..] ==> v > queue[0]
  {
  }

  lemma Prepend(x: nat, rest: seq<nat>)
    requires Increasing(rest) && forall v :: v in rest ==> v > x
    ensures Increasing([x] + rest)
  {
    assert forall i :: 0 <= i < |rest| ==> rest[i] in rest;
  }

  lemma {:induction false} RemoveOne(queue: seq<nat>, w: nat)
    requires Increasing(queue)
    ensures Increasing(Remove(queue, w))
    ensures forall v :: v in Remove(queue, w) <==> v in queue && v != w
    ensures queue != [] && queue[0] != w ==> Remove(queue, w) != [] && Remove(queue, w)[0] == queue[0]
  {
    hide Increasing;
    if queue == [] {
      assert Remove(queue, w) == queue;
    } else {
      Tail(queue);
      RemoveOne(queue[1..], w);
      Prepend(queue[0], Remove(queue[1..], w));
      assert [] + Remove(queue[1..], w) == Remove(queue[1..], w);
    }
  }

  /** Everything but HeadAwake: what holds between taking a waiter out and waking the next one. */
  ghost predicate InvAsleep(s: Streams, first: int) {
    !s.panicked && Queued(s) && TokenAtHead(s) && WithinLimit(s, first) && NoOvertaking(s)
  }

  lemma UnblockWakes(s: Streams, first: int)
    requires InvAsleep(s, first)
    ensures Inv(Unblock(s), first)
  {
    if s.queue != [] { assert s.queue[0] in s.queue; }
  }

  lemma OpenKeepsInv(s: Streams, first: int)
    requires Inv(s, first) && s.queue == [] && s.next <= s.max
    ensures Inv(OpenOne(s, None), first)
  {
  }

  lemma Append(queue: seq<nat>, x: nat)
    requires Increasing(queue) && forall v :: v in queue ==> v < x
    ensures Increasing(queue + [x])
    ensures forall v :: v in queue + [x] <==> v in queue || v == x
    ensures (queue + [x])[0] == if queue == [] then x else queue[0]
  {
    assert forall i :: 0 <= i < |queue| ==> queue[i] in queue;
  }

  lemma EnqueueQueued(s: Streams)
    requires Queued(s) && TokenAtHead(s) && !s.closed && !(s.queue == [] && s.next <= s.max)
    ensures Queued(BeginSync(s, false)) && TokenAtHead(BeginSync(s, false))
  {
    hide Increasing;
    Append(s.queue, |s.waiters|);
  }

  lemma EnqueueOrder(s: Streams)
    requires NoOvertaking(s) && !s.closed && !(s.queue == [] && s.next <= s.max)
    ensures NoOvertaking(BeginSync(s, false))
  {
    var t := BeginSync(s, false);
    assert forall w :: w in t.queue <==> w in s.queue || w == |s.waiters|;
  }

  lemma EnqueueKeepsInv(s: Streams, first: int)
    requires Inv(s, first) && !s.closed && !(s.queue == [] && s.next <= s.max)
    ensures Inv(BeginSync(s, false), first)
  {
    hide NoOvertaking, TokenAtHead, Increasing;
    EnqueueQueued(s);
    EnqueueOrder(s);
    var t := BeginSync(s, false);
    assert s.queue != [] ==> t.queue[0] == s.queue[0] && s.queue[0] in s.queue;
  }

  lemma DropQueued(s: Streams, w: nat)
    requires Queued(s) && TokenAtHead(s) && w < |s.waiters|
    ensures Queued(Drop(s, w)) && TokenAtHead(Drop(s, w))
  {
    hide Increasing, Remove;
    RemoveOne(s.queue, w);
    if s.queue == [] { assert Remove([], w) == [] by { RemoveNone(w); } }
  }

  lemma RemoveNone(w: nat)
    ensures Remove([], w) == []
  {
  }

  lemma DropOrder(s: Streams, w: nat)
    requires NoOvertaking(s) && Increasing(s.queue) && w < |s.waiters|
    ensures NoOvertaking(Drop(s, w))
  {
    hide Increasing, Remove;
    RemoveOne(s.queue, w);
  }

  lemma DropKeepsAsleep(s: Streams, w: nat, first: int)
    requires Inv(s, first) && w < |s.waiters|
    ensures InvAsleep(Drop(s, w), first)
  {
    hide NoOvertaking, TokenAtHead, Increasing, Remove;
    DropQueued(s, w);
    DropOrder(s, w);
  }

  lemma LeaveKeepsInv(s: Streams, w: nat, first: int)
    requires Inv(s, first) && w < |s.waiters| && Alive(s.waiters[w])
    ensures Inv(Leave(s, w), first)
  {
    hide Inv, InvAsleep, Unblock;
    DropKeepsAsleep(s, w, first);
    UnblockWakes(Drop(s, w), first);
  }

  lemma ServeQueued(s: Streams, w: nat)
    requires Queued(s) && TokenAtHead(s) && !s.closed && w < |s.waiters| && s.queue != [] && s.queue[0] == w
    ensures Queued(Serve(s, w)) && TokenAtHead(Serve(s, w))
  {
    hide Increasing;
    assert Increasing(s.queue);
    Tail(s.queue);
  }

  lemma ServeOrder(s: Streams, w: nat)
    requires Increasing(s.queue) && NoOvertaking(s) && w < |s.waiters| && s.queue != [] && s.queue[0] == w
    ensures NoOvertaking(Serve(s, w))
  {
    hide Increasing;
    Tail(s.queue);
    var t := Serve(s, w);
    assert w in s.queue;
    assert forall i :: 0 <= i < |s.openings| ==> t.openings[i] == s.openings[i];
  }

  /** A woken waiter that may open a stream is the head, so dropping the head drops it. */
  lemma ServeKeepsInv(s: Streams, w: nat, first: int)
    requires Inv(s, first) && !s.closed && w < |s.waiters| && s.waiters[w].phase == Woken && s.next <= s.max
    ensures s.queue != [] && s.queue[0] == w
    ensures Inv(Unblock(Serve(s, w)), first)
  {
    hide Unblock, NoOvertaking;
    ServeQueued(s, w);
    ServeOrder(s, w);
    UnblockWakes(Serve(s, w), first);
  }

  lemma ResumeKeepsInv(s: Streams, w: nat, first: int)
    requires Inv(s, first) && w < |s.waiters| && s.waiters[w].phase == Woken
    ensures Inv(AfterWakeup(s, w), first)
  {
    hide Leave, Unblock;
    if s.closed {
    } else if s.waiters[w].cancelled {
      LeaveKeepsInv(s, w, first);
    } else if s.next <= s.max {
      ServeKeepsInv(s, w, first);
    }
  }

  lemma WaiterStepOrder(s: Streams, a: Action)
    requires NoOvertaking(s) && (a.ExpireContext? || a.TakeToken? || a.NoticeExpiry?)
    ensures NoOvertaking(Step(s, a))
  {
  }

  lemma WaiterStepKeepsInv(s: Streams, a: Action, first: int)
    requires Inv(s, first) && (a.ExpireContext? || a.TakeToken? || a.NoticeExpiry?)
    ensures Inv(Step(s, a), first)
  {
    hide NoOvertaking, Increasing;
    WaiterStepOrder(s, a);
    if s.queue != [] { assert s.queue[0] in s.queue; }
  }

  lemma CloseKeepsInv(s: Streams, first: int)
    requires Inv(s, first)
    ensures Inv(CloseAll(s), first)
  {
  }

  lemma SetMaxKeepsInv(s: Streams, id: int, first: int)
    requires Inv(s, first) && id > s.max
    ensures Inv(Unblock(s.(max := id)), first)
  {
    hide Unblock;
    UnblockWakes(s.(max := id), first);
  }

  lemma StepKeepsInv(s: Streams, a: Action, first: int)
    requires Inv(s, first)
    ensures Inv(Step(s, a), first)
    ensures s.max <= Step(s, a).max && s.openings <= Step(s, a).openings
  {
    StepGrows(s, a);
    hide Inv, Unblock, Leave, AfterWakeup, CloseAll, BeginSync, OpenOne;
    match a
    case Open => if !(s.closed || s.queue != [] || s.next > s.max) { OpenKeepsInv(s, first); }
    case OpenSync(expired) => SyncKeepsInv(s, expired, first);
    case Resume(w) => if w < |s.waiters| && s.waiters[w].phase == Woken { ResumeKeepsInv(s, w, first); }
    case GiveUp(w) => if w < |s.waiters| && s.waiters[w].phase == Cancelling { LeaveKeepsInv(s, w, first); }
    case SetMax(id) => if id > s.max { SetMaxKeepsInv(s, id, first); }
    case Close => CloseKeepsInv(s, first);
    case ExpireContext(_) => WaiterStepKeepsInv(s, a, first);
    case TakeToken(_) => WaiterStepKeepsInv(s, a, first);
    case NoticeExpiry(_) => WaiterStepKeepsInv(s, a, first);
  }

  lemma SyncKeepsInv(s: Streams, expired: bool, first: int)
    requires Inv(s, first)
    ensures Inv(BeginSync(s, expired), first)
  {
    if !s.closed && !expired {
      if s.queue == [] && s.next <= s.max { OpenKeepsInv(s, first); } else { EnqueueKeepsInv(s, first); }
    }
  }

  lemma StepGrows(s: Streams, a: Action)
    ensures s.max <= Step(s, a).max && s.openings <= Step(s, a).openings
  {
  }

  /** In every run, under all interleavings, cancellations, limit updates and closing. */
  lemma {:induction false} RunKeepsInv(first: nat, actions: seq<Action>)
    ensures Inv(Run(first, actions), first)
  {
    hide Step;
    if actions == [] {
      BeginInv(first);
    } else {
      RunKeepsInv(first, actions[..|actions| - 1]);
      StepKeepsInv(Run(first, actions[..|actions| - 1]), actions[|actions| - 1], first);
    }
  }

  lemma BeginInv(first: nat)
    ensures Inv(Begin(first), first)
  {
  }

  // ------------------------------------------------------------ what follows

  /** The head of the queue runs until it has the lock and uses it. */
  function RunHead(s: Streams): Streams
    requires s.queue != []
  {
    Step(Step(s, TakeToken(s.queue[0])), Resume(s.queue[0]))
  }

  lemma HeadTakesToken(s: Streams, first: int)
    requires Inv(s, first) && s.queue != [] && s.next <= s.max && Patient(s, s.queue[0])
    ensures var head := s.queue[0]; var u := Step(s, TakeToken(head));
      && Inv(u, first) && !s.closed && Increasing(s.queue)
      && u == s.(waiters := u.waiters) && |u.waiters| == |s.waiters| && u.waiters[head].phase == Woken &&
           !u.waiters[head].cancelled
      && (forall w :: 0 <= w < |s.waiters| && w != head ==> u.waiters[w] == s.waiters[w])
      && (forall w :: w in s.queue ==> w < |s.waiters|)
  {
    WaiterStepKeepsInv(s, TakeToken(s.queue[0]), first);
    assert s.queue[0] in s.queue;
  }

  /**
   No lost wakeup, as progress: whenever the limit allows a stream, the first waiting call gets
   it by just being scheduled, without another MAX_STREAMS frame and without anyone else's help.
   */
  lemma HeadIsServed(s: Streams, first: int)
    requires Inv(s, first) && s.queue != [] && s.next <= s.max && Patient(s, s.queue[0])
    ensures var t := RunHead(s);
      && Inv(t, first)
      && t.openings == s.openings + [Opening(s.next, Some(s.queue[0]))]
      && t.queue == s.queue[1..] && t.next == s.next + 4 && t.max == s.max
      && |t.waiters| == |s.waiters| && !t.closed
      && (forall w :: w in t.queue ==>
           w < |s.waiters| && t.waiters[w].phase == s.waiters[w].phase &&
             t.waiters[w].cancelled == s.waiters[w].cancelled)
  {
    hide Inv, Unblock, Increasing;
    var head := s.queue[0];
    var u := Step(s, TakeToken(head));
    HeadTakesToken(s, first);
    ServeKeepsInv(u, head, first);
    Tail(s.queue);
    UnblockOnlyTokens(Serve(u, head), first);
  }

  lemma UnblockOnlyTokens(s: Streams, first: int)
    requires Inv(Unblock(s), first)
    ensures Unblock(s) == s.(waiters := Unblock(s).waiters)
    ensures |Unblock(s).waiters| == |s.waiters|
    ensures forall w :: 0 <= w < |s.waiters| ==>
      Unblock(s).waiters[w].phase == s.waiters[w].phase && Unblock(s).waiters[w].cancelled == s.waiters[w].cancelled
  {
  }

  function RunHeads(s: Streams, n: nat): Streams
    decreases n
  {
    if n == 0 || s.queue == [] then s else RunHeads(RunHead(s), n - 1)
  }

  predicate Patient(s: Streams, w: nat) {
    w < |s.waiters| && !s.waiters[w].cancelled && s.waiters[w].phase != Cancelling
  }

  /** The first n waiting calls are served in their order with the next n stream IDs. */
  lemma {:induction false} QueueIsServedInOrder(s: Streams, n: nat, first: int)
    requires Inv(s, first) && n <= |s.queue| && s.next + 4 * (n - 1) <= s.max
    requires forall w :: w in s.queue ==> Patient(s, w)
    ensures var t := RunHeads(s, n);
      && Inv(t, first) && t.queue == s.queue[n..]
      && t.openings == s.openings + seq(n, i requires 0 <= i < n => Opening(s.next + 4 * i, Some(s.queue[i])))
    decreases n
  {
    hide RunHead, Inv;
    if n > 0 {
      var t := RunHead(s);
      assert s.queue[0] in s.queue;
      HeadIsServed(s, first);
      assert forall w :: w in t.queue ==> w in s.queue && Patient(s, w);
      assert forall w :: w in t.queue ==> Patient(t, w);
      QueueIsServedInOrder(t, n - 1, first);
    }
  }

  // ------------------------------------------------------------ the limit

  /** The limit is the largest one the peer ever sent, in whatever order they came. */
  lemma {:induction false} LimitIsLargest(first: nat, actions: seq<Action>)
    ensures var max := Run(first, actions).max;
      && (forall a :: a in actions && a.SetMax? ==> a.id <= max)
      && (max == INVALID_BYTE_COUNT || SetMax(max) in actions)
  {
    if actions != [] {
      var init, a := actions[..|actions| - 1], actions[|actions| - 1];
      assert actions == init + [a];
      LimitIsLargest(first, init);
      LimitAfter(Run(first, init), a);
    }
  }

  lemma LimitAfter(s: Streams, a: Action)
    ensures Step(s, a).max == if a.SetMax? then Max(s.max, a.id) else s.max
  {
  }

  /**
   A limit that allows a stream is put to use: if nobody waits, the next OpenStream opens it, and otherwise the
   first waiting call gets it by just being scheduled.
   */
  lemma RaisedLimitServes(s: Streams, id: int, first: int)
    requires Inv(s, first) && !s.closed && id >= s.next
    ensures var t := Step(s, SetMax(id));
      && (s.queue == [] ==> Step(t, Open).openings == s.openings + [Opening(s.next, None)])
      && (s.queue != [] && Patient(s, s.queue[0]) ==>
           t.queue == s.queue && RunHead(t).openings == s.openings + [Opening(s.next, Some(s.queue[0]))])
  {
    hide Inv, RunHead;
    var t := Step(s, SetMax(id));
    StepKeepsInv(s, SetMax(id), first);
    if id > s.max { UnblockOnlyTokens(s.(max := id), first); }
    if s.queue != [] && Patient(s, s.queue[0]) { HeadIsServed(t, first); }
  }

  // ------------------------------------------------------------ closing

  /** After closing no stream is opened any more, whatever happens. */
  lemma {:induction false} ClosedForGood(first: nat, actions: seq<Action>, more: seq<Action>)
    requires Close in actions
    ensures var s := Run(first, actions + more);
      s.closed && s.queue == [] && s.openings == Run(first, actions).openings
  {
    hide Step;
    if more == [] {
      assert actions + more == actions;
      ClosedAfter(first, actions);
    } else {
      var init, a := more[..|more| - 1], more[|more| - 1];
      assert (actions + more)[..|actions + more| - 1] == actions + init && (actions + more)[|actions + more| - 1] == a;
      ClosedForGood(first, actions, init);
      StaysClosed(Run(first, actions + init), a);
    }
  }

  lemma {:induction false} ClosedAfter(first: nat, actions: seq<Action>)
    requires Close in actions
    ensures Run(first, actions).closed && Run(first, actions).queue == []
  {
    hide Step;
    var init, a := actions[..|actions| - 1], actions[|actions| - 1];
    assert actions == init + [a];
    if a == Close {
      StaysClosed(Run(first, init), a);
    } else {
      ClosedAfter(first, init);
      StaysClosed(Run(first, init), a);
    }
  }

  lemma StaysClosed(s: Streams, a: Action)
    ensures a == Close ==> Step(s, a).closed && Step(s, a).queue == [] && Step(s, a).openings == s.openings
    ensures s.closed && s.queue == [] ==>
      Step(s, a).closed && Step(s, a).queue == [] && Step(s, a).openings == s.openings
  {
    if a.GiveUp? { RemoveNone(a.w); }
  }

  /** Closing lets every call that has not returned do so, and it fails. */
  lemma ClosingFailsWaiters(s: Streams, first: int, w: nat)
    requires Inv(s, first) && !s.closed && w < |s.waiters| && Alive(s.waiters[w])
    ensures var t := Step(s, Close);
      var u := if s.waiters[w].phase == Waiting then Step(t, TakeToken(w)) else t;
      var v := Step(u, if s.waiters[w].phase == Cancelling then GiveUp(w) else Resume(w));
      w < |v.waiters| && v.waiters[w].phase == Failed
  {
    hide Inv, Step;
    ClosingLetsGo(s, first, w);
    var t := Step(s, Close);
    if s.waiters[w].phase == Waiting { WokenByClosing(t, w); }
    FailsWhenClosed(if s.waiters[w].phase == Waiting then Step(t, TakeToken(w)) else t, w);
  }

  lemma ClosingLetsGo(s: Streams, first: int, w: nat)
    requires Inv(s, first) && !s.closed && w < |s.waiters| && Alive(s.waiters[w])
    ensures var t := Step(s, Close);
      && t.closed && t.queue == [] && w < |t.waiters| && t.waiters[w].phase == s.waiters[w].phase
      && (s.waiters[w].phase == Waiting ==> t.waiters[w].channelClosed)
  {
  }

  lemma WokenByClosing(t: Streams, w: nat)
    requires w < |t.waiters| && t.waiters[w].phase == Waiting && t.waiters[w].channelClosed
    ensures var u := Step(t, TakeToken(w));
      u.closed == t.closed && u.queue == t.queue && w < |u.waiters| && u.waiters[w].phase == Woken
  {
  }

  lemma FailsWhenClosed(u: Streams, w: nat)
    requires u.closed && u.queue == [] && w < |u.waiters| && u.waiters[w].phase in {Woken, Cancelling}
    ensures var v := Step(u, if u.waiters[w].phase == Cancelling then GiveUp(w) else Resume(w));
      w < |v.waiters| && v.waiters[w].phase == Failed
  {
    RemoveNone(w);
  }
}
