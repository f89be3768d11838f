/**
 deps/quic-go/streams_map_incoming.go: which streams the peer may open, and in which order the
 application gets them. The stream objects themselves are not part of this model; a stream is
 its ID.
 */
module IncomingStreamsObject {
  import opened Protocol

  const MAX_STREAM_COUNT: nat := 0x1000_0000_0000_0000
  const MAX_STREAM_ID: int := 0x3FFF_FFFF_FFFF_FFFF

  datatype StreamError = StreamLimitError | StreamStateError | ConnectionClosed

  /** Where a goroutine that accepts streams is. */
  datatype Acceptor = Idle | Checking | Waiting

  /** Callers that never called are idle. */
  function PhaseOf(acceptors: map<nat, Acceptor>, a: nat): Acceptor {
    if a in acceptors then acceptors[a] else Idle
  }

  lemma PhaseAfter(before: map<nat, Acceptor>, after: map<nat, Acceptor>, a: nat, phase: Acceptor)
    requires after == before[a := phase]
    ensures forall b: nat :: PhaseOf(after, b) == if b == a then phase else PhaseOf(before, b)
  {
    forall b: nat ensures PhaseOf(after, b) == if b == a then phase else PhaseOf(before, b) {
      PhaseAt(before, after, a, phase, b);
    }
  }

  lemma PhaseAt(before: map<nat, Acceptor>, after: map<nat, Acceptor>, a: nat, phase: Acceptor, b: nat)
    requires after == before[a := phase]
    ensures PhaseOf(after, b) == if b == a then phase else PhaseOf(before, b)
  {
  }

  /** The ID of the n-th stream; a limit of 0 streams is the ID -1. */
  function StreamID(first: nat, n: nat): int { if n == 0 then -1 else first + 4 * (n - 1) }

  predicate OfType(first: nat, id: int) { id >= first && (id - first) % 4 == 0 }

  /** The limit as the peer knows it: the one announced last, or the one it started with. */
  function KnownLimit(first: nat, maxNum: nat, announced: seq<int>): int {
    if announced == [] then StreamID(first, maxNum) else announced[|announced| - 1]
  }

  /** How many streams the peer may still open. */
  function Openable(nextToOpen: int, maxStream: int): nat {
    if maxStream < nextToOpen then 0 else (maxStream - nextToOpen) / 4 + 1
  }

  /** The IDs in the map: everything opened and not yet accepted, and some older ones. */
  ghost predicate EntriesOk(first: nat, streams: map<int, bool>, nextToAccept: int, nextToOpen: int) {
    && OfType(first, nextToAccept) && OfType(first, nextToOpen) && nextToAccept <= nextToOpen
    && (forall id :: id in streams ==> OfType(first, id) && id < nextToOpen)
    && (forall id :: OfType(first, id) && nextToAccept <= id < nextToOpen ==> id in streams)
    && (forall id :: id in streams && streams[id] ==> id >= nextToAccept)
  }

  /** The limit is what was granted at first plus one for each stream deleted, up to the protocol's maximum. */
  ghost predicate CreditOk(first: nat, maxNum: nat, live: nat, deleted: nat, nextToOpen: int, maxStream: int) {
    && first <= 3
    && maxNum <= MAX_STREAM_COUNT
    && nextToOpen == first + 4 * (live + deleted)
    && live + deleted <= Min(maxNum + deleted, MAX_STREAM_COUNT)
    && (maxNum == 0 ==> live == deleted == 0)
    && maxStream == StreamID(first, Min(maxNum + deleted, MAX_STREAM_COUNT))
  }

  /**
   Conservation of stream credit (section 4.6 of RFC 9000): live streams and those the peer may
   still open add up to the configured number, and never to more, even when stream IDs run out.
   */
  lemma CreditConserved(first: nat, maxNum: nat, live: nat, deleted: nat, nextToOpen: int, maxStream: int)
    requires CreditOk(first, maxNum, live, deleted, nextToOpen, maxStream)
    ensures live + Openable(nextToOpen, maxStream) <= maxNum
    ensures live + Openable(nextToOpen, maxStream) == maxNum <==> maxNum + deleted <= MAX_STREAM_COUNT
    ensures maxStream <= MAX_STREAM_ID
  {
    var n := Min(maxNum + deleted, MAX_STREAM_COUNT);
    if n > live + deleted {
      assert maxStream - nextToOpen == 4 * (n - 1 - live - deleted);
    }
  }

  lemma DeleteCredit(first: nat, maxNum: nat, live: nat, deleted: nat, nextToOpen: int, maxStream: int)
    requires CreditOk(first, maxNum, live, deleted, nextToOpen, maxStream) && live > 0
    ensures var limit := nextToOpen + 4 * (maxNum - (live - 1) - 1);
      && maxNum > live - 1
      && limit == StreamID(first, maxNum + deleted + 1)
      && (limit <= MAX_STREAM_ID <==> maxNum + deleted + 1 <= MAX_STREAM_COUNT)
      && CreditOk(first, maxNum, live - 1, deleted + 1, nextToOpen, if limit <= MAX_STREAM_ID then limit else maxStream)
      && (limit <= MAX_STREAM_ID ==> maxStream < limit)
  {
  }

  /** The map after opening all streams from nextToOpen to id. */
  ghost predicate OpenedUpTo(first: nat, before: map<int, bool>, after: map<int, bool>, nextToOpen: int, end: int) {
    && (forall x :: x in after <==> x in before || (OfType(first, x) && nextToOpen <= x < end))
    && (forall x :: x in after ==> after[x] == (x in before && before[x]))
    && |after| == |before| + (end - nextToOpen) / 4
  }

  lemma OpenOneMore(first: nat, before: map<int, bool>, after: map<int, bool>, nextToOpen: int, end: int)
    requires OpenedUpTo(first, before, after, nextToOpen, end) && OfType(first, end) && OfType(first, nextToOpen) &&
      nextToOpen <= end
    requires forall x :: x in before ==> x < nextToOpen
    ensures OpenedUpTo(first, before, after[end := false], nextToOpen, end + 4)
  {
    assert end !in after;
    assert forall x :: OfType(first, x) && end <= x < end + 4 ==> x == end;
  }

  lemma OpenedEntries(first: nat, before: map<int, bool>, after: map<int, bool>, nextToAccept: int, nextToOpen: int,
                      id: int)
    requires EntriesOk(first, before, nextToAccept, nextToOpen) && OfType(first, id) && nextToOpen <= id
    requires OpenedUpTo(first, before, after, nextToOpen, id + 4)
    ensures EntriesOk(first, after, nextToAccept, id + 4)
  {
    assert OfType(first, id + 4);
  }

  lemma OpenedCredit(first: nat, maxNum: nat, live: nat, deleted: nat, nextToOpen: int, maxStream: int, id: int,
                     live': nat)
    requires CreditOk(first, maxNum, live, deleted, nextToOpen, maxStream) && OfType(first, id) &&
      nextToOpen <= id <= maxStream
    requires live' == live + (id + 4 - nextToOpen) / 4
    ensures CreditOk(first, maxNum, live', deleted, id + 4, maxStream)
  {
    assert id + 4 - nextToOpen == 4 * ((id + 4 - nextToOpen) / 4);
  }

  /** Entries once id has been accepted, even if it is marked for deletion. */
  lemma AcceptedEntries(first: nat, streams: map<int, bool>, id: int, nextToOpen: int)
    requires EntriesOk(first, streams, id, nextToOpen) && id in streams
    ensures EntriesOk(first, streams - {id}, id + 4, nextToOpen)
    ensures !streams[id] ==> EntriesOk(first, streams, id + 4, nextToOpen)
  {
    assert OfType(first, id + 4);
    assert forall x :: OfType(first, x) && id <= x < id + 4 ==> x == id;
  }

  lemma ForgottenEntries(first: nat, streams: map<int, bool>, id: int, nextToAccept: int, nextToOpen: int)
    requires EntriesOk(first, streams, nextToAccept, nextToOpen) && id < nextToAccept
    ensures EntriesOk(first, streams - {id}, nextToAccept, nextToOpen)
  {
  }

  class IncomingStreamsMap {
    const first: nat
    const maxNumStreams: nat
    /** Stream ID to "delete it once it has been accepted". */
    var streams: map<int, bool>
    var nextStreamToAccept: int
    var nextStreamToOpen: int
    var maxStream: int
    /** Closing sets an error under the lock and closes the channel after that. */
    var closed: bool
    var closing: nat
    var channelClosed: bool
    /** The one-element channel that wakes AcceptStream. */
    var notified: bool
    var acceptors: map<nat, Acceptor>
    /** Some call of AcceptStream began while another one was under way. */
    var overlapped: bool
    /** The limits announced in MAX_STREAMS frames, and the IDs handed to the application. */
    var announced: seq<int>
    var accepted: seq<int>
    ghost var deleted: nat

    ghost predicate Valid()
      reads this
    {
      EntriesOk(first, streams, nextStreamToAccept, nextStreamToOpen) && Rest()
    }

    /** Everything but the entries. */
    ghost predicate Rest()
      reads this
    {
      && CreditOk(first, maxNumStreams, |streams|, deleted, nextStreamToOpen, maxStream)
      && (forall i, j :: 0 <= i < j < |announced| ==> announced[i] < announced[j])
      && maxStream == KnownLimit(first, maxNumStreams, announced)
      && nextStreamToAccept == first + 4 * |accepted|
      && (forall i :: 0 <= i < |accepted| ==> accepted[i] == first + 4 * i)
      && (closed <==> channelClosed || closing > 0)
      && NotifiedIfNeeded()
    }

    function Phase(a: nat): Acceptor
      reads this`acceptors
    {
      PhaseOf(acceptors, a)
    }

    /** No lost wakeup while calls do not overlap: the waiting acceptor is notified if a stream is there for it. */
    ghost predicate NotifiedIfNeeded()
      reads this
    {
      !overlapped ==>
        && (forall a: nat, b: nat :: PhaseOf(acceptors, a) != Idle && PhaseOf(acceptors, b) != Idle ==> a == b)
        && (nextStreamToAccept in streams && !notified && !closed ==> forall a: nat :: PhaseOf(acceptors, a) != Waiting)
    }

    constructor (first: nat, maxStreams: nat)
      requires first <= 3 && maxStreams <= MAX_STREAM_COUNT
      ensures Valid() && this.first == first && maxNumStreams == maxStreams
      ensures streams == map[] && accepted == [] && announced == [] && !closed && !channelClosed && deleted == 0
      ensures acceptors == map[] && !overlapped && !notified && nextStreamToOpen == nextStreamToAccept == first
      ensures maxStream == StreamID(first, maxStreams)
    {
      this.first, maxNumStreams := first, maxStreams;
      streams, nextStreamToAccept, nextStreamToOpen := map[], first, first;
      maxStream := StreamID(first, maxStreams);
      closed, closing, channelClosed, notified := false, 0, false, false;
      acceptors, overlapped := map[], false;
      announced, accepted, deleted := [], [], 0;
    }

    /** Nothing but the ghost count of deletions and the limit changes the peer's credit. */
    twostate predicate SameCredit()
      reads this
    {
      maxStream == old(maxStream) && announced == old(announced) && deleted == old(deleted)
    }

    // ---------------------------------------------------------- opening

    /**
     The stream with this ID, after opening it and all lower ones that are not open yet. The source
     wakes AcceptStream by sending on a channel; once that is closed, opening a stream panics.
     */
    method GetOrOpenStream(id: int) returns (found: bool, err: Option<StreamError>, panicked: bool)
      requires Valid() && OfType(first, id)
      modifies this`streams, this`nextStreamToOpen, this`notified
      ensures !panicked ==> Valid()
      ensures panicked <==> channelClosed && old(nextStreamToOpen) <= id <= maxStream
      ensures old(notified) ==> notified
      ensures err.Some? <==> id > maxStream
      ensures err.Some? ==>
        err.value == StreamLimitError && streams == old(streams) && nextStreamToOpen == old(nextStreamToOpen)
      ensures id < old(nextStreamToOpen) ==> streams == old(streams) && nextStreamToOpen == old(nextStreamToOpen)
      ensures id < old(nextStreamToOpen) && err == None ==> (found <==> id in streams && !streams[id])
      ensures err == None && id >= old(nextStreamToOpen) && !panicked ==>
        found && nextStreamToOpen == id + 4 && OpenedUpTo(first, old(streams), streams, old(nextStreamToOpen), id + 4)
    {
      if id > maxStream { return false, Some(StreamLimitError), false; }
      if id < nextStreamToOpen { return id in streams && !streams[id], None, false; }
      if channelClosed {
        streams := streams[nextStreamToOpen := false];
        return false, None, true;
      }
      OpenUpTo(id);
      return true, None, false;
    }

    method OpenUpTo(id: int)
      requires Valid() && OfType(first, id) && nextStreamToOpen <= id <= maxStream
      modifies this`streams, this`nextStreamToOpen, this`notified
      ensures Valid() && nextStreamToOpen == id + 4 && notified
      ensures OpenedUpTo(first, old(streams), streams, old(nextStreamToOpen), id + 4)
    {
      hide EntriesOk, CreditOk, OfType;
      ghost var before := streams;
      AllBelow(first, before, nextStreamToAccept, nextStreamToOpen);
      var newNum := nextStreamToOpen;
      while newNum <= id
        invariant OfType(first, newNum) && nextStreamToOpen <= newNum <= id + 4
        invariant newNum > nextStreamToOpen || old(notified) ==> notified
        invariant newNum > id ==> newNum == id + 4
        invariant nextStreamToOpen == old(nextStreamToOpen)
        invariant OpenedUpTo(first, before, streams, nextStreamToOpen, newNum)
        decreases id + 4 - newNum
      {
        OpenOneMore(first, before, streams, nextStreamToOpen, newNum);
        NextOfType(first, newNum, id);
        streams := streams[newNum := false];
        notified := true;
        newNum := newNum + 4;
      }
      OpenedEntries(first, before, streams, nextStreamToAccept, nextStreamToOpen, id);
      OpenedCredit(first, maxNumStreams, |before|, deleted, nextStreamToOpen, maxStream, id, |streams|);
      nextStreamToOpen := id + 4;
    }

    static lemma AllBelow(first: nat, streams: map<int, bool>, nextToAccept: int, nextToOpen: int)
      requires EntriesOk(first, streams, nextToAccept, nextToOpen)
      ensures OfType(first, nextToOpen) && forall x :: x in streams ==> x < nextToOpen
      ensures OpenedUpTo(first, streams, streams, nextToOpen, nextToOpen)
    {
    }

    static lemma NextOfType(first: nat, x: int, id: int)
      requires OfType(first, x) && OfType(first, id) && x <= id
      ensures OfType(first, x + 4) && x + 4 <= id + 4
      ensures x + 4 > id ==> x == id
    {
    }

    // ---------------------------------------------------------- deleting

    method DeleteStream(id: int) returns (err: Option<StreamError>)
      requires Valid()
      modifies this`streams, this`maxStream, this`announced, this`deleted
      ensures Valid()
      ensures err == None <==> id in old(streams) && !old(streams)[id]
      ensures err.Some? ==> streams == old(streams) && SameCredit()
      ensures err == None && id >= nextStreamToAccept ==> streams == old(streams)[id := true] && SameCredit()
      ensures err == None && id < nextStreamToAccept ==> streams == old(streams) - {id} && deleted == old(deleted) + 1
      ensures old(maxStream) <= maxStream && old(announced) <= announced
    {
      if id !in streams { return Some(StreamStateError); }
      if id >= nextStreamToAccept {
        if streams[id] { return Some(StreamStateError); }
        streams := streams[id := true];
        return None;
      }
      ForgottenEntries(first, streams, id, nextStreamToAccept, nextStreamToOpen);
      Forget(id);
      return None;
    }

    /** Removes an accepted stream and grants the peer another one. */
    method Forget(id: int)
      requires Rest() && id in streams && id < nextStreamToAccept
      requires EntriesOk(first, streams - {id}, nextStreamToAccept, nextStreamToOpen)
      modifies this`streams, this`maxStream, this`announced, this`deleted
      ensures Valid() && streams == old(streams) - {id} && deleted == old(deleted) + 1
      ensures old(maxStream) <= maxStream && old(announced) <= announced
    {
      hide EntriesOk, CreditOk;
      DeleteCredit(first, maxNumStreams, |streams|, deleted, nextStreamToOpen, maxStream);
      assert (streams - {id}).Keys == streams.Keys - {id};
      streams := streams - {id};
      deleted := deleted + 1;
      if maxNumStreams > |streams| {
        var limit := nextStreamToOpen + 4 * (maxNumStreams - |streams| - 1);
        if limit <= MAX_STREAM_ID {
          maxStream := limit;
          announced := announced + [limit];
        }
      }
    }

    // ---------------------------------------------------------- accepting

    /** AcceptStream begins by draining the channel, without the lock. */
    method BeginAccept(a: nat)
      requires Valid() && Phase(a) == Idle
      modifies this`notified, this`acceptors, this`overlapped
      ensures Valid() && acceptors == old(acceptors)[a := Checking] && !notified
      ensures overlapped <==> old(overlapped) || exists b: nat :: PhaseOf(old(acceptors), b) != Idle
    {
      hide EntriesOk, CreditOk;
      PhaseAfter(acceptors, acceptors[a := Checking], a, Checking);
      assert forall b: nat :: PhaseOf(acceptors, b) != Idle <==> b in acceptors && acceptors[b] != Idle;
      overlapped := overlapped || exists b :: b in acceptors && acceptors[b] != Idle;
      notified, acceptors := false, acceptors[a := Checking];
    }

    /** The critical section of AcceptStream: streams come in order, each exactly once. */
    method Accept(a: nat) returns (id: Option<int>, err: Option<StreamError>)
      requires Valid() && Phase(a) == Checking
      modifies this`acceptors, this`nextStreamToAccept, this`accepted, this`streams, this`maxStream, this`announced,
               this`deleted
      ensures Valid()
      ensures err == if closed then Some(ConnectionClosed) else None
      ensures id.Some? <==> !closed && old(nextStreamToAccept) in old(streams)
      ensures id.Some? ==>
        && id.value == old(nextStreamToAccept) && accepted == old(accepted) + [id.value] &&
             nextStreamToAccept == id.value + 4
        && streams == if old(streams)[id.value] then old(streams) - {id.value} else old(streams)
      ensures id == None ==>
        accepted == old(accepted) && streams == old(streams) && nextStreamToAccept == old(nextStreamToAccept)
      ensures acceptors == old(acceptors)[a := if id.Some? || closed then Idle else Waiting]
      ensures deleted <= old(deleted) + 1
      ensures old(maxStream) <= maxStream && old(announced) <= announced
    {
      hide EntriesOk, CreditOk;
      PhaseAfter(acceptors, acceptors[a := Idle], a, Idle);
      PhaseAfter(acceptors, acceptors[a := Waiting], a, Waiting);
      if closed {
        acceptors := acceptors[a := Idle];
        return None, Some(ConnectionClosed);
      }
      if nextStreamToAccept !in streams {
        acceptors := acceptors[a := Waiting];
        return None, None;
      }
      var next := nextStreamToAccept;
      Hand(a, next);
      return Some(next), None;
    }

    /** Hands out a stream, and deletes it if it was completed before. */
    method Hand(a: nat, id: int)
      requires Valid() && Phase(a) == Checking && id == nextStreamToAccept && id in streams && !closed
      modifies this`acceptors, this`nextStreamToAccept, this`accepted, this`streams, this`maxStream, this`announced,
               this`deleted
      ensures Valid() && acceptors == old(acceptors)[a := Idle] && nextStreamToAccept == id + 4
      ensures accepted == old(accepted) + [id] && deleted <= old(deleted) + 1
      ensures streams == if old(streams)[id] then old(streams) - {id} else old(streams)
      ensures old(maxStream) <= maxStream && old(announced) <= announced
    {
      hide EntriesOk, CreditOk;
      AcceptedEntries(first, streams, id, nextStreamToOpen);
      PhaseAfter(acceptors, acceptors[a := Idle], a, Idle);
      acceptors := acceptors[a := Idle];
      accepted := accepted + [id];
      nextStreamToAccept := id + 4;
      if streams[id] { Forget(id); }
    }

    /** A waiting acceptor receives from the channel, which closing makes possible for good. */
    method WakeAcceptor(a: nat)
      requires Valid() && Phase(a) == Waiting && (notified || channelClosed)
      modifies this`notified, this`acceptors
      ensures Valid() && acceptors == old(acceptors)[a := Checking] && !notified
    {
      hide EntriesOk, CreditOk;
      PhaseAfter(acceptors, acceptors[a := Checking], a, Checking);
      notified, acceptors := false, acceptors[a := Checking];
    }

    method CancelAccept(a: nat)
      requires Valid() && Phase(a) == Waiting
      modifies this`acceptors
      ensures Valid() && acceptors == old(acceptors)[a := Idle]
    {
      hide EntriesOk, CreditOk;
      PhaseAfter(acceptors, acceptors[a := Idle], a, Idle);
      acceptors := acceptors[a := Idle];
    }

    // ---------------------------------------------------------- closing

    method CloseWithError()
      requires Valid()
      modifies this`closed, this`closing
      ensures Valid() && closed && closing == old(closing) + 1
    {
      closed, closing := true, closing + 1;
    }

    /** Closing twice closes the channel twice, which panics. */
    method CloseChannel() returns (panicked: bool)
      requires Valid() && closing > 0
      modifies this`closing, this`channelClosed
      ensures Valid() && channelClosed && closing == old(closing) - 1 && panicked == old(channelClosed)
    {
      panicked, channelClosed, closing := channelClosed, true, closing - 1;
    }
  }

  // ------------------------------------------------------------ every run

  /**
   AcceptStream and closing are in pieces: a call begins, looks into the map, is woken, or gives up while it waits.
   */
  datatype Op =
    | PeerOpens(id: int)
    | Completes(id: int)
    | BeginAcceptOp(a: nat)
    | AcceptOp(a: nat)
    | WakeOp(a: nat)
    | CancelOp(a: nat)
    | CloseOp
    | CloseChannelOp

  /** A piece of an AcceptStream call, if it is that one's turn. */
  method TakeAcceptStep(m: IncomingStreamsMap, op: Op)
    requires m.Valid()
    modifies m
    ensures m.Valid() && m.closed == old(m.closed) && m.deleted <= old(m.deleted) + 1
    ensures old(m.accepted) <= m.accepted && old(m.announced) <= m.announced && (old(m.overlapped) ==> m.overlapped)
  {
    hide m.Valid;
    match op
    case BeginAcceptOp(a) => if m.Phase(a) == Idle { m.BeginAccept(a); }
    case AcceptOp(a) => if m.Phase(a) == Checking { var id, err := m.Accept(a); }
    case WakeOp(a) => if m.Phase(a) == Waiting && (m.notified || m.channelClosed) { m.WakeAcceptor(a); }
    case CancelOp(a) => if m.Phase(a) == Waiting { m.CancelAccept(a); }
    case _ =>
  }

  /**
   No lost wake-up as long as calls do not overlap: an acceptor that waits although its stream is there can
   be woken, and then gets it.
   */
  method ServeAcceptor(m: IncomingStreamsMap, a: nat) returns (id: int)
    requires m.Valid() && m.Phase(a) == Waiting && m.nextStreamToAccept in m.streams && !m.closed && !m.overlapped
    modifies m
    ensures m.Valid() && m.Phase(a) == Idle
    ensures id == old(m.nextStreamToAccept) && m.accepted == old(m.accepted) + [id]
  {
    m.WakeAcceptor(a);
    var got, err := m.Accept(a);
    id := got.value;
  }

  /**
   With two calls at once a wake-up can be lost: one waits, two streams are opened, which leaves one token in
   the channel, and the second call throws the token away before it takes the first stream.
   */
  method LostWakeup() returns (m: IncomingStreamsMap)
    ensures fresh(m) && m.Valid() && m.Phase(0) == Waiting && m.nextStreamToAccept in m.streams
    ensures !m.notified && !m.closed && forall a: nat :: PhaseOf(m.acceptors, a) != Checking
  {
    hide m.Valid;
    m := WaitForTwo();
    m.BeginAccept(1);
    var id, err := m.Accept(1);
  }

  /** One call waits while the peer opens two streams. */
  method WaitForTwo() returns (m: IncomingStreamsMap)
    ensures fresh(m) && m.Valid() && m.acceptors == map[0 := Waiting] && !m.closed
    ensures m.nextStreamToAccept == 0 && 0 in m.streams && 4 in m.streams && !m.streams[0] && !m.streams[4]
  {
    hide m.Valid, OpenedUpTo;
    m := WaitAtStart();
    var found, err, panicked := m.GetOrOpenStream(4);
    TwoOpened(m.streams);
  }

  method WaitAtStart() returns (m: IncomingStreamsMap)
    ensures fresh(m) && m.Valid() && m.acceptors == map[0 := Waiting] && !m.closed && !m.channelClosed && m.first == 0
    ensures m.nextStreamToAccept == m.nextStreamToOpen == 0 && m.streams == map[] && m.maxStream >= 4
  {
    hide m.Valid;
    m := new IncomingStreamsMap(0, 2);
    m.BeginAccept(0);
    var id, err := m.Accept(0);
  }

  lemma TwoOpened(streams: map<int, bool>)
    requires OpenedUpTo(0, map[], streams, 0, 8)
    ensures 0 in streams && 4 in streams && !streams[0] && !streams[4]
  {
  }

  /**
   Over every sequence of events, with the pieces of any number of AcceptStream calls anywhere between the
   others: streams are accepted in order and once each, the peer's credit is never exceeded, each MAX_STREAMS
   frame announces a higher limit than the one before, and nothing panics before the map is closed. Unless calls
   of AcceptStream overlap, none sleeps while its stream is there. The results are those before the event that
   panicked.
   */
  method Run(first: nat, maxStreams: nat, ops: seq<Op>)
    returns (accepted: seq<int>, announced: seq<int>, live: nat, openable: nat, asleep: bool, ready: bool,
             overlapped: bool, panicked: bool)
    requires first <= 3 && maxStreams <= MAX_STREAM_COUNT
    ensures Observed(first, maxStreams, |ops|, accepted, announced, live, openable)
    ensures asleep && ready ==> overlapped
    ensures panicked ==> CloseOp in ops
  {
    hide IncomingStreamsMap.Valid, OfType, OpenedUpTo, Openable, Observed;
    var m := new IncomingStreamsMap(first, maxStreams);
    panicked := false;
    accepted, announced, live, openable, asleep, ready := Observe(m, |ops|);
    overlapped := m.overlapped;
    for i := 0 to |ops|
      invariant fresh(m) && m.Valid() && m.first == first && m.maxNumStreams == maxStreams
      invariant m.deleted <= i && (m.closed ==> CloseOp in ops) && !panicked
      invariant Observed(first, maxStreams, |ops|, accepted, announced, live, openable) &&
        (asleep && ready ==> overlapped)
    {
      assert ops[i] in ops;
      Closing(m);
      match ops[i] {
        case PeerOpens(id) => if OfType(first, id) { var found, err; found, err, panicked := m.GetOrOpenStream(id); }
        case Completes(id) => var err := m.DeleteStream(id);
        case CloseOp => m.CloseWithError();
        case CloseChannelOp => if m.closing > 0 { panicked := m.CloseChannel(); }
        case _ => TakeAcceptStep(m, ops[i]);
      }
      if panicked { return; }
      accepted, announced, live, openable, asleep, ready := Observe(m, |ops|);
      overlapped := m.overlapped;
    }
  }

  lemma Closing(m: IncomingStreamsMap)
    requires m.Valid()
    ensures m.channelClosed ==> m.closed
  {
  }

  /** What the outside sees of the map, when at most n streams have been deleted. */
  ghost predicate Observed(first: nat, maxStreams: nat, n: nat, accepted: seq<int>, announced: seq<int>, live: nat,
                           openable: nat) {
    && (forall i :: 0 <= i < |accepted| ==> accepted[i] == first + 4 * i)
    && (forall i, j :: 0 <= i < j < |announced| ==> announced[i] < announced[j] <= MAX_STREAM_ID)
    && live + openable <= maxStreams
    && (maxStreams + n <= MAX_STREAM_COUNT ==> live + openable == maxStreams)
  }

  /** asleep: an acceptor waits and nothing is going to wake it; ready: the next stream is there. */
  method Observe(m: IncomingStreamsMap, ghost n: nat)
    returns (accepted: seq<int>, announced: seq<int>, live: nat, openable: nat, asleep: bool, ready: bool)
    requires m.Valid() && m.deleted <= n
    ensures accepted == m.accepted && announced == m.announced
    ensures live == |m.streams| && openable == Openable(m.nextStreamToOpen, m.maxStream)
    ensures Observed(m.first, m.maxNumStreams, n, accepted, announced, live, openable)
    ensures asleep <==> !m.notified && !m.closed && exists a: nat :: PhaseOf(m.acceptors, a) == Waiting
    ensures ready <==> m.nextStreamToAccept in m.streams
    ensures asleep && ready ==> m.overlapped
  {
    CreditConserved(m.first, m.maxNumStreams, |m.streams|, m.deleted, m.nextStreamToOpen, m.maxStream);
    asleep := !m.notified && !m.closed && exists a :: a in m.acceptors && m.acceptors[a] == Waiting;
    assert forall a: nat :: PhaseOf(m.acceptors, a) == Waiting <==> a in m.acceptors && m.acceptors[a] == Waiting;
    return m.accepted, m.announced, |m.streams|, Openable(m.nextStreamToOpen, m.maxStream), asleep,
           m.nextStreamToAccept in m.streams;
  }
}
