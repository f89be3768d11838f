/**
 deps/quic-go/conn_id_manager.go: which of the peer's connection IDs is in use, held back,
 used for probing a path, or retired (sections 5.1.1 and 5.1.2 of RFC 9000).
 */
module ConnIdManagerObject {
  import opened Protocol

  const MAX_ACTIVE_CONNECTION_IDS: nat := 4
  const PACKETS_PER_CONNECTION_ID: nat := 10000

  /** A connection ID with its sequence number and its stateless reset token. */
  datatype ConnId = ConnId(number: nat, id: seq<byte>, token: nat)

  datatype AddError = ProtocolViolation | Conflict | ConnectionIDLimitError

  // ------------------------------------------------------------ where a sequence number is

  predicate InQueue(queue: seq<ConnId>, n: nat) {
    exists i :: 0 <= i < |queue| && queue[i].number == n
  }

  predicate OnPath(probing: map<nat, ConnId>, n: nat) {
    exists p :: p in probing && probing[p].number == n
  }

  predicate ExactlyOne(a: bool, b: bool, c: bool, d: bool) {
    (a && !b && !c && !d) || (!a && b && !c && !d) || (!a && !b && c && !d) || (!a && !b && !c && d)
  }

  /** Each delivered number is active, queued, on one path, or retired with one frame; no other number is anywhere. */
  ghost predicate Partition(active: nat, queue: seq<ConnId>, probing: map<nat, ConnId>, retired: multiset<nat>,
                            delivered: set<nat>) {
    && (forall n: nat :: n in delivered ==>
         ExactlyOne(n == active, InQueue(queue, n), OnPath(probing, n), n in retired))
    && (forall n: nat :: n !in delivered ==> n != active && !InQueue(queue, n) && !OnPath(probing, n) && n !in retired)
    && (forall n: nat :: retired[n] <= 1)
    && (forall p, q :: p in probing && q in probing && probing[p].number == probing[q].number ==> p == q)
  }

  /** The queue is strictly increasing and above low. */
  predicate Sorted(queue: seq<ConnId>, low: int) {
    && (forall i, j :: 0 <= i < j < |queue| ==> queue[i].number < queue[j].number)
    && (forall i :: 0 <= i < |queue| ==> queue[i].number > low)
  }

  // ------------------------------------------------------------ reset tokens

  function PathsWith(probing: map<nat, ConnId>, token: nat): set<nat> {
    set p | p in probing && probing[p].token == token
  }

  /** Registrations minus removals: the active connection ID's token and those of the paths. */
  ghost predicate Balanced(added: multiset<nat>, removed: multiset<nat>, activeToken: Option<nat>,
                           probing: map<nat, ConnId>) {
    forall t: nat :: added[t] == removed[t] + (if activeToken == Some(t) then 1 else 0) + |PathsWith(probing, t)|
  }

  lemma PathAdded(probing: map<nat, ConnId>, p: nat, e: ConnId, t: nat)
    requires p !in probing
    ensures |PathsWith(probing[p := e], t)| == |PathsWith(probing, t)| + if e.token == t then 1 else 0
  {
    assert PathsWith(probing[p := e], t) == PathsWith(probing, t) + if e.token == t then {p} else {};
  }

  lemma PathRemoved(probing: map<nat, ConnId>, p: nat, t: nat)
    requires p in probing
    ensures |PathsWith(probing - {p}, t)| + (if probing[p].token == t then 1 else 0) == |PathsWith(probing, t)|
  {
    assert PathsWith(probing - {p}, t) == PathsWith(probing, t) - {p};
  }

  lemma BalancedWithPath(added: multiset<nat>, removed: multiset<nat>, activeToken: Option<nat>,
                         probing: map<nat, ConnId>, p: nat, e: ConnId)
    requires Balanced(added, removed, activeToken, probing) && p !in probing
    ensures Balanced(added + multiset{e.token}, removed, activeToken, probing[p := e])
  {
    forall t: nat
      ensures (added + multiset{e.token})[t] ==
        removed[t] + (if activeToken == Some(t) then 1 else 0) + |PathsWith(probing[p := e], t)|
    {
      PathAdded(probing, p, e, t);
    }
  }

  lemma BalancedWithoutPath(added: multiset<nat>, removed: multiset<nat>, activeToken: Option<nat>,
                            probing: map<nat, ConnId>, p: nat)
    requires Balanced(added, removed, activeToken, probing) && p in probing
    ensures Balanced(added, removed + multiset{probing[p].token}, activeToken, probing - {p})
  {
    forall t: nat
      ensures added[t] ==
        (removed + multiset{probing[p].token})[t] + (if activeToken == Some(t) then 1 else 0)
        + |PathsWith(probing - {p}, t)|
    {
      PathRemoved(probing, p, t);
    }
  }

  lemma BalancedEmpty(added: multiset<nat>, removed: multiset<nat>)
    requires Balanced(added, removed, None, map[])
    ensures added == removed
  {
  }

  // ------------------------------------------------------------ moving one number

  lemma QueueTail(queue: seq<ConnId>, low: int)
    requires queue != [] && Sorted(queue, low)
    ensures Sorted(queue[1..], queue[0].number)
    ensures forall n: nat :: InQueue(queue, n) <==> n == queue[0].number || InQueue(queue[1..], n)
    ensures !InQueue(queue[1..], queue[0].number)
    ensures queue[0].number > low
  {
  }

  /** The active connection ID is retired and the first queued one takes its place. */
  lemma RotatePartition(active: nat, queue: seq<ConnId>, probing: map<nat, ConnId>, retired: multiset<nat>,
                        delivered: set<nat>, low: int)
    requires Partition(active, queue, probing, retired, delivered) && queue != [] && Sorted(queue, low)
    ensures Partition(queue[0].number, queue[1..], probing, retired + multiset{active}, delivered)
  {
  }

  lemma PathTakesPartition(active: nat, queue: seq<ConnId>, probing: map<nat, ConnId>, retired: multiset<nat>,
                           delivered: set<nat>, low: int, p: nat)
    requires Partition(active, queue, probing, retired, delivered) && queue != [] && Sorted(queue, low) && p !in probing
    ensures Partition(active, queue[1..], probing[p := queue[0]], retired, delivered)
  {
    hide InQueue, OnPath;
    QueueTail(queue, low);
    var front := queue[0].number;
    assert InQueue(queue, front) && front in delivered;
    NewPath(probing, p, queue[0]);
    assert !OnPath(probing, front);
    NotOnPath(probing, front);
  }

  lemma NewPath(probing: map<nat, ConnId>, p: nat, e: ConnId)
    requires p !in probing
    ensures forall n: nat :: OnPath(probing[p := e], n) <==> OnPath(probing, n) || n == e.number
  {
    forall n: nat
      ensures OnPath(probing[p := e], n) <==> OnPath(probing, n) || n == e.number
    {
      if OnPath(probing, n) {
        var q :| q in probing && probing[q].number == n;
        assert q in probing[p := e] && probing[p := e][q].number == n;
      }
      if n == e.number { assert p in probing[p := e] && probing[p := e][p].number == n; }
    }
  }

  lemma NotOnPath(probing: map<nat, ConnId>, n: nat)
    requires !OnPath(probing, n)
    ensures forall q :: q in probing ==> probing[q].number != n
  {
  }

  lemma GonePath(probing: map<nat, ConnId>, p: nat)
    requires p in probing
    requires forall q :: q in probing && probing[q].number == probing[p].number ==> p == q
    ensures forall n: nat :: OnPath(probing - {p}, n) <==> OnPath(probing, n) && n != probing[p].number
    ensures OnPath(probing, probing[p].number)
  {
    forall n: nat
      ensures OnPath(probing - {p}, n) <==> OnPath(probing, n) && n != probing[p].number
    {
      if OnPath(probing, n) && n != probing[p].number {
        var q :| q in probing && probing[q].number == n;
        assert q in probing - {p};
      }
    }
  }

  lemma PathRetiresPartition(active: nat, queue: seq<ConnId>, probing: map<nat, ConnId>, retired: multiset<nat>,
                             delivered: set<nat>, p: nat)
    requires Partition(active, queue, probing, retired, delivered) && p in probing
    ensures Partition(active, queue, probing - {p}, retired + multiset{probing[p].number}, delivered)
  {
    hide InQueue, OnPath;
    GonePath(probing, p);
    var n := probing[p].number;
    assert n in delivered;
  }

  /** Retiring a number at once when it is delivered is right if and only if it was never delivered before. */
  lemma RefusePartition(active: nat, queue: seq<ConnId>, probing: map<nat, ConnId>, retired: multiset<nat>,
                        delivered: set<nat>, n: nat)
    requires Partition(active, queue, probing, retired, delivered)
    ensures Partition(active, queue, probing, retired + multiset{n}, delivered + {n}) <==> n !in delivered
  {
  }

  lemma Inserted(queue: seq<ConnId>, e: ConnId, i: nat)
    requires i <= |queue|
    ensures forall n: nat :: InQueue(queue[..i] + [e] + queue[i..], n) <==> InQueue(queue, n) || n == e.number
  {
    var q := queue[..i] + [e] + queue[i..];
    assert q[i] == e;
    forall n: nat
      ensures InQueue(q, n) <==> InQueue(queue, n) || n == e.number
    {
      if InQueue(queue, n) {
        var k :| 0 <= k < |queue| && queue[k].number == n;
        assert q[if k < i then k else k + 1].number == n;
      }
      if InQueue(q, n) {
        var k :| 0 <= k < |q| && q[k].number == n;
        if k != i { assert queue[if k < i then k else k - 1].number == n; }
      }
    }
  }

  lemma InsertedSorted(queue: seq<ConnId>, e: ConnId, i: nat, low: int)
    requires i <= |queue| && Sorted(queue, low) && e.number > low
    requires (forall k :: 0 <= k < i ==> queue[k].number < e.number) &&
      (forall k :: i <= k < |queue| ==> e.number < queue[k].number)
    ensures Sorted(queue[..i] + [e] + queue[i..], low)
  {
  }

  /** Queueing a number, at any position, is right if and only if it was never delivered before. */
  lemma InsertPartition(active: nat, queue: seq<ConnId>, probing: map<nat, ConnId>, retired: multiset<nat>,
                        delivered: set<nat>,
                        e: ConnId, i: nat)
    requires Partition(active, queue, probing, retired, delivered) && !InQueue(queue, e.number) && i <= |queue|
    ensures Partition(active, queue[..i] + [e] + queue[i..], probing, retired, delivered + {e.number}) <==>
      e.number !in delivered
  {
    hide OnPath, InQueue;
    Inserted(queue, e, i);
    var n := e.number;
    if n in delivered {
      assert ExactlyOne(n == active, InQueue(queue, n), OnPath(probing, n), n in retired);
      assert InQueue(queue[..i] + [e] + queue[i..], n);
    }
  }

  lemma Removed(kept: seq<ConnId>, rest: seq<ConnId>, low: int)
    requires rest != [] && Sorted(kept + rest, low)
    ensures forall n: nat :: InQueue(kept + rest[1..], n) <==> InQueue(kept + rest, n) && n != rest[0].number
    ensures InQueue(kept + rest, rest[0].number)
  {
    var queue, q, i := kept + rest, kept + rest[1..], |kept|;
    assert queue[i] == rest[0];
    forall n: nat
      ensures InQueue(q, n) <==> InQueue(queue, n) && n != rest[0].number
    {
      if InQueue(queue, n) && n != rest[0].number {
        var k :| 0 <= k < |queue| && queue[k].number == n;
        assert q[if k < i then k else k - 1].number == n;
      }
      if InQueue(q, n) {
        var k :| 0 <= k < |q| && q[k].number == n;
        assert queue[if k < i then k else k + 1].number == n;
      }
    }
  }

  lemma RemovedSorted(kept: seq<ConnId>, rest: seq<ConnId>, low: int)
    requires rest != [] && Sorted(kept + rest, low)
    ensures Sorted(kept + rest[1..], low)
  {
    var queue, q := kept + rest, kept + rest[1..];
    assert forall k :: 0 <= k < |q| ==> q[k] == queue[if k < |kept| then k else k + 1];
  }

  /** The first number of rest leaves the queue and is retired. */
  lemma RetireQueuedPartition(active: nat, probing: map<nat, ConnId>, retired: multiset<nat>, delivered: set<nat>,
                              kept: seq<ConnId>, rest: seq<ConnId>, low: int)
    requires rest != [] && Sorted(kept + rest, low)
    requires Partition(active, kept + rest, probing, retired, delivered)
    ensures Partition(active, kept + rest[1..], probing, retired + multiset{rest[0].number}, delivered)
    ensures Sorted(kept + rest[1..], low)
  {
    hide OnPath, InQueue, Sorted;
    Removed(kept, rest, low);
    RemovedSorted(kept, rest, low);
  }

  // ------------------------------------------------------------ the manager

  /** Each number is in one place, the queue is in order and ahead of what is used, the tokens balance. */
  ghost predicate CoreOf(active: nat, highestProbing: nat, queue: seq<ConnId>, probing: map<nat, ConnId>,
                         retired: multiset<nat>,
                         delivered: set<nat>, added: multiset<nat>, removed: multiset<nat>, activeToken: Option<nat>) {
    && Partition(active, queue, probing, retired, delivered)
    && Sorted(queue, Max(active, highestProbing))
    && highestProbing in delivered
    && Balanced(added, removed, activeToken, probing)
  }

  lemma RotateCore(active: nat, highestProbing: nat, queue: seq<ConnId>, probing: map<nat, ConnId>,
                   retired: multiset<nat>,
                   delivered: set<nat>, added: multiset<nat>, removed: multiset<nat>, activeToken: Option<nat>)
    requires CoreOf(active, highestProbing, queue, probing, retired, delivered, added, removed, activeToken) &&
      queue != []
    ensures queue[0].number > active
    ensures CoreOf(queue[0].number, highestProbing, queue[1..], probing, Plus(retired, active), delivered,
                   Plus(added, queue[0].token), removed + Tokens(activeToken), Some(queue[0].token))
  {
    hide Partition, Balanced, Sorted, InQueue, OnPath, PathsWith;
    var low := Max(active, highestProbing);
    QueueTail(queue, low);
    RotatePartition(active, queue, probing, retired, delivered, low);
    RotateBalance(added, removed, activeToken, probing, queue[0].token);
  }

  lemma RotateBoth(active: nat, highestProbing: nat, queue: seq<ConnId>, probing: map<nat, ConnId>,
                   retired: multiset<nat>, delivered: set<nat>, added: multiset<nat>, removed: multiset<nat>,
                   activeToken: Option<nat>, issued: map<nat, ConnId>, id: seq<byte>)
    requires queue != []
    ensures CoreOf(active, highestProbing, queue, probing, retired, delivered, added, removed, activeToken) ==>
      && queue[0].number > active
      && CoreOf(queue[0].number, highestProbing, queue[1..], probing, Plus(retired, active), delivered,
                Plus(added, queue[0].token), removed + Tokens(activeToken), Some(queue[0].token))
    ensures GenuineOf(issued, delivered, active, id, activeToken, queue, probing) ==>
      GenuineOf(issued, delivered, queue[0].number, queue[0].id, Some(queue[0].token), queue[1..], probing)
  {
    hide CoreOf, GenuineOf;
    if CoreOf(active, highestProbing, queue, probing, retired, delivered, added, removed, activeToken) {
      RotateCore(active, highestProbing, queue, probing, retired, delivered, added, removed, activeToken);
    }
    if GenuineOf(issued, delivered, active, id, activeToken, queue, probing) {
      RotateGenuine(issued, delivered, active, id, activeToken, queue, probing);
    }
  }

  function Plus(m: multiset<nat>, x: nat): multiset<nat> { m + multiset{x} }

  function Tokens(token: Option<nat>): multiset<nat> {
    if token.Some? then multiset{token.value} else multiset{}
  }

  lemma RotateBalance(added: multiset<nat>, removed: multiset<nat>, activeToken: Option<nat>,
                      probing: map<nat, ConnId>, token: nat)
    requires Balanced(added, removed, activeToken, probing)
    ensures Balanced(added + multiset{token}, removed + Tokens(activeToken), Some(token), probing)
  {
  }

  /** Every connection ID in use, queued or on a path is the one that was issued under its number. */
  ghost predicate GenuineOf(issued: map<nat, ConnId>, delivered: set<nat>, active: nat, id: seq<byte>,
                            token: Option<nat>,
                            queue: seq<ConnId>, probing: map<nat, ConnId>) {
    && issued.Keys == delivered
    && active in issued && id == issued[active].id && (active != 0 ==> token == Some(issued[active].token))
    && (forall c :: c in queue ==> c.number in issued && issued[c.number] == c)
    && (forall p :: p in probing ==> probing[p].number in issued && issued[probing[p].number] == probing[p])
  }

  lemma FewerGenuine(issued: map<nat, ConnId>, delivered: set<nat>, active: nat, id: seq<byte>, token: Option<nat>,
                     queue: seq<ConnId>, probing: map<nat, ConnId>, queue': seq<ConnId>, probing': map<nat, ConnId>)
    requires GenuineOf(issued, delivered, active, id, token, queue, probing)
    requires (forall c :: c in queue' ==> c in queue)
    requires (forall p :: p in probing' ==> p in probing && probing'[p] == probing[p])
    ensures GenuineOf(issued, delivered, active, id, token, queue', probing')
  {
  }

  /** A new number. */
  lemma OneMoreGenuine(issued: map<nat, ConnId>, delivered: set<nat>, active: nat, id: seq<byte>, token: Option<nat>,
                       queue: seq<ConnId>, probing: map<nat, ConnId>, e: ConnId, queue': seq<ConnId>)
    requires GenuineOf(issued, delivered, active, id, token, queue, probing) && e.number !in delivered
    requires (forall c :: c in queue' ==> c in queue || c == e)
    ensures GenuineOf(issued[e.number := e], delivered + {e.number}, active, id, token, queue', probing)
  {
  }

  lemma RotateGenuine(issued: map<nat, ConnId>, delivered: set<nat>, active: nat, id: seq<byte>, token: Option<nat>,
                      queue: seq<ConnId>, probing: map<nat, ConnId>)
    requires GenuineOf(issued, delivered, active, id, token, queue, probing) && queue != []
    ensures GenuineOf(issued, delivered, queue[0].number, queue[0].id, Some(queue[0].token), queue[1..], probing)
  {
    assert queue[0] in queue;
  }

  lemma PathGenuine(issued: map<nat, ConnId>, delivered: set<nat>, active: nat, id: seq<byte>, token: Option<nat>,
                    queue: seq<ConnId>, probing: map<nat, ConnId>, path: nat)
    requires GenuineOf(issued, delivered, active, id, token, queue, probing) && queue != []
    ensures GenuineOf(issued, delivered, active, id, token, queue[1..], probing[path := queue[0]])
  {
    assert queue[0] in queue;
  }

  class ConnIdManager {
    var queue: seq<ConnId>
    var highestProbingID: nat
    var pathProbing: map<nat, ConnId>
    var handshakeComplete: bool
    var activeSequenceNumber: nat
    var highestRetired: nat
    var activeConnectionID: seq<byte>
    var activeToken: Option<nat>
    var packetsSinceLastChange: nat
    var packetsPerConnectionID: nat
    var closed: bool

    /** RETIRE_CONNECTION_ID frames queued, reset tokens registered and removed. */
    var retired: multiset<nat>
    var added: multiset<nat>
    var removed: multiset<nat>
    /** The sequence numbers the peer has issued so far; 0 is implicit. */
    ghost var delivered: set<nat>
    /** What was issued under each number first. */
    ghost var issued: map<nat, ConnId>

    function Low(): nat
      reads this`activeSequenceNumber, this`highestProbingID
    {
      Max(activeSequenceNumber, highestProbingID)
    }

    /** Everything but the relation of the active number to highestRetired. */
    ghost predicate Core()
      reads this
    {
      CoreOf(activeSequenceNumber, highestProbingID, queue, pathProbing, retired, delivered, added, removed,
             activeToken) && !closed
    }

    ghost predicate Valid()
      reads this
    {
      Core() && Genuine() && highestRetired <= activeSequenceNumber
    }

    ghost predicate Genuine()
      reads this
    {
      GenuineOf(issued, delivered, activeSequenceNumber, activeConnectionID, activeToken, queue, pathProbing)
    }

    constructor (initialDestConnID: seq<byte>)
      ensures Valid() && delivered == {0} && queue == [] && retired == multiset{}
      ensures Low() == activeSequenceNumber == 0 && activeToken == None && activeConnectionID == initialDestConnID
      ensures issued.Keys == {0} && issued[0].id == initialDestConnID
    {
      queue, highestProbingID, pathProbing, handshakeComplete := [], 0, map[], false;
      activeSequenceNumber, highestRetired, activeConnectionID, activeToken := 0, 0, initialDestConnID, None;
      packetsSinceLastChange, packetsPerConnectionID, closed := 0, 0, false;
      retired, added, removed, delivered := multiset{}, multiset{}, multiset{}, {0};
      issued := map[0 := ConnId(0, initialDestConnID, 0)];
      new;
      assert forall t: nat :: PathsWith(map[], t) == {};
    }

    // ---------------------------------------------------------- adding

    /** i is where it was inserted, if it was not there yet. */
    method AddConnectionID(e: ConnId) returns (err: Option<AddError>, ghost i: nat)
      requires Sorted(queue, Low())
      modifies this`queue
      ensures !InQueue(old(queue), e.number) ==>
        && err == None && i <= |old(queue)| && queue == old(queue)[..i] + [e] + old(queue)[i..]
        && (forall k :: 0 <= k < i ==> old(queue)[k].number < e.number)
        && (forall k :: i <= k < |old(queue)| ==> e.number < old(queue)[k].number)
      ensures InQueue(old(queue), e.number) ==> queue == old(queue) && (err == None <==> e in queue)
      ensures err in {None, Some(Conflict)}
    {
      i := |queue|;
      if |queue| == 0 || queue[|queue| - 1].number < e.number {
        queue := queue + [e];
        assert old(queue)[..i] + [e] + old(queue)[i..] == queue;
        return None, i;
      }
      for k := 0 to |queue|
        invariant queue == old(queue)
        invariant forall j :: 0 <= j < k ==> queue[j].number < e.number
      {
        if queue[k].number == e.number {
          assert InQueue(queue, e.number);
          if queue[k].id != e.id || queue[k].token != e.token { return Some(Conflict), k; }
          return None, k;
        }
        if queue[k].number > e.number {
          queue := queue[..k] + [e] + queue[k..];
          return None, k;
        }
      }
      assert false;
    }

    /** Retires the connection IDs of paths below priorTo, in any order. */
    method RetirePaths(priorTo: nat)
      requires Core()
      modifies this`pathProbing, this`retired, this`removed
      ensures Core()
      ensures forall p :: p in pathProbing <==> p in old(pathProbing) && old(pathProbing)[p].number >= priorTo
      ensures forall p :: p in pathProbing ==> pathProbing[p] == old(pathProbing)[p]
      ensures old(retired) <= retired && forall n: nat :: n in retired ==> n in old(retired) || n < priorTo
      ensures old(Genuine()) ==> Genuine()
    {
      hide Partition, Balanced, Sorted, GenuineOf;
      ghost var paths := pathProbing;
      var todo := pathProbing.Keys;
      while todo != {}
        invariant Core() && todo <= pathProbing.Keys
        invariant forall p :: p in pathProbing <==>
          p in old(pathProbing) && (p in todo || old(pathProbing)[p].number >= priorTo)
        invariant forall p :: p in pathProbing ==> pathProbing[p] == old(pathProbing)[p]
        invariant old(retired) <= retired && forall n: nat :: n in retired ==> n in old(retired) || n < priorTo
        decreases todo
      {
        var p :| p in todo;
        if pathProbing[p].number < priorTo { RetirePath(p); }
        todo := todo - {p};
      }
      if old(Genuine()) {
        FewerGenuine(issued, delivered, activeSequenceNumber, activeConnectionID, activeToken, queue, paths, queue,
                     pathProbing);
      }
    }

    method RetirePath(p: nat)
      requires Core() && p in pathProbing
      modifies this`pathProbing, this`retired, this`removed
      ensures Core() && pathProbing == old(pathProbing) - {p}
      ensures retired == old(retired) + multiset{old(pathProbing)[p].number}
    {
      hide Partition, Balanced, Sorted;
      PathRetiresPartition(activeSequenceNumber, queue, pathProbing, retired, delivered, p);
      BalancedWithoutPath(added, removed, activeToken, pathProbing, p);
      retired := retired + multiset{pathProbing[p].number};
      removed := removed + multiset{pathProbing[p].token};
      pathProbing := pathProbing - {p};
    }

    /** Retires the queued connection IDs below priorTo, but not the active one. */
    method RetireQueued(priorTo: nat)
      requires Core()
      modifies this`queue, this`retired
      ensures Core()
      ensures forall k :: 0 <= k < |queue| ==> queue[k].number >= priorTo
      ensures forall n: nat :: InQueue(old(queue), n) && n >= priorTo ==> InQueue(queue, n)
      ensures forall c :: c in queue <==> c in old(queue) && c.number >= priorTo
      ensures old(retired) <= retired && forall n: nat :: n in retired ==> n in old(retired) || n < priorTo
      ensures old(Genuine()) ==> Genuine()
    {
      hide Partition, Balanced, Sorted, InQueue, GenuineOf;
      var newQueue: seq<ConnId> := [];
      var frames := retired;
      assert [] + queue[0..] == queue;
      for i := 0 to |queue|
        invariant queue == old(queue)
        invariant Partition(activeSequenceNumber, newQueue + queue[i..], pathProbing, frames, delivered)
        invariant Sorted(newQueue + queue[i..], Low())
        invariant forall k :: 0 <= k < |newQueue| ==> newQueue[k].number >= priorTo
        invariant forall c :: c in newQueue <==> c in queue[..i] && c.number >= priorTo
        invariant forall n: nat :: InQueue(queue, n) && n >= priorTo ==> InQueue(newQueue + queue[i..], n)
        invariant old(retired) <= frames && forall n: nat :: n in frames ==> n in old(retired) || n < priorTo
      {
        assert queue[i..][1..] == queue[i + 1..] && queue[..i + 1] == queue[..i] + [queue[i]];
        if queue[i].number >= priorTo {
          assert newQueue + queue[i..] == newQueue + [queue[i]] + queue[i + 1..];
          newQueue := newQueue + [queue[i]];
        } else {
          RetireQueuedPartition(activeSequenceNumber, pathProbing, frames, delivered, newQueue, queue[i..], Low());
          Removed(newQueue, queue[i..], Low());
          frames := frames + multiset{queue[i].number};
        }
      }
      assert newQueue + queue[|queue|..] == newQueue && queue[..|queue|] == queue;
      if Genuine() {
        FewerGenuine(issued, delivered, activeSequenceNumber, activeConnectionID, activeToken, queue, pathProbing,
                     newQueue, pathProbing);
      }
      queue, retired := newQueue, frames;
    }

    /** Makes the first queued connection ID the active one. */
    method UpdateConnectionID(interval: nat)
      requires queue != []
      modifies this`retired, this`added, this`removed, this`highestRetired, this`activeSequenceNumber, this`queue,
               this`activeConnectionID, this`activeToken, this`packetsSinceLastChange, this`packetsPerConnectionID
      ensures old(Core()) ==> Core() && activeSequenceNumber > old(activeSequenceNumber)
      ensures old(Core() && Genuine() && queue[0].number >= highestRetired) ==> Valid()
      ensures activeSequenceNumber == old(queue)[0].number
      ensures activeConnectionID == old(queue)[0].id && activeToken == Some(old(queue)[0].token)
      ensures queue == old(queue)[1..] && retired == Plus(old(retired), old(activeSequenceNumber))
      ensures highestRetired == Max(old(highestRetired), old(activeSequenceNumber))
      ensures packetsSinceLastChange == 0 && packetsPerConnectionID == PACKETS_PER_CONNECTION_ID / 2 + interval
    {
      hide CoreOf, Tokens, Plus, GenuineOf;
      RotateBoth(activeSequenceNumber, highestProbingID, queue, pathProbing, retired, delivered, added, removed,
                 activeToken, issued, activeConnectionID);
      var front := queue[0];
      retired, highestRetired := Plus(retired, activeSequenceNumber), Max(highestRetired, activeSequenceNumber);
      removed, added := removed + Tokens(activeToken), Plus(added, front.token);
      Install(front, queue[1..], PACKETS_PER_CONNECTION_ID / 2 + interval);
    }

    method Install(front: ConnId, rest: seq<ConnId>, interval: nat)
      modifies this`activeSequenceNumber, this`queue, this`activeConnectionID, this`activeToken,
               this`packetsSinceLastChange,
               this`packetsPerConnectionID
      ensures activeSequenceNumber == front.number && queue == rest && activeConnectionID == front.id &&
        activeToken == Some(front.token)
      ensures packetsSinceLastChange == 0 && packetsPerConnectionID == interval
    {
      queue, activeSequenceNumber, activeConnectionID, activeToken := rest, front.number, front.id, Some(front.token);
      packetsSinceLastChange, packetsPerConnectionID := 0, interval;
    }

    /**
     The frame is the first one for its number, or repeats that of a queued connection ID, or that
     of the active one while no path probes a later one.
     */
    ghost predicate Acceptable(e: ConnId)
      reads this
    {
      e.number in delivered ==> e.number == activeSequenceNumber == Low() || InQueue(queue, e.number)
    }

    /**
     A NEW_CONNECTION_ID frame; interval is the random part of how long a new active ID is kept. The books
     stay right if and only if the frame is acceptable.
     */
    method Add(e: ConnId, retirePriorTo: nat, interval: nat) returns (err: Option<AddError>)
      requires Valid() && retirePriorTo <= e.number
      modifies this
      ensures Core() <==> old(Acceptable(e)) || |old(activeConnectionID)| == 0
      ensures old(Acceptable(e)) && err != Some(Conflict) ==> Valid()
      ensures err == Some(ProtocolViolation) <==> |old(activeConnectionID)| == 0
      ensures err == Some(ProtocolViolation) ==> Valid() && delivered == old(delivered)
      ensures err != Some(ProtocolViolation) ==> delivered == old(delivered) + {e.number}
      ensures err == Some(Conflict) <==>
        && |old(activeConnectionID)| > 0 && e.number >= old(Max(Low(), highestRetired))
        && old(InQueue(queue, e.number) && e !in queue)
      ensures err == Some(ConnectionIDLimitError) <==>
        |old(activeConnectionID)| > 0 && err != Some(Conflict) && |queue| >= MAX_ACTIVE_CONNECTION_IDS
      ensures err != Some(ProtocolViolation) ==>
        issued == if e.number in old(issued) then old(issued) else old(issued)[e.number := e]
      ensures err == Some(ProtocolViolation) ==> issued == old(issued)
      ensures old(activeSequenceNumber) >= retirePriorTo ==> activeSequenceNumber == old(activeSequenceNumber)
      ensures e.number < old(Max(Low(), highestRetired)) && |old(activeConnectionID)| > 0 ==>
        e.number in retired && queue == old(queue)
      ensures e.number >= old(Max(Low(), highestRetired)) && err != Some(ProtocolViolation) ==>
        && highestRetired == Max(old(highestRetired), retirePriorTo)
        && (e.number == activeSequenceNumber || InQueue(queue, e.number))
        && (forall p :: p in pathProbing <==> p in old(pathProbing) && old(pathProbing)[p].number >= retirePriorTo)
        && (forall n: nat :: n in retired ==> n in old(retired) || n < retirePriorTo)
    {
      hide Partition, Balanced, Sorted, InQueue, GenuineOf;
      GenuineKeys();
      if |activeConnectionID| == 0 { return Some(ProtocolViolation); }
      if e.number < Max(activeSequenceNumber, highestProbingID) || e.number < highestRetired {
        LowIsNew(e);
        RefusePartition(activeSequenceNumber, queue, pathProbing, retired, delivered, e.number);
        if e.number !in delivered {
          OneMoreGenuine(issued, delivered, activeSequenceNumber, activeConnectionID, activeToken, queue, pathProbing,
                         e, queue);
        }
        retired := retired + multiset{e.number};
        delivered := delivered + {e.number};
        if e.number !in issued { issued := issued[e.number := e]; }
      } else {
        err := AddNew(e, retirePriorTo, interval);
        if err != None { return; }
      }
      return if |queue| >= MAX_ACTIVE_CONNECTION_IDS then Some(ConnectionIDLimitError) else None;
    }

    lemma ActiveNotQueued()
      requires Core()
      ensures !InQueue(queue, activeSequenceNumber)
    {
    }

    lemma GenuineKeys()
      requires Genuine()
      ensures issued.Keys == delivered && activeSequenceNumber in issued
      ensures forall c :: c in queue ==> c.number in delivered
    {
    }

    lemma LowIsNew(e: ConnId)
      requires Valid() && (e.number < Low() || e.number < highestRetired)
      ensures Acceptable(e) <==> e.number !in delivered
    {
    }

    lemma AboveLow(n: nat)
      requires Core() && n >= Low()
      ensures activeSequenceNumber in delivered
      ensures n !in delivered ==> n > Low()
    {
    }

    /** A number that can be queued: one that is there already, or a new one above all that are in use. */
    ghost predicate Queueable(n: nat)
      reads this
    {
      InQueue(queue, n) || (n !in delivered && n > Low())
    }

    method Enqueue(e: ConnId) returns (err: Option<AddError>)
      requires Core() && Genuine()
      modifies this`queue, this`delivered, this`issued
      ensures Core() <==> old(Queueable(e.number))
      ensures old(Queueable(e.number)) ==> Genuine()
      ensures issued == if e.number in old(issued) then old(issued) else old(issued)[e.number := e]
      ensures delivered == old(delivered) + {e.number} && InQueue(queue, e.number)
      ensures forall k :: 0 <= k < |queue| ==> queue[k] in old(queue) || queue[k] == e
      ensures err in {None, Some(Conflict)} &&
        (err == Some(Conflict) ==> queue == old(queue) && e.number in old(delivered) && old(Queueable(e.number)))
      ensures err == Some(Conflict) <==> old(InQueue(queue, e.number) && e !in queue)
    {
      hide Partition, Balanced, Sorted, InQueue, GenuineOf;
      GenuineKeys();
      ghost var before := queue;
      ghost var i;
      QueuedIsDelivered(e.number);
      err, i := AddConnectionID(e);
      if !InQueue(before, e.number) {
        InsertPartition(activeSequenceNumber, before, pathProbing, retired, delivered, e, i);
        if e.number > Low() { InsertedSorted(before, e, i, Low()); } else { NotAboveLow(e.number); }
        Inserted(before, e, i);
        if e.number !in delivered {
          OneMoreGenuine(issued, delivered, activeSequenceNumber, activeConnectionID, activeToken, before, pathProbing,
                         e, queue);
        }
      }
      delivered := delivered + {e.number};
      if e.number !in issued { issued := issued[e.number := e]; }
    }

    lemma NotAboveLow(n: nat)
      ensures InQueue(queue, n) && n <= Low() ==> !Sorted(queue, Low())
    {
    }

    lemma QueuedIsDelivered(n: nat)
      requires Core()
      ensures InQueue(queue, n) ==> n in delivered && delivered + {n} == delivered
    {
    }

    /** The peer wants everything below priorTo retired; the active connection ID has to wait for its successor. */
    method RetirePriorTo(priorTo: nat)
      requires Valid()
      modifies this`pathProbing, this`queue, this`retired, this`removed, this`highestRetired
      ensures Core() && highestRetired == Max(old(highestRetired), priorTo)
      ensures forall k :: 0 <= k < |queue| ==> queue[k].number >= highestRetired
      ensures forall n: nat :: InQueue(old(queue), n) && n >= priorTo ==> InQueue(queue, n)
      ensures forall p :: p in pathProbing <==> p in old(pathProbing) && old(pathProbing)[p].number >= priorTo
      ensures forall p :: p in pathProbing ==> pathProbing[p] == old(pathProbing)[p]
      ensures forall c :: c in queue <==> c in old(queue) && c.number >= priorTo
      ensures old(retired) <= retired && forall n: nat :: n in retired ==> n in old(retired) || n < priorTo
      ensures Genuine()
    {
      hide Partition, Balanced, InQueue, GenuineOf;
      if priorTo != 0 { RetirePaths(priorTo); }
      if priorTo > highestRetired {
        RetireQueued(priorTo);
        highestRetired := priorTo;
      }
    }

    /** In use or waiting to be used, and on a path or given back as well. */
    ghost predicate Doubled(n: nat)
      reads this
    {
      (n == activeSequenceNumber || InQueue(queue, n)) && (OnPath(pathProbing, n) || n in retired)
    }

    lemma DoubledBreaksPartition(n: nat)
      requires Doubled(n)
      ensures !Core()
    {
    }

    /** A connection ID that is not outdated: it makes the peer's retirements take effect and is queued. */
    method AddNew(e: ConnId, retirePriorTo: nat, interval: nat) returns (err: Option<AddError>)
      requires Valid() && retirePriorTo <= e.number && e.number >= Low() && e.number >= highestRetired
      modifies this
      ensures Core() <==> old(Acceptable(e))
      ensures old(Acceptable(e)) && err == None ==> Valid()
      ensures delivered == old(delivered) + {e.number}
      ensures highestRetired == Max(old(highestRetired), retirePriorTo)
      ensures e.number == activeSequenceNumber || InQueue(queue, e.number)
      ensures err in {None, Some(Conflict)} && (err == Some(Conflict) <==> old(InQueue(queue, e.number) && e !in queue))
      ensures issued == if e.number in old(issued) then old(issued) else old(issued)[e.number := e]
      ensures forall p :: p in pathProbing <==> p in old(pathProbing) && old(pathProbing)[p].number >= retirePriorTo
      ensures forall n: nat :: n in retired ==> n in old(retired) || n < retirePriorTo
      ensures old(activeSequenceNumber) >= retirePriorTo ==> activeSequenceNumber == old(activeSequenceNumber)
    {
      hide CoreOf, InQueue, OnPath, GenuineOf;
      GenuineKeys();
      ActiveNotQueued();
      StillQueued(queue, e, retirePriorTo);
      DeliveredAbove(e);
      ghost var paths, fine := pathProbing, Acceptable(e);
      RetirePriorTo(retirePriorTo);
      if !fine { StillOnPath(paths, e.number); }
      AboveLow(e.number);
      if e.number == activeSequenceNumber {
        assert delivered + {e.number} == delivered;
        return None;
      }
      err := QueueAndSwitch(e, retirePriorTo, interval);
    }

    /** Queues it, and makes the front of the queue active if the active one has to go. */
    method QueueAndSwitch(e: ConnId, retirePriorTo: nat, interval: nat) returns (err: Option<AddError>)
      requires Core() && Genuine() && e.number != activeSequenceNumber && retirePriorTo <= highestRetired <= e.number
      requires forall k :: 0 <= k < |queue| ==> queue[k].number >= highestRetired
      requires highestRetired <= Max(activeSequenceNumber, retirePriorTo)
      requires Queueable(e.number) || OnPath(pathProbing, e.number) || e.number in retired
      modifies this
      ensures Core() <==> old(Queueable(e.number))
      ensures old(Queueable(e.number)) && err == None ==> Valid()
      ensures delivered == old(delivered) + {e.number} && pathProbing == old(pathProbing)
      ensures highestRetired == old(highestRetired) && (e.number == activeSequenceNumber || InQueue(queue, e.number))
      ensures err in {None, Some(Conflict)} && (err == Some(Conflict) <==> old(InQueue(queue, e.number) && e !in queue))
      ensures issued == if e.number in old(issued) then old(issued) else old(issued)[e.number := e]
      ensures forall n: nat :: n in retired ==> n in old(retired) || n < retirePriorTo
      ensures old(activeSequenceNumber) >= retirePriorTo ==> activeSequenceNumber == old(activeSequenceNumber)
    {
      hide CoreOf, InQueue, OnPath, GenuineOf;
      ghost var before, fine := queue, Queueable(e.number);
      err := Enqueue(e);
      if !fine { DoubledBreaksPartition(e.number); }
      if err != None { return; }
      if activeSequenceNumber < retirePriorTo {
        FirstOf(queue, e.number);
        assert queue[0] in before || queue[0] == e;
        UpdateConnectionID(interval);
        if !fine { DoubledBreaksPartition(e.number); }
      }
    }

    /** Dropping smaller numbers does not touch the entries of this one. */
    static lemma StillQueued(before: seq<ConnId>, e: ConnId, priorTo: nat)
      requires priorTo <= e.number
      ensures forall after: seq<ConnId> :: (forall c :: c in after <==> c in before && c.number >= priorTo) ==>
        (InQueue(after, e.number) <==> InQueue(before, e.number)) && (e in after <==> e in before)
    {
    }

    /** A delivered number that is neither queued nor active is on a path or retired. */
    lemma DeliveredAbove(e: ConnId)
      requires Core() && e.number >= Low()
      ensures !Acceptable(e) ==>
        e.number != activeSequenceNumber && (OnPath(pathProbing, e.number) || e.number in retired)
    {
    }

    lemma StillOnPath(paths: map<nat, ConnId>, n: nat)
      requires forall p :: p in paths && paths[p].number >= n ==> p in pathProbing && pathProbing[p] == paths[p]
      ensures OnPath(paths, n) ==> OnPath(pathProbing, n)
    {
      if OnPath(paths, n) {
        var p :| p in paths && paths[p].number == n;
        assert p in pathProbing;
      }
    }

    static lemma FirstOf(queue: seq<ConnId>, n: nat)
      requires InQueue(queue, n)
      ensures queue != [] && (n == queue[0].number || InQueue(queue[1..], n))
    {
    }

    /** The connection ID of the server's preferred address, handed over with its transport parameters. */
    method AddFromPreferredAddress(id: seq<byte>, token: nat) returns (err: Option<AddError>)
      requires Valid()
      modifies this`queue, this`delivered, this`issued
      ensures Valid() <==> old(Queueable(1))
      ensures issued == if 1 in old(issued) then old(issued) else old(issued)[1 := ConnId(1, id, token)]
      ensures delivered == old(delivered) + {1} && InQueue(queue, 1)
      ensures err.Some? ==> err == Some(Conflict) && queue == old(queue) && 1 in old(delivered)
    {
      hide CoreOf, InQueue, GenuineOf;
      err := Enqueue(ConnId(1, id, token));
    }

    // ---------------------------------------------------------- using

    /** A second token for the same connection ID is registered as well, and the first one is forgotten. */
    method SetStatelessResetToken(token: nat) returns (panicked: bool)
      requires Valid()
      modifies this`activeToken, this`added
      ensures panicked <==> activeSequenceNumber != 0
      ensures panicked ==> Valid() && activeToken == old(activeToken)
      ensures !panicked ==> activeToken == Some(token) && (Valid() <==> old(activeToken) == None)
    {
      hide Partition, Sorted, PathsWith;
      if activeSequenceNumber != 0 { return true; }
      ghost var before := activeToken;
      activeToken := Some(token);
      added := added + multiset{token};
      if before.Some? {
        var t := before.value;
        assert added[t] > removed[t] + (if token == t then 1 else 0) + |PathsWith(pathProbing, t)|;
      }
      return false;
    }

    /**
     A new ID is wanted as soon as there is one after the handshake, and later with half of them in stock once the
     current one has been used for enough packets.
     */
    method ShouldUpdateConnID() returns (should: bool)
      ensures should <==> SwitchIsDue()
    {
      if !handshakeComplete { return false; }
      if |queue| > 0 && activeSequenceNumber == 0 { return true; }
      return 2 * |queue| >= MAX_ACTIVE_CONNECTION_IDS && packetsSinceLastChange >= packetsPerConnectionID;
    }

    predicate SwitchIsDue()
      reads this
    {
      && handshakeComplete && queue != []
      && (activeSequenceNumber == 0 || (|queue| >= 2 && packetsSinceLastChange >= packetsPerConnectionID))
    }

    /** The connection ID to send with; it changes to the next queued one from time to time. */
    method Get(interval: nat) returns (id: seq<byte>)
      requires Valid()
      modifies this
      ensures Valid() && delivered == old(delivered) && pathProbing == old(pathProbing) && issued == old(issued)
      ensures if old(SwitchIsDue())
              then activeSequenceNumber == old(queue)[0].number && queue == old(queue)[1..]
              else activeSequenceNumber == old(activeSequenceNumber) && queue == old(queue)
      ensures activeSequenceNumber in issued && id == issued[activeSequenceNumber].id
      ensures activeSequenceNumber !in retired
    {
      hide Partition, Balanced, GenuineOf;
      var should := ShouldUpdateConnID();
      if should { UpdateConnectionID(interval); }
      ActiveIsGenuine();
      return activeConnectionID;
    }

    lemma ActiveIsGenuine()
      requires Valid()
      ensures activeSequenceNumber in issued && activeConnectionID == issued[activeSequenceNumber].id
      ensures activeSequenceNumber !in retired
    {
    }

    /** A connection ID for a path: always the same one for one path, never one that is used elsewhere. */
    method GetConnIDForPath(path: nat) returns (id: Option<seq<byte>>)
      requires Valid()
      modifies this`pathProbing, this`queue, this`highestProbingID, this`added
      ensures Valid()
      ensures |activeConnectionID| == 0 ==> id == Some([]) && pathProbing == old(pathProbing) && queue == old(queue)
      ensures |activeConnectionID| > 0 ==>
        && (id.Some? <==> path in old(pathProbing) || old(queue) != [])
        && (id.Some? ==> path in pathProbing && pathProbing[path].number in issued)
        && (id.Some? ==> id.value == issued[pathProbing[path].number].id && pathProbing[path].number !in retired)
        && (path in old(pathProbing) || id == None ==> pathProbing == old(pathProbing) && queue == old(queue))
        && (path !in old(pathProbing) && old(queue) != [] ==>
             pathProbing == old(pathProbing)[path := old(queue)[0]] && queue == old(queue)[1..])
    {
      hide Partition, Balanced, Sorted, GenuineOf;
      if |activeConnectionID| == 0 { return Some([]); }
      if path in pathProbing {
        PathIsGenuine(path);
        return Some(pathProbing[path].id);
      }
      if |queue| == 0 { return None; }
      var front := queue[0];
      PathGenuine(issued, delivered, activeSequenceNumber, activeConnectionID, activeToken, queue, pathProbing, path);
      PathTakesPartition(activeSequenceNumber, queue, pathProbing, retired, delivered, Low(), path);
      BalancedWithPath(added, removed, activeToken, pathProbing, path, front);
      QueueTail(queue, Low());
      FrontDelivered();
      queue := queue[1..];
      pathProbing := pathProbing[path := front];
      highestProbingID := front.number;
      added := added + multiset{front.token};
      PathIsGenuine(path);
      return Some(front.id);
    }

    lemma PathIsGenuine(path: nat)
      requires Valid() && path in pathProbing
      ensures pathProbing[path].number in issued && issued[pathProbing[path].number] == pathProbing[path]
      ensures pathProbing[path].number !in retired
    {
      assert OnPath(pathProbing, pathProbing[path].number);
    }

    lemma FrontDelivered()
      requires Core() && queue != []
      ensures queue[0].number in delivered
    {
    }

    method RetireConnIDForPath(path: nat)
      requires Valid()
      modifies this`pathProbing, this`retired, this`removed
      ensures Valid()
      ensures pathProbing == (if |activeConnectionID| > 0 then old(pathProbing) - {path} else old(pathProbing))
    {
      hide Partition, Balanced, Sorted;
      if |activeConnectionID| == 0 { return; }
      if path !in pathProbing {
        assert pathProbing - {path} == pathProbing;
        return;
      }
      RetirePath(path);
    }

    lemma Bounds()
      requires Valid()
      ensures Sorted(queue, Low()) && highestRetired <= activeSequenceNumber
    {
    }

    /** After closing, every registered token has been removed again. */
    method Close()
      requires Valid()
      modifies this`closed, this`removed
      ensures closed && added == removed
      ensures Partition(activeSequenceNumber, queue, pathProbing, retired, delivered)
    {
      hide Partition, Balanced, Sorted;
      closed := true;
      if activeToken.Some? {
        CloseBalance(added, removed, activeToken.value, pathProbing);
        removed := removed + multiset{activeToken.value};
      }
      var left := pathProbing;
      while left != map[]
        invariant Balanced(added, removed, None, left) && closed
        decreases |left|
      {
        var p :| p in left;
        BalancedWithoutPath(added, removed, None, left, p);
        removed := removed + multiset{left[p].token};
        assert (left - {p}).Keys == left.Keys - {p};
        left := left - {p};
      }
      BalancedEmpty(added, removed);
    }

    static lemma CloseBalance(added: multiset<nat>, removed: multiset<nat>, token: nat, probing: map<nat, ConnId>)
      requires Balanced(added, removed, Some(token), probing)
      ensures Balanced(added, removed + multiset{token}, None, probing)
    {
    }

    /** A token is recognised if and only if it is registered. */
    method IsActiveStatelessResetToken(token: nat) returns (known: bool)
      requires Valid()
      ensures known <==> added[token] > removed[token]
    {
      if activeToken == Some(token) { return true; }
      var todo := pathProbing.Keys;
      while todo != {}
        invariant todo <= pathProbing.Keys
        invariant forall p :: p in pathProbing && p !in todo ==> pathProbing[p].token != token
        decreases todo
      {
        var p :| p in todo;
        if pathProbing[p].token == token {
          assert p in PathsWith(pathProbing, token);
          return true;
        }
        todo := todo - {p};
      }
      assert PathsWith(pathProbing, token) == {};
      return false;
    }
  }

  // ------------------------------------------------------------ every run

  /** The transport parameters may bring a token for the initial ID and another ID, which has number 1. */
  datatype Event =
    | TransportParameters(resetToken: Option<nat>, preferred: Option<ConnId>)
    | NewConnectionID(e: ConnId, retirePriorTo: nat, interval: nat)
    | Send(randomInterval: nat)
    | HandshakeComplete
    | ProbePath(path: nat)
    | AbandonPath(path: nat)

  /**
   The transport parameters come before everything else. The peer numbers its connection IDs from 1 on, issues
   none twice, and retires none that come later.
   */
  ghost predicate FairPeer(events: seq<Event>) {
    && (forall i :: 0 <= i < |events| && events[i].TransportParameters? ==> i == 0)
    && (forall i :: 0 <= i < |events| && events[i].NewConnectionID? ==>
          && events[i].retirePriorTo <= events[i].e.number != 0
          && !(Prefers(events[0]) && events[i].e.number == 1))
    && (forall i, j :: 0 <= i < j < |events| && events[i].NewConnectionID? && events[j].NewConnectionID? ==>
          events[i].e.number != events[j].e.number)
  }

  predicate Prefers(event: Event) {
    event.TransportParameters? && event.preferred.Some?
  }

  ghost predicate Issued(events: seq<Event>, n: nat) {
    n == 0 || exists i :: 0 <= i < |events| && Issues(events[i], n)
  }

  predicate Issues(event: Event, n: nat) {
    (event.NewConnectionID? && event.e.number == n) || (Prefers(event) && n == 1)
  }

  /** id is what the peer issued under number n; the initial connection ID has number 0. */
  ghost predicate IssuedAs(initial: seq<byte>, events: seq<Event>, n: nat, id: seq<byte>) {
    (n == 0 && id == initial) || exists i :: 0 <= i < |events| && IssuesAs(events[i], n, id)
  }

  predicate IssuesAs(event: Event, n: nat, id: seq<byte>) {
    || (event.NewConnectionID? && event.e.number == n && event.e.id == id)
    || (Prefers(event) && n == 1 && event.preferred.value.id == id)
  }

  lemma InitialIssued(initial: seq<byte>, events: seq<Event>)
    ensures IssuedAs(initial, events, 0, initial)
  {
  }

  lemma IssuedAsGrows(initial: seq<byte>, events: seq<Event>, i: nat)
    requires i < |events|
    ensures forall n: nat, id: seq<byte> ::
      IssuedAs(initial, events[..i], n, id) || IssuesAs(events[i], n, id) ==> IssuedAs(initial, events[..i + 1], n, id)
  {
    var now := events[..i + 1];
    assert now[i] == events[i] && forall k :: 0 <= k < i ==> now[k] == events[..i][k];
    forall n: nat, id: seq<byte> | IssuedAs(initial, events[..i], n, id)
      ensures IssuedAs(initial, now, n, id)
    {
      if !(n == 0 && id == initial) {
        var k :| 0 <= k < i && IssuesAs(events[..i][k], n, id);
        assert IssuesAs(now[k], n, id);
      }
    }
  }

  lemma IssuedAsByAll(initial: seq<byte>, events: seq<Event>, i: nat)
    requires i <= |events|
    ensures forall n: nat, id: seq<byte> :: IssuedAs(initial, events[..i], n, id) ==> IssuedAs(initial, events, n, id)
  {
    assert forall k :: 0 <= k < i ==> events[..i][k] == events[k];
  }

  /** A packet went out with connection ID id, issued under this number, when these numbers were retired. */
  datatype Use = Use(number: nat, id: seq<byte>, retired: multiset<nat>)

  /** The ID is the one issued under the number, and the number is not retired. */
  ghost predicate UsesOk(initial: seq<byte>, events: seq<Event>, used: seq<Use>) {
    forall u :: u in used ==> IssuedAs(initial, events, u.number, u.id) && u.number !in u.retired
  }

  /** What is left of a connection when it ends. */
  datatype Final = Final(retired: multiset<nat>, highestRetired: nat, active: nat, highestProbing: nat,
                         queued: seq<ConnId>, paths: map<nat, ConnId>, added: multiset<nat>, removed: multiset<nat>)

  /**
   In every run, each connection ID issued in the events handled without error is active, queued,
   on one path, or retired with one frame, and in only one of these places; no other is retired or
   retired twice; and closing removes exactly the reset tokens that are registered.
   */
  method Run(initial: seq<byte>, events: seq<Event>) returns (r: Final, used: seq<Use>, handled: nat)
    requires FairPeer(events)
    ensures handled <= |events|
    ensures forall n: nat :: Issued(events[..handled], n) ==>
      ExactlyOne(n == r.active, InQueue(r.queued, n), OnPath(r.paths, n), n in r.retired)
    ensures forall n: nat :: r.retired[n] <= 1 && (n in r.retired ==> Issued(events, n))
    ensures Sorted(r.queued, Max(r.active, r.highestProbing)) && r.highestRetired <= r.active
    ensures r.added == r.removed
    ensures UsesOk(initial, events, used)
  {
    hide IssuedAs, InQueue, OnPath, Sorted, ExactlyOne, ConnIdManager.Valid;
    var m := new ConnIdManager(initial);
    var failed, i := false, 0;
    handled, used := 0, [];
    InitialIssued(initial, events[..0]);
    while i < |events| && !failed
      invariant i <= |events| && fresh(m) && m.Valid() && handled == (if failed then i - 1 else i) && (failed ==> i > 0)
      invariant i == 0 ==> Untouched(m)
      invariant forall n :: n in m.issued ==> IssuedAs(initial, events[..i], n, m.issued[n].id)
      invariant UsesOk(initial, events, used)
      invariant forall n: nat :: n in m.delivered ==> Issued(events[..i], n)
      invariant forall n: nat :: Issued(events[..handled], n) ==> n in m.delivered
    {
      IssuedAsGrows(initial, events, i);
      var use;
      failed, use := Happen(m, events[i], events, i);
      i := i + 1;
      IssuedAsByAll(initial, events, i);
      if use.Some? { used := used + [use.value]; }
      if !failed { handled := i; }
    }
    IssuedByAll(events, i);
    m.Bounds();
    m.Close();
    r := Final(m.retired, m.highestRetired, m.activeSequenceNumber, m.highestProbingID, m.queue, m.pathProbing,
               m.added, m.removed);
  }

  /** Nothing has happened yet. */
  ghost predicate Untouched(m: ConnIdManager)
    reads m
  {
    m.Low() == m.activeSequenceNumber == 0 && m.activeToken == None && m.delivered == {0} && m.queue == []
  }

  /** Both parts of the transport parameters. */
  method ApplyTransportParameters(m: ConnIdManager, resetToken: Option<nat>, preferred: Option<ConnId>)
    requires m.Valid() && Untouched(m)
    modifies m`queue, m`delivered, m`activeToken, m`added, m`issued
    ensures m.Valid() && m.delivered == (if preferred.Some? then {0, 1} else {0}) && m.activeToken == resetToken
    ensures forall n :: n in m.issued ==>
      (n in old(m.issued) && m.issued[n] == old(m.issued)[n]) ||
      (preferred.Some? && n == 1 && m.issued[n].id == preferred.value.id)
  {
    hide CoreOf;
    if preferred.Some? {
      var err := m.AddFromPreferredAddress(preferred.value.id, preferred.value.token);
    }
    if resetToken.Some? {
      var panicked := m.SetStatelessResetToken(resetToken.value);
    }
  }

  /** One event. An event that fails ends the connection. */
  method Happen(m: ConnIdManager, event: Event, ghost events: seq<Event>, ghost i: nat)
    returns (failed: bool, use: Option<Use>)
    requires m.Valid() && FairPeer(events) && i < |events| && events[i] == event
    requires i == 0 ==> Untouched(m)
    requires forall n: nat :: n in m.delivered ==> Issued(events[..i], n)
    requires forall n: nat :: Issued(events[..i], n) ==> n in m.delivered
    modifies m
    ensures m.Valid()
    ensures old(m.delivered) <= m.delivered
    ensures forall n: nat :: n in m.delivered ==> Issued(events[..i + 1], n)
    ensures !failed ==> forall n: nat :: Issued(events[..i + 1], n) ==> n in m.delivered
    ensures forall n :: n in m.issued ==>
      (n in old(m.issued) && m.issued[n] == old(m.issued)[n]) || IssuesAs(event, n, m.issued[n].id)
    ensures event.Send? <==> use.Some?
    ensures use.Some? ==>
      && use.value.number in m.issued && use.value.id == m.issued[use.value.number].id
      && use.value.number !in use.value.retired
  {
    hide CoreOf, GenuineOf;
    failed, use := false, None;
    IssuedGrows(events, i);
    match event
    case TransportParameters(resetToken, preferred) => ApplyTransportParameters(m, resetToken, preferred);
    case NewConnectionID(e, retirePriorTo, interval) =>
      assert !Issued(events[..i], e.number);
      m.GenuineKeys();
      var err := m.Add(e, retirePriorTo, interval);
      failed := err.Some?;
    case Send(interval) =>
      var id := m.Get(interval);
      use := Some(Use(m.activeSequenceNumber, id, m.retired));
      m.packetsSinceLastChange := m.packetsSinceLastChange + 1;
    case HandshakeComplete => m.handshakeComplete := true;
    case ProbePath(path) => var id := m.GetConnIDForPath(path);
    case AbandonPath(path) => m.RetireConnIDForPath(path);
  }

  lemma IssuedByAll(events: seq<Event>, i: nat)
    requires i <= |events|
    ensures forall n: nat :: Issued(events[..i], n) ==> Issued(events, n)
  {
    assert forall k :: 0 <= k < i ==> events[..i][k] == events[k];
  }

  lemma IssuedGrows(events: seq<Event>, i: nat)
    requires FairPeer(events) && i < |events|
    ensures forall n: nat :: Issued(events[..i + 1], n) <==> Issued(events[..i], n) || Issues(events[i], n)
    ensures events[i].NewConnectionID? ==> !Issued(events[..i], events[i].e.number)
  {
    var now := events[..i + 1];
    assert now[i] == events[i] && forall k :: 0 <= k < i ==> now[k] == events[..i][k] == events[k];
    forall n: nat
      ensures Issued(now, n) <==> Issued(events[..i], n) || Issues(events[i], n)
    {
      if Issued(events[..i], n) && n != 0 {
        var k :| 0 <= k < i && Issues(events[..i][k], n);
        assert Issues(now[k], n);
      }
    }
  }
}
