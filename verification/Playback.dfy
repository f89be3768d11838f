/**
 internal/sub/playback.go: simulated playback of a scalable stream. Units arrive layer by layer
 in any order; advance decides which layers can be decoded, paces what is shown, and
 nextAdvanceDeadline says when it has to be called again. Times are nanoseconds, timestamps
 microseconds, as in the source.
 */
module PlaybackObject {
  import opened Protocol
  import opened PlaybackSpec

  const MAX_PENDING_UNITS: nat := 64

  datatype PlayState = Starting | Buffering | Playing | Stalled

  datatype SwitchState = Stable | WaitingIndependent

  datatype Marking = Marking(start: bool, end: bool, discardable: bool, baseLayerSync: bool, temporalID: nat,
                             layerID: nat, independent: bool)

  predicate ValidMarking(m: Marking, spatialID: int) {
    m.start && m.end && !m.discardable && !m.baseLayerSync && m.temporalID == 0 && m.layerID == spatialID
  }

  /** A frame that begins and ends in this object, is needed by others, and belongs to this layer. */
  predicate Qualifies(marking: Option<Marking>, spatialID: int) {
    marking.Some? && var m := marking.value;
    m == Marking(true, true, false, false, 0, m.layerID, m.independent) && m.layerID == spatialID
  }

  lemma BaseTimestamp(u: Unit)
    requires 0 in u.layers
    ensures u.layers != map[] && Timestamp(u) == u.layers[0].timestamp
  {
  }

  lemma PositionInOrder(pending: map<Key, Unit>, s: seq<Key>, i: nat, j: nat)
    requires Ordered(pending, s) && i < |s| && j < |s|
    ensures s[i] == s[j] <==> i == j
    ensures i <= j ==> TimestampAt(pending, s[i]) <= TimestampAt(pending, s[j])
  {
    if i < j { assert Before(pending, s[i], s[j]); }
    if j < i { assert Before(pending, s[j], s[i]); }
  }

  lemma RunStep(pending: map<Key, Unit>, s: seq<Key>, n: nat, prefix: int, k: nat)
    requires k < |s| && s[k] in pending
    ensures CompletePrefix(pending[s[k]], n) >= prefix ==>
      RunEnd(pending, s, n, prefix, k) == RunEnd(pending, s, n, prefix, k + 1)
    ensures CompletePrefix(pending[s[k]], n) < prefix ==> RunEnd(pending, s, n, prefix, k) == k
  {
  }

  lemma RunStops(pending: map<Key, Unit>, s: seq<Key>, n: nat, prefix: int)
    ensures RunEnd(pending, s, n, prefix, |s|) == |s|
  {
  }

  /** The timestamp of a unit: the loop over its layers finds the lowest one. */
  method TimestampOf(u: Unit) returns (timestamp: nat)
    requires u.layers != map[]
    ensures timestamp == Timestamp(u)
  {
    var todo, found, lowest := u.layers.Keys, false, 0;
    timestamp := 0;
    while todo != {}
      invariant todo <= u.layers.Keys
      invariant !found ==> todo == u.layers.Keys
      invariant found ==> lowest in u.layers && timestamp == u.layers[lowest].timestamp
      invariant found ==> forall j :: j in u.layers && j !in todo ==> lowest <= j
      decreases todo
    {
      var index :| index in todo;
      if !found || index < lowest {
        lowest, timestamp, found := index, u.layers[index].timestamp, true;
      }
      todo := todo - {index};
    }
    assert lowest == Lowest(u);
  }

  /** The longest prefix of complete layers, by the loop of the source. */
  method CompletePrefixOf(u: Unit, n: nat) returns (prefix: int, independent: bool)
    ensures prefix == CompletePrefix(u, n) && independent == Independent(u)
  {
    if u.invalidFrom == 0 || 0 !in u.layers { return -1, false; }
    var base := u.layers[0];
    prefix := -1;
    var i := 0;
    while i < n && i < u.invalidFrom
      invariant 0 <= i == prefix + 1
      invariant PrefixFrom(u, n, 0) == PrefixFrom(u, n, i)
      decreases n - i
    {
      if i !in u.layers || u.layers[i].timestamp != base.timestamp || u.layers[i].independent != base.independent {
        return prefix, base.independent;
      }
      prefix, i := i, i + 1;
    }
    return prefix, base.independent;
  }

  /** All pending units in order. */
  method SortedUnits(pending: map<Key, Unit>) returns (units: seq<Key>)
    requires UnitsOk(pending)
    ensures units == Order(pending)
  {
    hide Ordered, Order, Timestamp, Lowest;
    units := [];
    var todo := pending.Keys;
    assert Ordered(pending, []) by { EmptyOrder(pending); }
    while todo != {}
      invariant todo <= pending.Keys && Ordered(pending, units)
      invariant forall k :: k in units <==> k in pending && k !in todo
      decreases todo
    {
      var k :| k in todo;
      units := InsertUnit(pending, units, k);
      todo := todo - {k};
    }
    OrderUnique(pending, units, Order(pending));
  }

  lemma EmptyOrder(pending: map<Key, Unit>)
    ensures Ordered(pending, [])
  {
  }

  method InsertUnit(pending: map<Key, Unit>, units: seq<Key>, k: Key) returns (r: seq<Key>)
    requires UnitsOk(pending) && Ordered(pending, units) && k in pending && k !in units
    requires forall x :: x in units ==> x in pending
    ensures Ordered(pending, r) && forall x :: x in r <==> x in units || x == k
  {
    hide Ordered, Timestamp, Lowest;
    var timestamp := TimestampOf(pending[k]);
    var i := 0;
    while i < |units|
      invariant 0 <= i <= |units|
      invariant forall j :: 0 <= j < i ==> Before(pending, units[j], k)
    {
      assert units[i] in units;
      var other := TimestampOf(pending[units[i]]);
      if !Smaller(other, units[i], timestamp, k) { break; }
      i := i + 1;
    }
    RestLater(pending, units, k, i);
    InsertOrdered(pending, units, k, i);
    r := units[..i] + [k] + units[i..];
  }

  lemma RestLater(pending: map<Key, Unit>, units: seq<Key>, k: Key, i: nat)
    requires Ordered(pending, units) && k !in units && i <= |units|
    requires i < |units| ==> !Before(pending, units[i], k)
    ensures forall j :: i <= j < |units| ==> Before(pending, k, units[j])
  {
    forall j | i <= j < |units|
      ensures Before(pending, k, units[j])
    {
      assert units[i] in units;
      if i < j { assert Before(pending, units[i], units[j]); }
    }
  }

  // ------------------------------------------------------------ state

  /** A layer is valid if and only if it is no higher than the active one. */
  ghost predicate LevelsOk(valid: seq<bool>, active: int) {
    -1 <= active < |valid| && forall i :: 0 <= i < |valid| ==> (valid[i] <==> i <= active)
  }

  /** The clock is that of the unit shown last, and the active layer is the one it was shown with. */
  ghost predicate ClockOk(log: seq<Shown>, active: int, lastPresented: Option<nat>, lastPresentedAt: int) {
    && (log == [] <==> lastPresented == None)
    && (log != [] ==> log[|log| - 1].timestamp == lastPresented.value && log[|log| - 1].at == lastPresentedAt)
    && (active >= 0 ==> log != [] && log[|log| - 1].level == active)
  }

  function DeadlineAfter(lastPresented: Option<nat>, lastPresentedAt: int, targetLatency: int, timestamp: nat): int {
    match lastPresented
    case None => Micros(timestamp) + targetLatency
    case Some(last) => if timestamp <= last then lastPresentedAt else lastPresentedAt + Micros(timestamp - last)
  }

  function LastOr(lastPresented: Option<nat>): int {
    match lastPresented
    case None => -1
    case Some(last) => last
  }

  /** When something happens next. */
  ghost function Deadline(pending: map<Key, Unit>, n: nat, active: int, lastPresented: Option<nat>,
                          lastPresentedAt: int,
                          minimalBuffer: int, targetLatency: int): Option<int> {
    var s := Order(pending);
    if active >= 0 then
      var j := FirstNewer(pending, s, LastOr(lastPresented), 0);
      if j == |s| then None
        else Some(DeadlineAfter(lastPresented, lastPresentedAt, targetLatency, TimestampAt(pending, s[j])))
    else
      var j := FirstStartable(pending, s, n, minimalBuffer, 0);
      if j == |s| then None else Some(Micros(TimestampAt(pending, s[j])) + targetLatency)
  }

  /** The next unit of an unbroken run may be shown once its deadline has come. */
  lemma NextShown(log: seq<Shown>, n: nat, minimalBuffer: int, latency: int, waiting: map<Key, Unit>, key: Key,
                  now: int, level: int, last: nat, lastAt: int, active: int)
    requires LogOk(log, n, minimalBuffer, latency) && ClockOk(log, active, Some(last), lastAt)
    requires key in waiting && 0 in waiting[key].layers && waiting[key].layers[0].timestamp > last
    requires now >= lastAt + Micros(waiting[key].layers[0].timestamp - last)
    requires NextInLine(waiting, last, key)
    requires 0 <= level == LevelFor(active, waiting[key], n) && level <= CompletePrefix(waiting[key], n) && active >= 0
    ensures LogOk(log + [Shown(waiting[key], waiting[key].layers[0].timestamp, now, level, false, key, waiting)],
                  n, minimalBuffer, latency)
  {
    hide NextInLine, FirstStart;
  }

  lemma FirstShown(log: seq<Shown>, n: nat, minimalBuffer: int, latency: int, waiting: map<Key, Unit>, key: Key,
                   now: int)
    requires LogOk(log, n, minimalBuffer, latency) && key in waiting && 0 in waiting[key].layers
    requires Independent(waiting[key]) && CompletePrefix(waiting[key], n) >= 0
    requires FirstStart(waiting, n, minimalBuffer, key)
    requires now >= Micros(waiting[key].layers[0].timestamp) + latency
    ensures LogOk(log + [Shown(waiting[key], waiting[key].layers[0].timestamp, now, CompletePrefix(waiting[key], n),
                               true, key, waiting)], n, minimalBuffer, latency)
  {
    hide NextInLine, FirstStart;
  }

  class NativePlayback {
    const n: nat
    const minimalBuffer: int
    const targetLatency: int
    const valid: array<bool>
    var active: int
    var pending: map<Key, Unit>
    var state: PlayState
    var switchState: SwitchState
    var lastPresented: Option<nat>
    var lastPresentedAt: int
    /** Everything shown so far. */
    ghost var log: seq<Shown>

    ghost predicate Valid()
      reads this, valid
    {
      && valid.Length == n > 0 && LevelsOk(valid[..], active)
      && UnitsOk(pending) && |pending| <= MAX_PENDING_UNITS
      && LogOk(log, n, minimalBuffer, targetLatency) && minimalBuffer >= 0 &&
           ClockOk(log, active, lastPresented, lastPresentedAt)
      && (active >= 0 <==> state == Playing)
      && (active >= 0 ==> (switchState == Stable <==> active == n - 1))
    }

    ghost function NextDeadline(): Option<int>
      reads this
    {
      Deadline(pending, n, active, lastPresented, lastPresentedAt, minimalBuffer, targetLatency)
    }

    /** Playback is due: there is a next deadline and it has come. */
    ghost predicate Due(now: int)
      reads this
    {
      NextDeadline().Some? && now >= NextDeadline().value
    }

    /** The time has come for a unit that playback can start with. */
    ghost predicate MayStart(now: int)
      reads this
    {
      exists k :: CanStart(pending, n, minimalBuffer, k) && now >= Micros(TimestampAt(pending, k)) + targetLatency
    }

    /** While playing, the time has come for some newer unit. */
    ghost predicate NextIsDue(now: int)
      reads this
    {
      lastPresented.Some? &&
      exists k :: k in pending && TimestampAt(pending, k) > lastPresented.value &&
        now >= lastPresentedAt + Micros(TimestampAt(pending, k) - lastPresented.value)
    }

    /** What deadlines amount to. */
    lemma DueMeaning(now: int)
      requires Valid()
      ensures Due(now) <==> if active < 0 then MayStart(now) else NextIsDue(now)
    {
      hide Order, IsOrder, TimestampAt, FirstStartable, LogOk, CanStart, Before;
      if active < 0 {
        FirstStartIff(pending, n, minimalBuffer);
        FirstIsEarliest(pending, n, minimalBuffer);
      } else {
        NextInLineIff(pending, lastPresented.value);
        NextIsEarliest(pending, lastPresented.value);
      }
    }

    constructor (tracks: nat, minimalBuffer: int, targetLatency: int)
      requires tracks > 0 && 0 <= minimalBuffer < targetLatency
      ensures Valid() && fresh(valid) && log == [] && pending == map[] && n == tracks
      ensures this.minimalBuffer == minimalBuffer && this.targetLatency == targetLatency
    {
      n, this.minimalBuffer, this.targetLatency := tracks, minimalBuffer, targetLatency;
      valid := new bool[tracks](_ => false);
      active, pending, state, switchState := -1, map[], Starting, Stable;
      lastPresented, lastPresentedAt, log := None, 0, [];
    }

    // ---------------------------------------------------------- arrivals

    /** An object arrives; one that does not qualify as a layer of a known track is dropped. */
    method AddObject(index: Option<nat>, spatialID: int, timestamp: Option<nat>, marking: Option<Marking>, key: Key,
                     size: nat)
      requires Valid() && (index.Some? ==> index.value < n)
      modifies this`pending
      ensures Valid() && |pending| <= MAX_PENDING_UNITS
      ensures index == None || timestamp == None || !Qualifies(marking, spatialID) ==> pending == old(pending)
      ensures index.Some? && timestamp.Some? && Qualifies(marking, spatialID) ==>
        var unit := if key in old(pending) then old(pending)[key] else Unit(map[], n);
        var all := old(pending)[key := Arrive(unit, index.value,
                                              Layer(timestamp.value, marking.value.independent, size))];
        pending == if |all| <= MAX_PENDING_UNITS then all else all - {Order(all)[0]}
    {
      hide Order, LogOk, ClockOk, LevelsOk;
      if index == None || timestamp == None || marking == None || !ValidMarking(marking.value, spatialID) { return; }
      var unit := Unit(map[], n);
      if key in pending { unit := pending[key]; }
      var layer := Layer(timestamp.value, marking.value.independent, size);
      if index.value in unit.layers {
        if unit.layers[index.value] != layer && index.value < unit.invalidFrom {
          unit := unit.(invalidFrom := index.value);
        }
      } else {
        unit := unit.(layers := unit.layers[index.value := layer]);
      }
      assert index.value in unit.layers;
      pending := pending[key := unit];
      TrimPending();
    }

    method TrimPending()
      requires UnitsOk(pending) && |pending| <= MAX_PENDING_UNITS + 1
      modifies this`pending
      ensures UnitsOk(pending) && |pending| <= MAX_PENDING_UNITS
      ensures var all := old(pending); pending == if |all| <= MAX_PENDING_UNITS then all else all - {Order(all)[0]}
    {
      ghost var all := pending;
      while |pending| > MAX_PENDING_UNITS
        invariant UnitsOk(pending)
        invariant pending == all || (|all| > MAX_PENDING_UNITS >= |pending| && pending == all - {Order(all)[0]})
        decreases |pending|
      {
        var units := SortedUnits(pending);
        FirstUnit(pending);
        assert (pending - {units[0]}).Keys == pending.Keys - {units[0]};
        pending := pending - {units[0]};
      }
    }

    // ---------------------------------------------------------- which layers to show

    /** The loops over valid and active amount to the next level. */
    method Adjust(prefix: int, independent: bool)
      requires valid.Length == n > 0 && LevelsOk(valid[..], active) && -1 <= prefix < n && active >= 0
      requires independent ==> prefix >= 0
      modifies this`active, valid
      ensures LevelsOk(valid[..], active) && active == if independent then prefix else Min(old(active), prefix)
    {
      if prefix < active {
        for i := prefix + 1 to valid.Length
          invariant active == old(active)
          invariant forall k :: 0 <= k < valid.Length ==> (valid[k] <==> k <= active && !(prefix < k < i))
        {
          valid[i] := false;
        }
      }
      if independent {
        for i := 0 to prefix + 1
          invariant active == old(active)
          invariant forall k :: 0 <= k < valid.Length ==>
            (valid[k] <==> k < i || (k <= active && !(prefix < active && k > prefix)))
        {
          valid[i] := true;
        }
        active := prefix;
      } else {
        while active >= 0 && (active > prefix || !valid[active])
          invariant -1 <= active <= old(active) && (prefix < old(active) ==> active >= prefix)
          invariant prefix >= old(active) ==> active == old(active)
          invariant forall k :: 0 <= k < valid.Length ==> (valid[k] <==> k <= Min(old(active), prefix))
          decreases active
        {
          active := active - 1;
        }
      }
    }

    method Present(key: Key, now: int, ghost restart: bool)
      requires key in pending && UnitsOk(pending) && 0 in pending[key].layers && active >= 0
      modifies this`pending, this`state, this`switchState, this`lastPresented, this`lastPresentedAt, this`log
      ensures pending == old(pending) - {key} && UnitsOk(pending) && |pending| < |old(pending)|
      ensures lastPresented == Some(old(pending)[key].layers[0].timestamp) && lastPresentedAt == now
      ensures log == old(log) + [Shown(old(pending)[key], old(pending)[key].layers[0].timestamp, now, active, restart,
                                       key,
                                       old(pending))]
      ensures state == Playing && (switchState == Stable <==> active >= n - 1)
    {
      var base := pending[key].layers[0];
      lastPresented, lastPresentedAt := Some(base.timestamp), now;
      log := log + [Shown(pending[key], base.timestamp, now, active, restart, key, pending)];
      assert (pending - {key}).Keys == pending.Keys - {key};
      pending := pending - {key};
      state := Playing;
      switchState := if active < n - 1 then WaitingIndependent else Stable;
    }

    // ---------------------------------------------------------- the next unit

    /** Drops what is not newer than the unit shown last, and returns the first unit that is. */
    method NextUnit() returns (key: Option<Key>)
      requires UnitsOk(pending)
      modifies this`pending
      ensures UnitsOk(pending) && |pending| <= |old(pending)|
      ensures var s := Order(old(pending)); var j := FirstNewer(old(pending), s, LastOr(lastPresented), 0);
        && pending == (map k | k in old(pending) && k !in s[..j] :: old(pending)[k])
        && (if j == |s| then key == None else key == Some(s[j]) && s[j] in pending)
    {
      hide Timestamp, Order, IsOrder;
      ghost var before := pending;
      var units := SortedUnits(pending);
      var i := 0;
      OrderFacts(pending);
      while i < |units|
        invariant 0 <= i <= |units| && units == Order(before)
        invariant pending == map k | k in before && k !in units[..i] :: before[k]
        invariant FirstNewer(before, units, LastOr(lastPresented), 0) == FirstNewer(before, units,
          LastOr(lastPresented), i)
        invariant forall k :: i <= k < |units| ==> units[k] !in units[..i]
        invariant |pending| <= |before|
      {
        var timestamp := TimestampOf(pending[units[i]]);
        if lastPresented == None || timestamp > lastPresented.value { return Some(units[i]); }
        RemoveNext(before, pending, units, i);
        pending := pending - {units[i]};
        i := i + 1;
      }
      return None;
    }

    // ---------------------------------------------------------- starting

    /** How much is buffered, in nanoseconds, from the i-th unit on. */
    method BufferFor(first: Key, prefix: int, ghost i: nat) returns (d: int)
      requires UnitsOk(pending) && first in pending && i < |Order(pending)| && Order(pending)[i] == first
      requires 0 <= prefix == CompletePrefix(pending[first], n)
      ensures d == Micros(Buffered(pending, Order(pending), n, prefix, i))
    {
      hide Timestamp, Order, IsOrder, Ordered, CompletePrefix, RunEnd;
      OrderFacts(pending);
      BaseThere(pending[first], n);
      BaseTimestamp(pending[first]);
      RunStep(pending, Order(pending), n, prefix, i);
      var start := pending[first].layers[0].timestamp;
      var latest, seenFirst := start, false;
      var units := SortedUnits(pending);
      for k := 0 to |units|
        invariant units == Order(pending)
        invariant seenFirst <==> k > i
        invariant !seenFirst ==> latest == start
        invariant latest >= start
        invariant seenFirst ==>
          latest == TimestampAt(pending, units[k - 1]) &&
            RunEnd(pending, units, n, prefix, i) == RunEnd(pending, units, n, prefix, k)
      {
        PositionInOrder(pending, units, i, k);
        var unit := pending[units[k]];
        var timestamp := TimestampOf(unit);
        if timestamp < start { continue; }
        if units[k] == first { seenFirst := true; }
        if !seenFirst { continue; }
        RunStep(pending, units, n, prefix, k);
        var complete, _ := CompletePrefixOf(unit, n);
        BaseThere(unit, n);
        if 0 !in unit.layers || complete < prefix {
          assert RunEnd(pending, units, n, prefix, i) == k > i;
          return (latest - start) * 1000;
        }
        BaseTimestamp(unit);
        latest := unit.layers[0].timestamp;
      }
      RunStops(pending, units, n, prefix);
      return (latest - start) * 1000;
    }

    /** The first unit, in order, that playback can start with. */
    method FindStart() returns (key: Option<Key>, prefix: int)
      requires UnitsOk(pending)
      ensures var s := Order(pending); var j := FirstStartable(pending, s, n, minimalBuffer, 0);
        if j == |s| then key == None
        else key == Some(s[j]) && s[j] in pending && prefix == CompletePrefix(pending[s[j]], n) >= 0 &&
             Independent(pending[s[j]])
    {
      hide Timestamp, Order, IsOrder, Ordered, CompletePrefix, Independent, Buffered;
      OrderFacts(pending);
      var units := SortedUnits(pending);
      for k := 0 to |units|
        invariant units == Order(pending)
        invariant FirstStartable(pending, units, n, minimalBuffer, 0) == FirstStartable(pending, units, n,
          minimalBuffer, k)
      {
        var independent;
        prefix, independent := CompletePrefixOf(pending[units[k]], n);
        if !independent || prefix < 0 { continue; }
        var buffered := BufferFor(units[k], prefix, k);
        if buffered < minimalBuffer { continue; }
        return Some(units[k]), prefix;
      }
      return None, -1;
    }

    // ---------------------------------------------------------- advancing

    function PresentationDeadline(timestamp: nat): int
      reads this`lastPresented, this`lastPresentedAt
    {
      DeadlineAfter(lastPresented, lastPresentedAt, targetLatency, timestamp)
    }

    method EnterStall()
      modifies this`state, this`switchState
      ensures state == Stalled && switchState == WaitingIndependent
    {
      state, switchState := Stalled, WaitingIndependent;
    }

    /** Starts, or restarts after a stall, with the first unit that allows it, if its time has come. */
    method TryStart(now: int)
      requires Valid() && active < 0
      modifies this, valid
      ensures Valid()
      ensures old(Due(now)) <==> active >= 0
      ensures active < 0 ==> log == old(log) && pending == old(pending)
      ensures active >= 0 ==>
        && |log| == |old(log)| + 1 && log[..|old(log)|] == old(log) && log[|old(log)|].restart && lastPresentedAt == now
        && log[|old(log)|].waiting == old(pending) && log[|old(log)|].level == active
    {
      hide LogOk, Timestamp, Order, IsOrder, CompletePrefix, Independent, Startable, FirstStart;
      FirstStartIff(pending, n, minimalBuffer);
      var key, prefix := FindStart();
      if key == None {
        if lastPresented.Some? { EnterStall(); } else { state := Buffering; }
        return;
      }
      var unit := pending[key.value];
      BaseThere(unit, n);
      BaseTimestamp(unit);
      if now < Micros(unit.layers[0].timestamp) + targetLatency {
        state := Buffering;
        return;
      }
      FirstShown(log, n, minimalBuffer, targetLatency, pending, key.value, now);
      Activate(prefix);
      Present(key.value, now, true);
    }

    method Activate(prefix: int)
      requires valid.Length == n && LevelsOk(valid[..], active) && active < 0 <= prefix < n
      modifies this`active, valid
      ensures LevelsOk(valid[..], active) && active == prefix
    {
      for i := 0 to prefix + 1
        invariant forall k :: 0 <= k < valid.Length ==> (valid[k] <==> k < i)
      {
        valid[i] := true;
      }
      active := prefix;
    }

    /** One round of the loop in advance; again says whether there may be another one. */
    method AdvanceOnce(now: int) returns (again: bool)
      requires Valid() && active >= 0
      modifies this, valid
      ensures Valid()
      ensures !old(Due(now)) ==>
        !again && log == old(log) && active == old(active) && lastPresentedAt == old(lastPresentedAt)
      ensures old(Due(now)) ==> (again <==> active >= 0)
      ensures old(Due(now)) && again ==>
        |log| == |old(log)| + 1 && log[..|old(log)|] == old(log) && !log[|old(log)|].restart && lastPresentedAt == now
      ensures !again ==> log == old(log)
      ensures old(Due(now)) ==>
        exists k :: k in old(pending) && NextInLine(old(pending), old(lastPresented).value, k) &&
          active == LevelFor(old(active), old(pending)[k], n)
      ensures |pending| <= |old(pending)| && (again ==> |pending| < |old(pending)|)
    {
      hide LogOk, Timestamp, Order, IsOrder, CompletePrefix, Independent, LevelsOk, LevelFor, NextInLine;
      NextInLineIff(pending, lastPresented.value);
      ghost var before := pending;
      var key := NextUnit();
      StaleIsIrrelevant(before, pending, lastPresented);
      NextInLineIff(pending, lastPresented.value);
      if key == None { return false; }
      var unit := pending[key.value];
      var timestamp := TimestampOf(unit);
      if now < PresentationDeadline(timestamp) { return false; }
      again := ShowOrStall(key.value, now);
    }

    /** Shows the layers of a unit that can be decoded, or stalls if there is none. */
    method ShowOrStall(key: Key, now: int) returns (shown: bool)
      requires Valid() && active >= 0 && key in pending && Timestamp(pending[key]) > lastPresented.value
      requires now >= PresentationDeadline(Timestamp(pending[key]))
      requires NextInLine(pending, lastPresented.value, key)
      modifies this, valid
      ensures Valid() && (shown <==> active >= 0)
      ensures active == LevelFor(old(active), old(pending)[key], n)
      ensures shown ==>
        |log| == |old(log)| + 1 && log[..|old(log)|] == old(log) && !log[|old(log)|].restart && lastPresentedAt == now
      ensures !shown ==> log == old(log)
      ensures |pending| <= |old(pending)| && (shown ==> |pending| < |old(pending)|)
    {
      hide LogOk, Timestamp, Order, IsOrder, CompletePrefix, Independent, LevelsOk, NextInLine;
      var unit := pending[key];
      var prefix, independent := CompletePrefixOf(unit, n);
      PrefixRange(unit, n);
      Adjust(prefix, independent);
      if active < 0 {
        EnterStall();
        return false;
      }
      BaseTimestamp(unit);
      NextShown(log, n, minimalBuffer, targetLatency, pending, key, now, active, lastPresented.value, lastPresentedAt,
                old(active));
      Present(key, now, false);
      return true;
    }

    static lemma PrefixRange(u: Unit, n: nat)
      requires n > 0
      ensures Independent(u) ==> CompletePrefix(u, n) >= 0
      ensures CompletePrefix(u, n) >= 0 ==> 0 in u.layers
    {
    }

    /** After showing a unit now, the next deadline lies in the future. */
    lemma NotDueAgain(now: int)
      requires Valid() && active >= 0 && lastPresentedAt == now
      ensures !Due(now)
    {
    }

    /**
     At most one unit is shown. While playing, something happens exactly when the time of a newer unit has come: the
     next one in line is shown with the layers that can be decoded, or playback stalls if there are none. Otherwise
     playback starts exactly when the time has come for a unit behind which enough is buffered.
     */
    method Advance(now: int)
      requires Valid()
      modifies this, valid
      ensures Valid()
      ensures old(active) < 0 ==> (old(MayStart(now)) <==> active >= 0)
      ensures old(active) >= 0 && !old(NextIsDue(now)) ==> active == old(active) && log == old(log)
      ensures old(active) >= 0 && old(NextIsDue(now)) ==> (active < 0 <==> log == old(log))
      ensures old(active) >= 0 && old(NextIsDue(now)) ==>
        exists k :: k in old(pending) && NextInLine(old(pending), old(lastPresented).value, k) &&
          active == LevelFor(old(active), old(pending)[k], n)
      ensures log == old(log) || (|log| == |old(log)| + 1 && log[..|old(log)|] == old(log) && active >= 0)
      ensures log != old(log) ==> (log[|old(log)|].restart <==> old(active) < 0)
      ensures log != old(log) && old(active) < 0 ==> log[|old(log)|].waiting == old(pending)
    {
      DueMeaning(now);
      hide LogOk, Timestamp, Order, IsOrder, CompletePrefix, Independent, LevelsOk, Deadline;
      if active < 0 {
        TryStart(now);
        return;
      }
      ghost var due := Due(now);
      var again := AdvanceOnce(now);
      while again
        invariant Valid()
        invariant !due ==> !again && log == old(log) && active == old(active)
        invariant due && log == old(log) ==> !again && active < 0
        invariant log != old(log) ==> active >= 0 && lastPresentedAt == now
        invariant due ==>
          exists k :: k in old(pending) && NextInLine(old(pending), old(lastPresented).value, k) &&
            active == LevelFor(old(active), old(pending)[k], n)
        invariant log != old(log) ==>
          |log| == |old(log)| + 1 && log[..|old(log)|] == old(log) && !log[|old(log)|].restart
        decreases |pending|, if again then 1 else 0
      {
        NotDueAgain(now);
        again := AdvanceOnce(now);
      }
    }

    /** When to call advance again; asking does not change the answer. */
    method NextAdvanceDeadline() returns (d: Option<int>)
      requires Valid()
      modifies this`pending
      ensures Valid() && d == old(NextDeadline()) == NextDeadline()
      ensures forall now :: d.Some? && now >= d.value <==> if active < 0 then MayStart(now) else NextIsDue(now)
    {
      d := NextActionTime();
      forall now ensures d.Some? && now >= d.value <==> if active < 0 then MayStart(now) else NextIsDue(now) {
        DueMeaning(now);
      }
    }

    method NextActionTime() returns (d: Option<int>)
      requires Valid()
      modifies this`pending
      ensures Valid() && d == old(NextDeadline()) == NextDeadline()
    {
      hide LogOk, Timestamp, Order, IsOrder, CompletePrefix, Independent, LevelsOk, Startable;
      if active >= 0 {
        ghost var before := pending;
        var key := NextUnit();
        StaleIsIrrelevant(before, pending, lastPresented);
        if key == None { return None; }
        var timestamp := TimestampOf(pending[key.value]);
        return Some(PresentationDeadline(timestamp));
      }
      var key, prefix := FindStart();
      if key == None { return None; }
      var unit := pending[key.value];
      BaseThere(unit, n);
      BaseTimestamp(unit);
      return Some(Micros(unit.layers[0].timestamp) + targetLatency);
    }
  }

  /** Dropping units that are not newer than the last one shown does not change which one is next. */
  lemma StaleIsIrrelevant(before: map<Key, Unit>, after: map<Key, Unit>, last: Option<nat>)
    requires UnitsOk(before)
    requires var s := Order(before);
      after == map k | k in before && k !in s[..FirstNewer(before, s, LastOr(last), 0)] :: before[k]
    ensures var s := Order(before); var j := FirstNewer(before, s, LastOr(last), 0);
      && Order(after) == s[j..]
      && FirstNewer(after, Order(after), LastOr(last), 0) == 0
      && (j < |s| ==> TimestampAt(after, s[j]) == TimestampAt(before, s[j]))
  {
    hide Order, Timestamp;
    var s := Order(before);
    var j := FirstNewer(before, s, LastOr(last), 0);
    DropFirst(before, after, s, j);
    if j < |s| { assert s[j..][0] == s[j] && s[j] in after; }
  }

  // ------------------------------------------------------------ every run

  datatype Event =
    | ObjectArrives(index: nat, spatialID: int, timestamp: Option<nat>, marking: Option<Marking>, key: Key, size: nat)
    | TimePasses(now: int)
    | AskDeadline

  /** Over every sequence of arrivals and calls: the log of what is shown is safe, and only the newest 64 units wait. */
  method Run(tracks: nat, minimalBuffer: int, targetLatency: int, events: seq<Event>)
      returns (pending: nat, active: int, ghost log: seq<Shown>)
    requires tracks > 0 && 0 <= minimalBuffer < targetLatency
    ensures pending <= MAX_PENDING_UNITS && -1 <= active < tracks
    ensures LogOk(log, tracks, minimalBuffer, targetLatency)
    ensures active >= 0 ==> log != [] && log[|log| - 1].level == active
  {
    hide LogOk, Order, IsOrder, Timestamp, CompletePrefix, Independent, Deadline;
    var p := new NativePlayback(tracks, minimalBuffer, targetLatency);
    for i := 0 to |events|
      invariant fresh(p) && fresh(p.valid) && p.Valid() && p.n == tracks && p.targetLatency == targetLatency &&
        p.minimalBuffer == minimalBuffer
    {
      match events[i]
      case ObjectArrives(index, spatialID, timestamp, marking, key, size) =>
        p.AddObject(if index < tracks then Some(index) else None, spatialID, timestamp, marking, key, size);
      case TimePasses(now) => p.Advance(now);
      case AskDeadline => var d := p.NextAdvanceDeadline();
    }
    return |p.pending|, p.active, p.log;
  }

  /** Among the units that playback can start with, the first has the earliest time. */
  lemma FirstIsEarliest(pending: map<Key, Unit>, n: nat, minimalBuffer: int)
    ensures forall k, x :: FirstStart(pending, n, minimalBuffer, k) && CanStart(pending, n, minimalBuffer, x) ==>
      TimestampAt(pending, k) <= TimestampAt(pending, x)
  {
    hide CanStart, TimestampAt;
  }

  lemma NextIsEarliest(pending: map<Key, Unit>, last: int)
    ensures forall k, x :: NextInLine(pending, last, k) && x in pending && TimestampAt(pending, x) > last ==>
      TimestampAt(pending, k) <= TimestampAt(pending, x)
  {
    hide TimestampAt;
  }

  lemma OrderFacts(pending: map<Key, Unit>)
    ensures Ordered(pending, Order(pending))
    ensures forall i :: 0 <= i < |Order(pending)| ==> Order(pending)[i] in pending
    ensures forall i, j :: 0 <= i < j < |Order(pending)| ==> Order(pending)[i] != Order(pending)[j]
  {
    forall i, j | 0 <= i < j < |Order(pending)|
      ensures Order(pending)[i] != Order(pending)[j]
    {
      assert Before(pending, Order(pending)[i], Order(pending)[j]);
    }
  }

  /** Removing the i-th unit of the order after the ones before it. */
  lemma RemoveNext(before: map<Key, Unit>, pending: map<Key, Unit>, units: seq<Key>, i: nat)
    requires i < |units| && units[i] in pending && pending == map k | k in before && k !in units[..i] :: before[k]
    ensures pending - {units[i]} == map k | k in before && k !in units[..i + 1] :: before[k]
    ensures |pending - {units[i]}| < |pending|
  {
    assert units[..i + 1] == units[..i] + [units[i]];
    assert (pending - {units[i]}).Keys == pending.Keys - {units[i]};
  }

  lemma BaseThere(u: Unit, n: nat)
    ensures CompletePrefix(u, n) >= 0 ==> 0 in u.layers
  {
  }

  lemma FirstUnit(pending: map<Key, Unit>)
    requires |pending| > 0
    ensures Order(pending) != [] && Order(pending)[0] in pending
  {
    var k :| k in pending;
    assert k in Order(pending);
  }
}
