/**
 The path MTU search as the code keeps it (deps/quic-go/mtu_discoverer.go): three slots
 shifted in place and an eight-bit generation that tells late feedback apart.
 */
module MtuFinderObject {
  import opened Protocol
  import opened MtuSpec

  class MtuFinder {
    const lost: array<int>
    var min: int
    var inFlight: int
    var lastProbeWasLost: bool
    var generation: nat

    ghost function Model(): Search
      reads this, lost
    {
      Search(min, lost[..], lastProbeWasLost)
    }

    ghost predicate Valid()
      reads this, lost
    {
      && lost.Length == MAX_LOST_PROBES
      && generation < GENERATIONS
      && Inv(Model())
      && (inFlight != INVALID_BYTE_COUNT ==> !Done(Model()) && inFlight == ProbeSize(Model()))
    }

    constructor (start: int, max: int)
      requires 0 <= start <= max
      ensures Valid() && fresh(lost)
      ensures Model() == Start(start, max) && generation == 0 && inFlight == INVALID_BYTE_COUNT
    {
      lost := new int[MAX_LOST_PROBES];
      inFlight, lastProbeWasLost, generation, min := INVALID_BYTE_COUNT, false, 0, start;
      new;
      Init(start, max);
    }

    method Init(start: int, max: int)
      requires lost.Length == MAX_LOST_PROBES
      modifies this`min, lost
      ensures min == start && lost[..] == [max, INVALID_BYTE_COUNT, INVALID_BYTE_COUNT]
    {
      min := start;
      for i := 0 to lost.Length
        invariant min == start
        invariant forall k :: 0 <= k < i ==> lost[k] == if k == 0 then max else INVALID_BYTE_COUNT
      {
        lost[i] := if i == 0 then max else INVALID_BYTE_COUNT;
      }
    }

    method Max() returns (m: int)
      requires Valid()
      ensures m == MaxSize(lost[..])
    {
      for i := 0 to lost.Length
        invariant forall k :: 0 <= k < i ==> lost[k] != INVALID_BYTE_COUNT
      {
        if lost[i] == INVALID_BYTE_COUNT { return lost[i - 1]; }
      }
      return lost[lost.Length - 1];
    }

    method IsDone() returns (done: bool)
      requires Valid()
      ensures done == Done(Model())
      ensures done <==> MaxSize(lost[..]) <= min + 21
    {
      var m := Max();
      return m - min <= MAX_MTU_DIFF + 1;
    }

    /** The part of ShouldSendProbe that does not look at the clock. */
    method MayProbe() returns (may: bool)
      requires Valid()
      ensures may == (inFlight == INVALID_BYTE_COUNT && !Done(Model()))
    {
      var done := IsDone();
      return inFlight == INVALID_BYTE_COUNT && !done;
    }

    /** Returns the probe's size and the generation its callbacks will quote. */
    method GetPing() returns (size: int, generation': nat)
      requires Valid() && !Done(Model())
      modifies this`inFlight
      ensures Valid() && inFlight == size == ProbeSize(Model()) && size != INVALID_BYTE_COUNT
      ensures generation' == generation
      ensures Halfway(size, min, if lastProbeWasLost then lost[0] else MaxSize(lost[..]))
    {
      var m := Max();
      size := if lastProbeWasLost then (min + lost[0]) / 2 else (min + m) / 2;
      inFlight := size;
      generation' := generation;
    }

    method Reset(start: int, max: int)
      requires Valid() && 0 <= start <= max
      modifies this, lost
      ensures Valid() && Model() == Start(start, max) && inFlight == INVALID_BYTE_COUNT
      ensures generation == (old(generation) + 1) % GENERATIONS
    {
      generation := (generation + 1) % GENERATIONS;
      lastProbeWasLost := false;
      inFlight := INVALID_BYTE_COUNT;
      Init(start, max);
    }

    /** panicked: a callback of the current generation although no probe is in flight. */
    method OnAcked(generation': nat) returns (panicked: bool)
      requires Valid()
      modifies this`inFlight, this`min, this`lastProbeWasLost, lost
      ensures Valid()
      ensures panicked <==> generation' == generation && old(inFlight) == INVALID_BYTE_COUNT
      ensures panicked || generation' != generation ==> Model() == old(Model()) && inFlight == old(inFlight)
      ensures !panicked && generation' == generation ==>
        Model() == Acked(old(Model())) && inFlight == INVALID_BYTE_COUNT
    {
      if generation' != generation { return false; }
      var size := inFlight;
      if size == INVALID_BYTE_COUNT { return true; }
      inFlight, min, lastProbeWasLost := INVALID_BYTE_COUNT, size, false;
      var j := 0;
      for i := 0 to lost.Length
        invariant j == 0
        invariant forall k :: 0 <= k < i ==> size >= lost[k]
      {
        if size < lost[i] { j := i; break; }
      }
      assert j == FirstLarger(lost[..], size);
      AckedShape(old(Model()));
      StepInv(old(Model()), true);
      if j > 0 { Shift(j); }
      return false;
    }

    /** Moves the entries from j on to the front. */
    method Shift(j: nat)
      requires 0 < j <= lost.Length == MAX_LOST_PROBES
      modifies lost
      ensures lost[..] == old(lost[j..]) + seq(j, _ => INVALID_BYTE_COUNT)
    {
      for i := 0 to lost.Length
        invariant forall k :: 0 <= k < i ==>
          lost[k] == if k + j < lost.Length then old(lost[k + j]) else INVALID_BYTE_COUNT
        invariant forall k :: i <= k < lost.Length ==> lost[k] == old(lost[k])
      {
        if i + j < lost.Length {
          lost[i] := lost[i + j];
        } else {
          lost[i] := INVALID_BYTE_COUNT;
        }
      }
    }

    /** A callback of a probe, either way. */
    method OnFeedback(generation': nat, acked: bool) returns (panicked: bool)
      requires Valid()
      modifies this`inFlight, this`min, this`lastProbeWasLost, lost
      ensures Valid()
      ensures panicked <==> generation' == generation && old(inFlight) == INVALID_BYTE_COUNT
      ensures panicked || generation' != generation ==> Model() == old(Model()) && inFlight == old(inFlight)
      ensures !panicked && generation' == generation ==>
        Model() == Step(old(Model()), acked) && inFlight == INVALID_BYTE_COUNT
    {
      if acked { panicked := OnAcked(generation'); } else { panicked := OnLost(generation'); }
    }

    method OnLost(generation': nat) returns (panicked: bool)
      requires Valid()
      modifies this`inFlight, this`lastProbeWasLost, lost
      ensures Valid()
      ensures panicked <==> generation' == generation && old(inFlight) == INVALID_BYTE_COUNT
      ensures panicked || generation' != generation ==> Model() == old(Model()) && inFlight == old(inFlight)
      ensures !panicked && generation' == generation ==>
        Model() == Lost(old(Model())) && inFlight == INVALID_BYTE_COUNT
    {
      if generation' != generation { return false; }
      var size := inFlight;
      if size == INVALID_BYTE_COUNT { return true; }
      lastProbeWasLost, inFlight := true, INVALID_BYTE_COUNT;
      StepInv(old(Model()), false);
      for i := 0 to lost.Length
        invariant forall k :: 0 <= k < i ==> size >= lost[k]
        invariant lost[..] == old(lost[..])
      {
        if size < lost[i] {
          forall k | i < k < lost.Length { lost[k] := lost[k - 1]; }
          lost[i] := size;
          break;
        }
      }
      return false;
    }
  }

  /**
   Whatever the order of probes, feedback and migrations, the finder does what a finder with an
   unbounded generation counter would do, and no callback panics, as long as no feedback is so late
   that the eight-bit generation has come round to it.
   */
  method Run(start: int, max: int, events: seq<Event>) returns (panicked: bool, size: int, probing: bool)
    requires 0 <= start <= max && (forall e :: e in events ==> Legal(e)) && NoCollision(start, max, events)
    ensures !panicked
    ensures size == Replay(start, max, events).search.min
    ensures probing == Replay(start, max, events).probing
  {
    var f := new MtuFinder(start, max);
    var handlers: seq<nat> := [];
    panicked := false;
    for n := 0 to |events|
      invariant fresh(f) && fresh(f.lost) && f.Valid() && !panicked
      invariant Follows(f, handlers, Replay(start, max, events[..n]))
    {
      ghost var w := Replay(start, max, events[..n]);
      assert events[..n + 1][..n] == events[..n];
      NextInv(w, events[n]);
      panicked, handlers := Happen(f, handlers, events[n], w);
    }
    assert events[..|events|] == events;
    size, probing := f.min, f.inFlight != INVALID_BYTE_COUNT;
  }

  /** The finder and its outstanding callbacks represent w. */
  ghost predicate Follows(f: MtuFinder, handlers: seq<nat>, w: World)
    reads f, f.lost
  {
    && f.Model() == w.search
    && (f.inFlight != INVALID_BYTE_COUNT <==> w.probing)
    && f.generation == w.epoch % GENERATIONS
    && |handlers| == |w.sent| && forall i :: 0 <= i < |handlers| ==> handlers[i] == w.sent[i] % GENERATIONS
  }

  /** One event. It goes as it should if and only if it is not feedback with a repeated generation. */
  method Happen(f: MtuFinder, handlers: seq<nat>, e: Event, ghost w: World)
    returns (panicked: bool, handlers': seq<nat>)
    requires f.Valid() && WorldInv(w) && Follows(f, handlers, w) && Legal(e)
    modifies f, f.lost
    ensures f.Valid()
    ensures !panicked && Follows(f, handlers', Next(w, e)) <==> !Collides(w, e)
    ensures panicked <==> Collides(w, e) && !w.probing
  {
    hide Done, Start, Inv, Acked, Lost, Halfway, ProbeSize, MaxSize;
    panicked, handlers' := false, handlers;
    NextInv(w, e);
    match e
    case Probe =>
      var may := f.MayProbe();
      if may {
        var _, g := f.GetPing();
        handlers' := handlers + [g];
      }
    case Feedback(i, acked) =>
      if i < |handlers| {
        if w.probing { StepDiffers(w.search, acked); }
        panicked := f.OnFeedback(handlers[i], acked);
        handlers' := handlers[..i] + handlers[i + 1..];
      }
    case Reset(start, max) =>
      f.Reset(start, max);
  }

  /** After 256 migrations the feedback for a probe from before the first of them panics. */
  method StaleFeedbackPanics(start: int, max: int, acked: bool) returns (panicked: bool)
    requires 0 <= start <= max && !Done(Start(start, max))
    ensures panicked
  {
    var f := new MtuFinder(start, max);
    var size, generation := f.GetPing();
    for n := 0 to GENERATIONS
      invariant fresh(f) && fresh(f.lost) && f.Valid() && f.generation == n % GENERATIONS
      invariant n > 0 ==> f.inFlight == INVALID_BYTE_COUNT
    {
      f.Reset(start, max);
    }
    panicked := f.OnFeedback(generation, acked);
  }
}
