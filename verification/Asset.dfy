/**
 internal/asset.go, setLoopDuration: one loop length for all tracks of an asset, each in its
 own time scale. Products are 32-bit products, as in the source.
 */
module AssetObject {
  import opened Protocol
  import opened Timeline

  const TWO_32: nat := 0x1_0000_0000

  type uint32 = x: nat | x < TWO_32

  function Mul32(a: uint32, b: uint32): uint32 { a * b % TWO_32 }

  datatype ContentTrack =
    ContentTrack(isAudio: bool, duration: uint32, timeScale: uint32, sampleDur: nat, count: nat, loopDur: uint32)

  /** Panicked: the first group is empty, or the first track's time scale zero. */
  datatype LoopError = NoTracks | Panicked | Incompatible(group: nat, track: nat)

  /** No product formed for this track reaches 2^32. */
  predicate Fits(t: ContentTrack, loopDurMS: uint32) {
    t.duration * 1000 < TWO_32 && loopDurMS * t.timeScale < TWO_32
  }

  /** Audio outside the first group may be longer than the loop; everything else must fit it exactly. */
  predicate Compatible(g: nat, t: ContentTrack, loopDurMS: nat) {
    if g > 0 && t.isAudio then t.duration * 1000 >= loopDurMS * t.timeScale
      else t.duration * 1000 == loopDurMS * t.timeScale
  }

  /** The loop lasts loopDurMS in every time scale, rounded down, and is no longer than the track. */
  predicate Looped(t: ContentTrack, loopDurMS: nat) {
    t.loopDur == loopDurMS * t.timeScale / 1000 && t.loopDur <= t.duration
  }

  /** What the 32-bit comparisons let through. */
  predicate Accepted(g: nat, t: ContentTrack, loopDurMS: uint32) {
    if g > 0 && t.isAudio then Mul32(t.duration, 1000) >= Mul32(loopDurMS, t.timeScale)
    else Mul32(t.duration, 1000) == Mul32(loopDurMS, t.timeScale)
  }

  predicate HasFirstTrack(groups: seq<seq<ContentTrack>>) {
    groups != [] && groups[0] != [] && groups[0][0].timeScale > 0
  }

  /** The length of the loop in milliseconds, from the first track. */
  function LoopLength(first: ContentTrack): uint32
    requires first.timeScale > 0
  {
    Mul32(first.duration, 1000) / first.timeScale
  }

  function LoopOf(g: nat, t: ContentTrack, loopDurMS: uint32): uint32 {
    if g > 0 && t.isAudio then Mul32(loopDurMS, t.timeScale) / 1000 else t.duration
  }

  ghost predicate AllFit(groups: seq<seq<ContentTrack>>, loopDurMS: uint32) {
    forall g, t :: 0 <= g < |groups| && 0 <= t < |groups[g]| ==> Fits(groups[g][t], loopDurMS)
  }

  ghost predicate AllAccepted(groups: seq<seq<ContentTrack>>, loopDurMS: uint32) {
    forall g, t :: 0 <= g < |groups| && 0 <= t < |groups[g]| ==> Accepted(g, groups[g][t], loopDurMS)
  }

  ghost predicate AllCompatible(groups: seq<seq<ContentTrack>>, loopDurMS: nat) {
    forall g, t :: 0 <= g < |groups| && 0 <= t < |groups[g]| ==> Compatible(g, groups[g][t], loopDurMS)
  }

  ghost predicate AllLooped(groups: seq<seq<ContentTrack>>, loopDurMS: nat) {
    forall g, t :: 0 <= g < |groups| && 0 <= t < |groups[g]| ==> Looped(groups[g][t], loopDurMS)
  }

  ghost predicate SameShape(a: seq<seq<ContentTrack>>, b: seq<seq<ContentTrack>>) {
    && |a| == |b|
    && (forall g :: 0 <= g < |a| ==> |a[g]| == |b[g]|)
    && (forall g, t :: 0 <= g < |a| && 0 <= t < |a[g]| ==> a[g][t] == b[g][t].(loopDur := a[g][t].loopDur))
  }

  /** Where nothing wraps round, the comparisons and the loop lengths mean what they should. */
  lemma LoopedIfCompatible(g: nat, t: ContentTrack, loopDurMS: uint32)
    requires Fits(t, loopDurMS)
    ensures Accepted(g, t, loopDurMS) <==> Compatible(g, t, loopDurMS)
    ensures Accepted(g, t, loopDurMS) ==> Looped(t.(loopDur := LoopOf(g, t, loopDurMS)), loopDurMS)
  {
    hide Mul32;
    NoWrap(t.duration, 1000);
    NoWrap(loopDurMS, t.timeScale);
  }

  lemma NoWrap(a: uint32, b: uint32)
    requires a * b < TWO_32
    ensures Mul32(a, b) == a * b
  {
  }

  /** The loop length in milliseconds is right exactly when the first track lasts less than 2^32 thousandths. */
  lemma LoopLengthIff(t: ContentTrack)
    requires t.timeScale > 0
    ensures LoopLength(t) == t.duration * 1000 / t.timeScale <==> t.duration * 1000 < TWO_32
  {
    var x, d := t.duration * 1000, t.timeScale;
    DivMod(x, d);
    DivMod(x % TWO_32, d);
    if x >= TWO_32 {
      assert x % TWO_32 <= x - TWO_32;
      if x / d <= x % TWO_32 / d {
        MulMono(x / d, x % TWO_32 / d, d);
        assert false;
      }
    }
  }

  class Asset {
    var groups: seq<seq<ContentTrack>>
    var loopDurMS: uint32

    constructor (groups: seq<seq<ContentTrack>>)
      ensures this.groups == groups
    {
      this.groups, loopDurMS := groups, 0;
    }

    /** Every track before track t of group g was accepted and has its loop length; nothing else changed. */
    ghost predicate DoneUpTo(before: seq<seq<ContentTrack>>, ms: uint32, g: nat, t: nat)
      reads this`groups
    {
      && SameShape(groups, before)
      && (forall i, j :: 0 <= i < |groups| && 0 <= j < |groups[i]| && (i < g || (i == g && j < t)) ==>
            Accepted(i, before[i][j], ms) && groups[i][j].loopDur == LoopOf(i, before[i][j], ms))
    }

    /** Finished without an overflow, the loops are those of the exact arithmetic. */
    lemma ExactIfFits(before: seq<seq<ContentTrack>>, ms: uint32)
      requires AllFit(before, ms)
      ensures AllAccepted(before, ms) <==> AllCompatible(before, ms)
      ensures DoneUpTo(before, ms, |groups|, 0) ==> AllLooped(groups, ms)
    {
      forall g, t | 0 <= g < |before| && 0 <= t < |before[g]|
        ensures Accepted(g, before[g][t], ms) <==> Compatible(g, before[g][t], ms)
        ensures Accepted(g, before[g][t], ms) ==> Looped(before[g][t].(loopDur := LoopOf(g, before[g][t], ms)), ms)
      {
        LoopedIfCompatible(g, before[g][t], ms);
      }
    }

    method SetLoopDuration() returns (err: Option<LoopError>)
      modifies this
      ensures err == Some(NoTracks) <==> old(groups) == []
      ensures err == Some(Panicked) <==> old(groups) != [] && !HasFirstTrack(old(groups))
      ensures err == Some(NoTracks) || err == Some(Panicked) ==> groups == old(groups) && loopDurMS == old(loopDurMS)
      ensures HasFirstTrack(old(groups)) ==>
        var first := old(groups)[0][0]; var ms := LoopLength(first);
        && (err == None <==> AllAccepted(old(groups), ms))
        && (err.Some? ==> loopDurMS == old(loopDurMS) && DoneUpTo(old(groups), ms, err.value.group, err.value.track))
        && (err == None ==> loopDurMS == ms && DoneUpTo(old(groups), ms, |groups|, 0))
        && (ms == first.duration * 1000 / first.timeScale <==> first.duration * 1000 < TWO_32)
        && (AllFit(old(groups), ms) ==>
             (err == None <==> AllCompatible(old(groups), ms)) && (err == None ==> AllLooped(groups, ms)))
    {
      hide Mul32, AllAccepted, AllCompatible, AllLooped, AllFit, DoneUpTo;
      if |groups| == 0 { return Some(NoTracks); }
      if |groups[0]| == 0 || groups[0][0].timeScale == 0 { return Some(Panicked); }
      ghost var before := groups;
      var ms := Mul32(groups[0][0].duration, 1000) / groups[0][0].timeScale;
      LoopLengthIff(groups[0][0]);
      err := SetLoops(ms);
      if AllFit(before, ms) { ExactIfFits(before, ms); }
      if err == None { loopDurMS := ms; }
    }

    /** The two nested loops: up to the first track that is refused. */
    method SetLoops(ms: uint32) returns (err: Option<LoopError>)
      modifies this`groups
      ensures err == None || err.value.Incompatible?
      ensures (err == None <==> AllAccepted(old(groups), ms))
      ensures err.Some? ==> DoneUpTo(old(groups), ms, err.value.group, err.value.track)
      ensures err == None ==> DoneUpTo(old(groups), ms, |groups|, 0)
    {
      hide Mul32, Accepted, LoopOf;
      ghost var before := groups;
      for g := 0 to |groups|
        invariant DoneUpTo(before, ms, g, 0)
      {
        for t := 0 to |groups[g]|
          invariant DoneUpTo(before, ms, g, t)
        {
          var ok := SetTrack(g, t, ms, before);
          if !ok {
            assert !Accepted(g, before[g][t], ms);
            return Some(Incompatible(g, t));
          }
        }
      }
      return None;
    }

    /** One track: its loop length is set unless it does not fit. */
    method SetTrack(g: nat, t: nat, ms: uint32, ghost before: seq<seq<ContentTrack>>) returns (ok: bool)
      requires g < |groups| && t < |groups[g]| && DoneUpTo(before, ms, g, t)
      modifies this`groups
      ensures ok <==> Accepted(g, before[g][t], ms)
      ensures |groups| == |old(groups)| && |groups[g]| == |old(groups)[g]|
      ensures DoneUpTo(before, ms, g, if ok then t + 1 else t)
    {
      var track := groups[g][t];
      var loopDur := track.duration;
      if g > 0 && track.isAudio {
        if Mul32(track.duration, 1000) < Mul32(ms, track.timeScale) { return false; }
        loopDur := Mul32(ms, track.timeScale) / 1000;
      } else if Mul32(track.duration, 1000) != Mul32(ms, track.timeScale) {
        return false;
      }
      groups := groups[g := groups[g][t := track.(loopDur := loopDur)]];
      return true;
    }
  }

  /** After a successful setLoopDuration, every live sample of every track is a copy of a recorded one. */
  lemma LoopedSampleExists(t: ContentTrack, loopDurMS: nat, nr: nat)
    requires Looped(t, loopDurMS) && t.loopDur > 0 && t.sampleDur > 0 && t.duration == t.count * t.sampleDur
    ensures 0 <= CalcSample(t.sampleDur, t.loopDur, nr).origNr < t.count
  {
    OrigNrInside(t.sampleDur, t.loopDur, nr, t.count);
  }

  // ------------------------------------------------------------ drift against the other tracks

  /** What a loop of this track lacks of loopDurMS, in thousandths of its time unit. */
  function Lost(t: ContentTrack, loopDurMS: nat): nat {
    loopDurMS * t.timeScale % 1000
  }

  /** How late loop w of the track starts after w * loopDurMS milliseconds, in thousandths of its time unit. */
  function Lateness(t: ContentTrack, loopDurMS: nat, w: nat): int
    requires t.sampleDur > 0
  {
    1000 * LoopStart(t.sampleDur, t.loopDur, w) - w * (loopDurMS * t.timeScale)
  }

  predicate WithinOneSample(t: ContentTrack, loopDurMS: nat, w: nat)
    requires t.sampleDur > 0
  {
    -1000 * t.sampleDur < Lateness(t, loopDurMS, w) < 1000 * t.sampleDur
  }

  /** Loop w starts early by w times what one loop lacks, give or take the rounding to a sample. */
  lemma EachLoopLosesTheRest(t: ContentTrack, loopDurMS: nat, w: nat)
    requires Looped(t, loopDurMS) && t.sampleDur > 0
    ensures 0 <= Lateness(t, loopDurMS, w) + w * Lost(t, loopDurMS) < 1000 * t.sampleDur
  {
    var x := loopDurMS * t.timeScale;
    DivMod(x, 1000);
    NoDrift(t.sampleDur, t.loopDur, w);
    calc {
      w * x;
      w * (t.loopDur * 1000 + x % 1000);
      w * (t.loopDur * 1000) + w * (x % 1000);
      { Assoc(w, t.loopDur, 1000); }
      w * t.loopDur * 1000 + w * (x % 1000);
    }
  }

  /**
   A track starts all its loops within one sample of the common time if and only if the loop is a
   whole number of its time units. Otherwise the loops come earlier and earlier.
   */
  lemma LoopsStayTogetherIff(t: ContentTrack, loopDurMS: nat)
    requires Looped(t, loopDurMS) && t.sampleDur > 0
    ensures (forall w: nat :: WithinOneSample(t, loopDurMS, w)) <==> Lost(t, loopDurMS) == 0
  {
    if Lost(t, loopDurMS) == 0 {
      forall w: nat ensures WithinOneSample(t, loopDurMS, w) {
        EachLoopLosesTheRest(t, loopDurMS, w);
        assert w * Lost(t, loopDurMS) == 0;
      }
    } else {
      EarlierThan(t, loopDurMS, 1);
      assert !WithinOneSample(t, loopDurMS, 2000 * t.sampleDur);
    }
  }

  /** There is no bound: after enough loops the track is early by k samples, for every k. */
  lemma EarlierThan(t: ContentTrack, loopDurMS: nat, k: nat)
    requires Looped(t, loopDurMS) && t.sampleDur > 0 && Lost(t, loopDurMS) != 0
    ensures Lateness(t, loopDurMS, 1000 * t.sampleDur * (k + 1)) <= -1000 * t.sampleDur * k
  {
    var d := 1000 * t.sampleDur;
    var w := d * (k + 1);
    EachLoopLosesTheRest(t, loopDurMS, w);
    MulMono(1, Lost(t, loopDurMS), w);
    assert w * Lost(t, loopDurMS) >= w;
    assert w == d * k + d;
    assert -1000 * t.sampleDur * k == -(d * k);
  }

  /**
   Such an asset: 30 frames at 29.97 Hz last 1001 ms; audio of 44 frames at 44.1 kHz is accepted for it and drifts.
   */
  lemma AudioDrifts()
    ensures var t := ContentTrack(true, 45056, 44100, 1024, 44, 44144);
      && Accepted(1, t, 1001) && Fits(t, 1001) && t.loopDur == LoopOf(1, t, 1001) && Looped(t, 1001)
      && Lost(t, 1001) == 100 && !(forall w: nat :: WithinOneSample(t, 1001, w))
  {
    LoopsStayTogetherIff(ContentTrack(true, 45056, 44100, 1024, 44, 44144), 1001);
  }

  /** Without room for the product it goes wrong: one minute at 90 kHz does not even fit itself. */
  lemma OneMinuteOverflows()
    ensures var ms := Mul32(5400000, 1000) / 90000; ms == 12278 && Mul32(5400000, 1000) != Mul32(ms, 90000)
    ensures Compatible(0, ContentTrack(false, 5400000, 90000, 3600, 1500, 0), 60000)
  {
  }
}
