/**
 Live timeline arithmetic: looping a short recording forever without drift
 (internal/asset.go) and cutting the endless sequence of samples into groups and batches
 (internal/moqgroup.go). Numbers are unbounded except where 32-bit products are written out.
 */
module Timeline {
  import opened Protocol

  const MOQ_GROUP_DUR_MS: nat := 1000

  /** x / d rounded up, the way the source writes it. */
  function CeilDiv(x: nat, d: nat): (r: nat)
    requires d > 0
  {
    x / d + if x % d != 0 then 1 else 0
  }

  /** Rounding up: the least number of steps of d that reaches x. */
  lemma CeilDivMeaning(x: nat, d: nat, k: nat)
    requires d > 0
    ensures CeilDiv(x, d) <= k <==> x <= k * d
    ensures x <= CeilDiv(x, d) * d < x + d
  {
    var q, r := x / d, x % d;
    assert x == q * d + r && 0 <= r < d;
    if k >= q + 1 {
      MulMono(q + 1, k, d);
    } else {
      MulMono(k, q, d);
    }
  }

  lemma MulMono(a: int, b: int, d: nat)
    requires a <= b
    ensures a * d <= b * d
  {
    assert (b - a) * d >= 0;
  }

  lemma DivMeaning(x: nat, d: nat, k: nat)
    requires d > 0
    ensures x / d >= k <==> x >= k * d
    ensures x / d * d <= x < (x / d + 1) * d
  {
    var q, r := x / d, x % d;
    assert x == q * d + r && 0 <= r < d;
    if k <= q { MulMono(k, q, d); } else { MulMono(q + 1, k, d); }
  }

  lemma MulCancel(a: int, b: int, d: nat)
    requires d > 0 && a * d < b * d
    ensures a < b
  {
    if a >= b { MulMono(b, a, d); }
  }

  lemma Assoc(a: int, b: int, c: int)
    ensures a * (b * c) == a * b * c
  {
  }

  lemma Distribute(a: int, b: int, c: int)
    ensures (a + b) * c == a * c + b * c
  {
  }

  // ------------------------------------------------------------ looping

  /** How many loops of length loopDur are over when sample nr starts. */
  function Wraps(sampleDur: nat, loopDur: nat, nr: nat): nat
    requires loopDur > 0
  {
    nr * sampleDur / loopDur
  }

  /** Where loop number w begins: at the first sample boundary not before w * loopDur. */
  function LoopStart(sampleDur: nat, loopDur: nat, w: nat): (r: nat)
    requires sampleDur > 0
  {
    var wrapTime := w * loopDur;
    if wrapTime % sampleDur > 0 then wrapTime + (sampleDur - wrapTime % sampleDur) else wrapTime
  }

  lemma LoopStartIsCeil(sampleDur: nat, loopDur: nat, w: nat)
    requires sampleDur > 0
    ensures LoopStart(sampleDur, loopDur, w) == CeilDiv(w * loopDur, sampleDur) * sampleDur
  {
    var x := w * loopDur;
    assert x == x / sampleDur * sampleDur + x % sampleDur;
    if x % sampleDur > 0 {
      assert (x / sampleDur + 1) * sampleDur == x / sampleDur * sampleDur + sampleDur;
    }
  }

  /** The first sample number of loop w. */
  function FirstOfLoop(sampleDur: nat, loopDur: nat, w: nat): nat
    requires sampleDur > 0
  {
    CeilDiv(w * loopDur, sampleDur)
  }

  datatype Sample = Sample(startTime: nat, origNr: int)

  /** CalcSample; the difference of times is an integer here, so that its sign can be proved. */
  function CalcSample(sampleDur: nat, loopDur: nat, nr: nat): Sample
    requires sampleDur > 0 && loopDur > 0
  {
    var startTime := nr * sampleDur;
    var deltaTime := startTime - LoopStart(sampleDur, loopDur, Wraps(sampleDur, loopDur, nr));
    Sample(startTime, deltaTime / sampleDur)
  }

  /** The original number counts the samples since the loop began, so no subtraction underflows. */
  lemma OrigNrCounts(sampleDur: nat, loopDur: nat, nr: nat)
    requires sampleDur > 0 && loopDur > 0
    ensures var w := Wraps(sampleDur, loopDur, nr);
      && LoopStart(sampleDur, loopDur, w) <= nr * sampleDur
      && FirstOfLoop(sampleDur, loopDur, w) <= nr
      && CalcSample(sampleDur, loopDur, nr).origNr == nr - FirstOfLoop(sampleDur, loopDur, w)
  {
    var w := Wraps(sampleDur, loopDur, nr);
    var first := FirstOfLoop(sampleDur, loopDur, w);
    DivMeaning(nr * sampleDur, loopDur, w);
    CeilDivMeaning(w * loopDur, sampleDur, nr);
    LoopStartIsCeil(sampleDur, loopDur, w);
    MulMono(first, nr, sampleDur);
    assert nr * sampleDur - first * sampleDur == (nr - first) * sampleDur;
    DivExact(nr - first, sampleDur);
  }

  lemma DivExact(k: nat, d: nat)
    requires d > 0
    ensures k * d / d == k
  {
    DivMeaning(k * d, d, k);
    DivMeaning(k * d, d, k + 1);
    assert (k + 1) * d == k * d + d;
  }

  /** If the loop is no longer than the recording, every sample number refers to a recorded sample. */
  lemma OrigNrInside(sampleDur: nat, loopDur: nat, nr: nat, count: nat)
    requires sampleDur > 0 && 0 < loopDur <= count * sampleDur
    ensures 0 <= CalcSample(sampleDur, loopDur, nr).origNr < count
  {
    var w := Wraps(sampleDur, loopDur, nr);
    var first := FirstOfLoop(sampleDur, loopDur, w);
    OrigNrCounts(sampleDur, loopDur, nr);
    DivMeaning(nr * sampleDur, loopDur, w);
    CeilDivMeaning(w * loopDur, sampleDur, first);
    assert (w + 1) * loopDur == w * loopDur + loopDur;
    assert nr * sampleDur < (first + count) * sampleDur by {
      assert (first + count) * sampleDur == first * sampleDur + count * sampleDur;
    }
    MulCancel(nr, first + count, sampleDur);
  }

  /** Each loop begins less than one sample after its share of time: there is no drift. */
  lemma NoDrift(sampleDur: nat, loopDur: nat, w: nat)
    requires sampleDur > 0
    ensures w * loopDur <= LoopStart(sampleDur, loopDur, w) < w * loopDur + sampleDur
  {
    LoopStartIsCeil(sampleDur, loopDur, w);
    CeilDivMeaning(w * loopDur, sampleDur, 0);
  }

  /** The next sample number is the next recorded sample, or the first one when the next loop begins. */

  /**
   What CalcSample computes: the time of the live sample, and how far it is behind the first live sample that does
   not lie before the start of its loop.
   */
  lemma SampleMeaning(sampleDur: nat, loopDur: nat, nr: nat, w: nat)
    requires sampleDur > 0 && loopDur > 0 && w * loopDur <= nr * sampleDur < (w + 1) * loopDur
    ensures var c := CalcSample(sampleDur, loopDur, nr);
      c.startTime == nr * sampleDur && w * loopDur <= (nr - c.origNr) * sampleDur < w * loopDur + sampleDur
  {
    hide LoopStart;
    DivMeaning(nr * sampleDur, loopDur, w);
    DivMeaning(nr * sampleDur, loopDur, w + 1);
    assert Wraps(sampleDur, loopDur, nr) == w;
    OrigNrCounts(sampleDur, loopDur, nr);
    NoDrift(sampleDur, loopDur, w);
    LoopStartIsCeil(sampleDur, loopDur, w);
  }

  lemma NextSample(sampleDur: nat, loopDur: nat, nr: nat)
    requires 0 < sampleDur <= loopDur
    ensures var a, b := CalcSample(sampleDur, loopDur, nr), CalcSample(sampleDur, loopDur, nr + 1);
      && b.startTime == a.startTime + sampleDur
      && (if Wraps(sampleDur, loopDur, nr + 1) == Wraps(sampleDur, loopDur, nr) then b.origNr == a.origNr + 1
          else Wraps(sampleDur, loopDur, nr + 1) == Wraps(sampleDur, loopDur, nr) + 1 && b.origNr == 0)
  {
    var w, v := Wraps(sampleDur, loopDur, nr), Wraps(sampleDur, loopDur, nr + 1);
    assert (nr + 1) * sampleDur == nr * sampleDur + sampleDur;
    OrigNrCounts(sampleDur, loopDur, nr);
    OrigNrCounts(sampleDur, loopDur, nr + 1);
    DivMeaning(nr * sampleDur, loopDur, w);
    DivMeaning((nr + 1) * sampleDur, loopDur, w);
    DivMeaning((nr + 1) * sampleDur, loopDur, w + 1);
    DivMeaning((nr + 1) * sampleDur, loopDur, w + 2);
    assert (w + 2) * loopDur == (w + 1) * loopDur + loopDur;
    if v != w {
      assert v == w + 1;
      CeilDivMeaning(v * loopDur, sampleDur, nr);
      CeilDivMeaning(v * loopDur, sampleDur, nr + 1);
    }
  }

  // ------------------------------------------------------------ groups

  /** Media time at which group nr begins. */
  function GroupTime(nr: nat, durMS: nat, timeScale: nat): nat {
    nr * durMS * timeScale / 1000
  }

  function GroupStart(nr: nat, durMS: nat, timeScale: nat, sampleDur: nat): nat
    requires sampleDur > 0
  {
    CeilDiv(GroupTime(nr, durMS, timeScale), sampleDur)
  }

  /** calcMoQGroup: the samples first..end of a group, end excluded. */
  method CalcMoQGroup(nr: nat, durMS: nat, timeScale: nat, sampleDur: nat) returns (startNr: nat, endNr: nat)
    requires sampleDur > 0
    ensures startNr == GroupStart(nr, durMS, timeScale, sampleDur) &&
      endNr == GroupStart(nr + 1, durMS, timeScale, sampleDur)
    ensures forall s: nat :: startNr <= s < endNr <==>
      GroupTime(nr, durMS, timeScale) <= s * sampleDur < GroupTime(nr + 1, durMS, timeScale)
  {
    hide GroupTime;
    var startTime, endTime := GroupTime(nr, durMS, timeScale), GroupTime(nr + 1, durMS, timeScale);
    startNr := startTime / sampleDur;
    if startTime % sampleDur != 0 { startNr := startNr + 1; }
    endNr := endTime / sampleDur;
    if endTime % sampleDur != 0 { endNr := endNr + 1; }
    GroupMembers(startTime, endTime, sampleDur);
  }

  lemma GroupMembers(startTime: nat, endTime: nat, sampleDur: nat)
    requires sampleDur > 0
    ensures forall s: nat :: CeilDiv(startTime, sampleDur) <= s < CeilDiv(endTime, sampleDur) <==>
      startTime <= s * sampleDur < endTime
  {
    hide CeilDiv;
    forall s: nat
      ensures CeilDiv(startTime, sampleDur) <= s < CeilDiv(endTime, sampleDur) <==> startTime <= s * sampleDur < endTime
    {
      CeilDivMeaning(startTime, sampleDur, s);
      CeilDivMeaning(endTime, sampleDur, s);
    }
  }

  lemma GroupTimeMono(a: nat, b: nat, durMS: nat, timeScale: nat)
    requires a <= b
    ensures GroupTime(a, durMS, timeScale) <= GroupTime(b, durMS, timeScale)
  {
    MulMono(a, b, durMS);
    MulMono(a * durMS, b * durMS, timeScale);
  }

  lemma GroupStartMono(a: nat, b: nat, durMS: nat, timeScale: nat, sampleDur: nat)
    requires a <= b && sampleDur > 0
    ensures GroupStart(a, durMS, timeScale, sampleDur) <= GroupStart(b, durMS, timeScale, sampleDur)
  {
    GroupTimeMono(a, b, durMS, timeScale);
    var x, y := GroupTime(a, durMS, timeScale), GroupTime(b, durMS, timeScale);
    CeilDivMeaning(y, sampleDur, 0);
    CeilDivMeaning(x, sampleDur, CeilDiv(y, sampleDur));
  }

  /** Every sample belongs to exactly one group: consecutive groups tile all sample numbers. */
  lemma GroupsTile(s: nat, durMS: nat, timeScale: nat, sampleDur: nat) returns (nr: nat)
    requires sampleDur > 0 && durMS > 0 && timeScale > 0
    ensures GroupStart(nr, durMS, timeScale, sampleDur) <= s < GroupStart(nr + 1, durMS, timeScale, sampleDur)
    ensures forall k: nat ::
      GroupStart(k, durMS, timeScale, sampleDur) <= s < GroupStart(k + 1, durMS, timeScale, sampleDur) ==> k == nr
  {
    nr := FindGroup(s, durMS, timeScale, sampleDur, 0);
    forall k: nat | GroupStart(k, durMS, timeScale, sampleDur) <= s < GroupStart(k + 1, durMS, timeScale, sampleDur)
      ensures k == nr
    {
      if k < nr { GroupStartMono(k + 1, nr, durMS, timeScale, sampleDur); }
      if nr < k { GroupStartMono(nr + 1, k, durMS, timeScale, sampleDur); }
    }
  }

  lemma {:induction false} FindGroup(s: nat, durMS: nat, timeScale: nat, sampleDur: nat, from: nat) returns (nr: nat)
    requires sampleDur > 0 && durMS > 0 && timeScale > 0
    requires GroupStart(from, durMS, timeScale, sampleDur) <= s
    ensures GroupStart(nr, durMS, timeScale, sampleDur) <= s < GroupStart(nr + 1, durMS, timeScale, sampleDur)
    decreases 1000 * (s * sampleDur + 1) - from
  {
    nr := from;
    if GroupStart(from + 1, durMS, timeScale, sampleDur) <= s {
      GroupTimeReaches(from + 1, durMS, timeScale);
      CeilDivMeaning(GroupTime(from + 1, durMS, timeScale), sampleDur, s);
      nr := FindGroup(s, durMS, timeScale, sampleDur, from + 1);
    }
  }

  lemma GroupTimeReaches(nr: nat, durMS: nat, timeScale: nat)
    requires durMS > 0 && timeScale > 0
    ensures nr < 1000 * (GroupTime(nr, durMS, timeScale) + 1)
  {
    MulMono(1, durMS, nr);
    MulMono(1, timeScale, nr * durMS);
    assert nr * durMS * timeScale >= nr;
  }

  /** The first group begins with sample 0. */
  lemma GroupsBeginAtZero(durMS: nat, timeScale: nat, sampleDur: nat)
    requires sampleDur > 0
    ensures GroupStart(0, durMS, timeScale, sampleDur) == 0
  {
  }

  // ------------------------------------------------------------ batches

  datatype Batch = Batch(first: nat, end: nat)

  /** The batches follow each other from one end to the other without gap or overlap. */
  predicate TileRange(batches: seq<Batch>, from: nat, upto: nat) {
    && (forall i :: 0 <= i < |batches| ==> batches[i].first < batches[i].end)
    && (forall i :: 0 < i < |batches| ==> batches[i].first == batches[i - 1].end)
    && (batches == [] ==> from >= upto)
    && (batches != [] ==> batches[0].first == from && batches[|batches| - 1].end == upto)
  }

  /** The batching loop of GenMoQGroup: full batches, except that the last one may be shorter. */
  method CutIntoBatches(startNr: nat, endNr: nat, sampleBatch: nat) returns (batches: seq<Batch>)
    requires sampleBatch > 0
    ensures TileRange(batches, startNr, endNr)
    ensures forall i :: 0 <= i < |batches| - 1 ==> batches[i].end - batches[i].first == sampleBatch
    ensures batches != [] ==> batches[|batches| - 1].end - batches[|batches| - 1].first <= sampleBatch
  {
    batches := [];
    var i := startNr;
    while i < endNr
      invariant i >= startNr && (batches == [] <==> i == startNr)
      invariant forall k :: 0 <= k < |batches| ==> batches[k].first < batches[k].end
      invariant forall k :: 0 < k < |batches| ==> batches[k].first == batches[k - 1].end
      invariant batches != [] ==> batches[0].first == startNr && batches[|batches| - 1].end == Min(i, endNr)
      invariant forall k :: 0 <= k < |batches| - 1 ==> batches[k].end - batches[k].first == sampleBatch
      invariant batches != [] ==> batches[|batches| - 1].end - batches[|batches| - 1].first <= sampleBatch
      invariant batches != [] && i < endNr ==> batches[|batches| - 1].end - batches[|batches| - 1].first == sampleBatch
      decreases endNr - i
    {
      batches := batches + [Batch(i, Min(i + sampleBatch, endNr))];
      i := i + sampleBatch;
    }
  }

  /** Each sample of a tiled range is in exactly one batch. */
  lemma {:induction false} InOneBatch(batches: seq<Batch>, from: nat, upto: nat, s: nat) returns (i: nat)
    requires TileRange(batches, from, upto) && from <= s < upto
    ensures i < |batches| && batches[i].first <= s < batches[i].end
    ensures forall k :: 0 <= k < |batches| && batches[k].first <= s < batches[k].end ==> k == i
    decreases |batches|
  {
    var last := |batches| - 1;
    if batches[last].first <= s {
      i := last;
      forall k | 0 <= k < |batches| && batches[k].first <= s < batches[k].end
        ensures k == i
      {
        if k < last { Increasing(batches, from, upto, k, last); }
      }
    } else {
      var init := batches[..last];
      assert init[|init| - 1] == batches[last - 1];
      i := InOneBatch(init, from, batches[last - 1].end, s);
      assert forall k :: 0 <= k < last ==> init[k] == batches[k];
    }
  }

  lemma {:induction false} Increasing(batches: seq<Batch>, from: nat, upto: nat, i: nat, j: nat)
    requires TileRange(batches, from, upto) && i < j < |batches|
    ensures batches[i].end <= batches[j].first
    decreases j
  {
    if i < j - 1 { Increasing(batches, from, upto, i, j - 1); }
  }

  // ------------------------------------------------------------ groups of scalable video

  datatype VideoSample = VideoSample(isSync: bool, decodeTime: nat)

  datatype GopError = InvalidTiming | WrongGopDuration | NoSamples | SyncMisaligned(i: nat) | TimeMisaligned(i: nat)

  /** Sync samples are exactly the first ones of each group of pictures, and those start on whole seconds. */
  predicate GopOk(samples: seq<VideoSample>, gopLength: nat, timeScale: nat)
    requires gopLength > 0 && timeScale > 0
  {
    forall i :: 0 <= i < |samples| ==>
      (samples[i].isSync <==> i % gopLength == 0) && (i % gopLength == 0 ==> samples[i].decodeTime % timeScale == 0)
  }

  method ValidateAV1SVCGOP(samples: seq<VideoSample>, gopLength: nat, sampleDur: nat, timeScale: nat)
      returns (err: Option<GopError>)
    ensures err == None <==>
      timeScale > 0 && sampleDur > 0 && gopLength > 0 && gopLength * sampleDur * 1000 == MOQ_GROUP_DUR_MS * timeScale
      && samples != [] && GopOk(samples, gopLength, timeScale)
  {
    if timeScale == 0 || sampleDur == 0 { return Some(InvalidTiming); }
    if gopLength == 0 || gopLength * sampleDur * 1000 != MOQ_GROUP_DUR_MS * timeScale { return Some(WrongGopDuration); }
    if |samples| == 0 { return Some(NoSamples); }
    for i := 0 to |samples|
      invariant forall k :: 0 <= k < i ==>
        (samples[k].isSync <==> k % gopLength == 0) && (k % gopLength == 0 ==> samples[k].decodeTime % timeScale == 0)
    {
      var expectedSync := i % gopLength == 0;
      if samples[i].isSync != expectedSync { return Some(SyncMisaligned(i)); }
      if expectedSync && samples[i].decodeTime % timeScale != 0 { return Some(TimeMisaligned(i)); }
    }
    return None;
  }

  lemma WrapsMeaning(sampleDur: nat, loopDur: nat, nr: nat)
    requires loopDur > 0
    ensures var w := Wraps(sampleDur, loopDur, nr); w * loopDur <= nr * sampleDur < (w + 1) * loopDur
  {
    DivMeaning(nr * sampleDur, loopDur, 0);
  }

  /** With a loop of exactly count samples, the original number is the number modulo count. */
  lemma LoopOfWholeSamples(sampleDur: nat, count: nat, nr: nat)
    requires sampleDur > 0 && count > 0 && count * sampleDur > 0
    ensures CalcSample(sampleDur, count * sampleDur, nr).origNr == nr % count
  {
    hide CalcSample, Wraps, FirstOfLoop, LoopStart;
    var loopDur := count * sampleDur;
    var w := Wraps(sampleDur, loopDur, nr);
    OrigNrCounts(sampleDur, loopDur, nr);
    WrapsMeaning(sampleDur, loopDur, nr);
    Assoc(w + 1, count, sampleDur);
    MulCancel(nr, (w + 1) * count, sampleDur);
    FirstOfWholeLoop(sampleDur, count, w);
    Distribute(w, 1, count);
    ModUnique(nr, count, w);
  }

  lemma FirstOfWholeLoop(sampleDur: nat, count: nat, w: nat)
    requires sampleDur > 0
    ensures FirstOfLoop(sampleDur, count * sampleDur, w) == w * count
  {
    Assoc(w, count, sampleDur);
    WholeSteps(w * count, sampleDur);
  }

  lemma ModUnique(x: nat, d: nat, q: nat)
    requires d > 0 && q * d <= x < q * d + d
    ensures x % d == x - q * d && x / d == q
  {
    DivMeaning(x, d, q);
    DivMeaning(x, d, q + 1);
    assert (q + 1) * d == q * d + d;
    assert x == x / d * d + x % d;
  }

  /** A group lasts exactly one group of pictures. */
  lemma GroupIsGop(nr: nat, gopLength: nat, sampleDur: nat, timeScale: nat)
    requires sampleDur > 0 && gopLength * sampleDur * 1000 == MOQ_GROUP_DUR_MS * timeScale
    ensures GroupStart(nr, MOQ_GROUP_DUR_MS, timeScale, sampleDur) == nr * gopLength
  {
    hide CeilDiv;
    var gop := gopLength * sampleDur;
    Assoc(nr, MOQ_GROUP_DUR_MS, timeScale);
    Assoc(nr, gop, 1000);
    DivExact(nr * gop, 1000);
    Assoc(nr, gopLength, sampleDur);
    WholeSteps(nr * gopLength, sampleDur);
  }

  lemma WholeSteps(k: nat, d: nat)
    requires d > 0
    ensures CeilDiv(k * d, d) == k
  {
    hide CeilDiv;
    CeilDivMeaning(k * d, d, k);
    if k > 0 {
      CeilDivMeaning(k * d, d, k - 1);
      Distribute(k - 1, 1, d);
    }
  }

  /** The live sample s, a copy of a recorded one, is a sync sample. */
  predicate LiveSync(samples: seq<VideoSample>, sampleDur: nat, s: nat)
    requires sampleDur > 0 && samples != [] && |samples| * sampleDur > 0
  {
    var i := CalcSample(sampleDur, |samples| * sampleDur, s).origNr;
    0 <= i < |samples| && samples[i].isSync
  }

  lemma LiveSyncIff(samples: seq<VideoSample>, gopLength: nat, sampleDur: nat, timeScale: nat, s: nat)
    requires sampleDur > 0 && gopLength > 0 && timeScale > 0 && samples != [] && GopOk(samples, gopLength, timeScale)
    requires |samples| * sampleDur > 0
    ensures LiveSync(samples, sampleDur, s) <==> s % |samples| % gopLength == 0
  {
    LoopOfWholeSamples(sampleDur, |samples|, s);
  }

  /** Every group starts with a sync sample and contains no other. */
  ghost predicate GroupsStartWithSync(samples: seq<VideoSample>, sampleDur: nat, timeScale: nat)
    requires sampleDur > 0 && samples != [] && |samples| * sampleDur > 0
  {
    forall nr: nat, s: nat ::
      GroupStart(nr, MOQ_GROUP_DUR_MS, timeScale, sampleDur) <= s < GroupStart(nr + 1, MOQ_GROUP_DUR_MS, timeScale,
        sampleDur) ==>
      (LiveSync(samples, sampleDur, s) <==> s == GroupStart(nr, MOQ_GROUP_DUR_MS, timeScale, sampleDur))
  }

  /**
   For a validated track, every group starts with a sync sample and has no other, if and only if
   the recording is a whole number of groups of pictures.
   */
  lemma GroupsAlignedIff(samples: seq<VideoSample>, gopLength: nat, sampleDur: nat, timeScale: nat)
    requires sampleDur > 0 && gopLength > 0 && timeScale > 0 && samples != [] && GopOk(samples, gopLength, timeScale)
    requires gopLength * sampleDur * 1000 == MOQ_GROUP_DUR_MS * timeScale && |samples| * sampleDur > 0
    ensures GroupsStartWithSync(samples, sampleDur, timeScale) <==> |samples| % gopLength == 0
  {
    hide GroupStart, LiveSync, GopOk;
    var count := |samples|;
    if count % gopLength == 0 {
      forall nr: nat, s: nat |
        GroupStart(nr, MOQ_GROUP_DUR_MS, timeScale, sampleDur) <= s < GroupStart(nr + 1, MOQ_GROUP_DUR_MS, timeScale,
          sampleDur)
        ensures LiveSync(samples, sampleDur, s) <==> s == GroupStart(nr, MOQ_GROUP_DUR_MS, timeScale, sampleDur)
      {
        GroupIsGop(nr, gopLength, sampleDur, timeScale);
        GroupIsGop(nr + 1, gopLength, sampleDur, timeScale);
        LiveSyncIff(samples, gopLength, sampleDur, timeScale, s);
        ModOfMod(s, count, gopLength);
        Distribute(nr, 1, gopLength);
        ModUnique(s, gopLength, nr);
      }
    } else {
      StrayGop(samples, gopLength, sampleDur, timeScale);
    }
  }

  /** If the last group of pictures is cut short, the next loop begins in the middle of a group. */
  lemma StrayGop(samples: seq<VideoSample>, gopLength: nat, sampleDur: nat, timeScale: nat)
    requires sampleDur > 0 && gopLength > 0 && timeScale > 0 && samples != [] && GopOk(samples, gopLength, timeScale)
    requires gopLength * sampleDur * 1000 == MOQ_GROUP_DUR_MS * timeScale && |samples| * sampleDur > 0
    requires |samples| % gopLength != 0
    ensures !GroupsStartWithSync(samples, sampleDur, timeScale)
  {
    hide GroupStart, LiveSync, GopOk;
    var count := |samples|;
    var nr := count / gopLength;
    DivMeaning(count, gopLength, nr);
    GroupIsGop(nr, gopLength, sampleDur, timeScale);
    GroupIsGop(nr + 1, gopLength, sampleDur, timeScale);
    Distribute(nr, 1, gopLength);
    ModUnique(count, gopLength, nr);
    LiveSyncIff(samples, gopLength, sampleDur, timeScale, count);
    ModUnique(count, count, 1);
    assert LiveSync(samples, sampleDur, count) && count != GroupStart(nr, MOQ_GROUP_DUR_MS, timeScale, sampleDur);
  }

  lemma ModOfMod(s: nat, count: nat, gop: nat)
    requires count > 0 && gop > 0 && count % gop == 0
    ensures s % count % gop == s % gop
  {
    DivMod(s, count);
    DivMod(count, gop);
    DivMod(s % count, gop);
    Regroup(s, gop, s / count, count / gop, s % count / gop, s % count % gop);
  }

  lemma Regroup(s: nat, gop: nat, q: nat, k: nat, p: nat, r: nat)
    requires gop > 0 && s == q * (k * gop) + (p * gop + r) && r < gop
    ensures s % gop == r
  {
    Assoc(q, k, gop);
    Distribute(q * k, p, gop);
    ModUnique(s, gop, q * k + p);
  }

  lemma DivMod(x: nat, d: nat)
    requires d > 0
    ensures x == x / d * d + x % d && 0 <= x % d < d
  {
  }
}
