/**
 Path MTU discovery (deps/quic-go/mtu_discoverer.go): a binary search that tolerates the
 loss of two probes. One generation of the search as a pure machine, its invariant, why it
 ends whatever happens to the probes, and how accurate its result is.
 */
module MtuSpec {
  import opened Protocol

  const MAX_MTU_DIFF: int := 20
  const MAX_LOST_PROBES: nat := 3

  /** min is known to be supported; lost holds up to three lost sizes, sorted, then -1. */
  datatype Search = Search(min: int, lost: seq<int>, lastProbeWasLost: bool)

  function Start(start: int, max: int): Search {
    Search(start, [max, INVALID_BYTE_COUNT, INVALID_BYTE_COUNT], false)
  }

  /** The number of lost sizes remembered. */
  function Size(lost: seq<int>): nat
    requires |lost| == 3
  {
    if lost[1] == INVALID_BYTE_COUNT then 1 else if lost[2] == INVALID_BYTE_COUNT then 2 else 3
  }

  function MaxSize(lost: seq<int>): int
    requires |lost| == 3
  {
    lost[Size(lost) - 1]
  }

  predicate Done(f: Search)
    requires |f.lost| == 3
  {
    MaxSize(f.lost) - f.min <= MAX_MTU_DIFF + 1
  }

  function ProbeSize(f: Search): int
    requires |f.lost| == 3
  {
    if f.lastProbeWasLost then (f.min + f.lost[0]) / 2 else (f.min + MaxSize(f.lost)) / 2
  }

  predicate Inv(f: Search) {
    && |f.lost| == 3
    && 0 <= f.min <= f.lost[0]
    && (f.lost[1] == INVALID_BYTE_COUNT || f.lost[0] <= f.lost[1])
    && (f.lost[2] == INVALID_BYTE_COUNT || (f.lost[1] != INVALID_BYTE_COUNT && f.lost[1] <= f.lost[2]))
  }

  /** The first remembered size larger than size, or 0 if there is none. */
  function FirstLarger(lost: seq<int>, size: int): nat
    requires |lost| == 3
  {
    if size < lost[0] then 0 else if size < lost[1] then 1 else if size < lost[2] then 2 else 0
  }

  function Acked(f: Search): Search
    requires |f.lost| == 3
  {
    var size := ProbeSize(f);
    var j := FirstLarger(f.lost, size);
    Search(size, f.lost[j..] + seq(j, _ => INVALID_BYTE_COUNT), false)
  }

  function Lost(f: Search): Search
    requires |f.lost| == 3
  {
    var size := ProbeSize(f);
    var lost :=
      if size < f.lost[0] then [size, f.lost[0], f.lost[1]]
      else if size < f.lost[1] then [f.lost[0], size, f.lost[1]]
      else if size < f.lost[2] then [f.lost[0], f.lost[1], size]
      else f.lost;
    Search(f.min, lost, true)
  }

  function Step(f: Search, acked: bool): Search
    requires |f.lost| == 3
  {
    if acked then Acked(f) else Lost(f)
  }

  lemma StartInv(start: int, max: int)
    requires 0 <= start <= max
    ensures Inv(Start(start, max))
  {
  }

  /** Each probe lies in [min, max) and narrows the interval from one side only. */
  lemma StepInv(f: Search, acked: bool)
    requires Inv(f) && !Done(f)
    ensures f.min <= ProbeSize(f) < MaxSize(f.lost)
    ensures Inv(Step(f, acked))
    ensures f.min <= Step(f, acked).min
    ensures MaxSize(Step(f, acked).lost) <= MaxSize(f.lost)
    ensures acked ==> MaxSize(Step(f, acked).lost) == MaxSize(f.lost) && Step(f, acked).min == ProbeSize(f)
    ensures !acked ==> Step(f, acked).min == f.min
  {
    AckedShape(f);
  }

  lemma AckedShape(f: Search)
    requires Inv(f)
    ensures var j := FirstLarger(f.lost, ProbeSize(f));
      Acked(f).lost == if j == 0 then f.lost
                       else if j == 1 then [f.lost[1], f.lost[2], INVALID_BYTE_COUNT]
                       else [f.lost[2], INVALID_BYTE_COUNT, INVALID_BYTE_COUNT]
  {
  }

  // ------------------------------------------------------------ what is remembered, and where the next probe goes

  function Remembered(lost: seq<int>): multiset<int>
    requires |lost| == 3
  {
    multiset(lost[..Size(lost)])
  }

  predicate Smallest(lost: seq<int>, l: int)
    requires |lost| == 3
  {
    l in Remembered(lost) && forall x :: x in Remembered(lost) ==> l <= x
  }

  /** A lost size is remembered; of more than three, the largest is forgotten. */
  lemma LossIsRemembered(f: Search, x: int)
    requires Inv(f) && !Done(f)
    ensures Remembered(Lost(f).lost)[x] == Remembered(f.lost)[x] + (if x == ProbeSize(f) then 1 else 0)
      - if Size(f.lost) == MAX_LOST_PROBES && x == MaxSize(f.lost) then 1 else 0
    ensures x in Remembered(f.lost) ==> x <= MaxSize(f.lost)
    ensures Lost(f).min == f.min && Lost(f).lastProbeWasLost
  {
    hide Remembered, ProbeSize, Done;
    ProbeInside(f);
    LargestRemembered(f, x);
    LossCounts(f, x);
  }

  lemma LossCounts(f: Search, x: int)
    requires Inv(f) && 0 <= ProbeSize(f) < MaxSize(f.lost)
    ensures Remembered(Lost(f).lost)[x] == Remembered(f.lost)[x] + (if x == ProbeSize(f) then 1 else 0)
      - if Size(f.lost) == MAX_LOST_PROBES && x == MaxSize(f.lost) then 1 else 0
  {
    hide Remembered, ProbeSize;
    Counted(f.lost, x);
    Counted(Lost(f).lost, x);
  }

  function CountIn(lost: seq<int>, x: int): nat
    requires |lost| == 3
  {
    (if lost[0] == x then 1 else 0) + (if Size(lost) >= 2 && lost[1] == x then 1 else 0)
    + (if Size(lost) == 3 && lost[2] == x then 1 else 0)
  }

  lemma Counted(lost: seq<int>, x: int)
    requires |lost| == 3
    ensures Remembered(lost)[x] == CountIn(lost, x)
  {
    hide Remembered;
    Listed(lost);
  }

  lemma LargestRemembered(f: Search, x: int)
    requires Inv(f)
    ensures x in Remembered(f.lost) ==> x <= MaxSize(f.lost)
  {
    hide Remembered;
    Listed(f.lost);
  }

  lemma ProbeInside(f: Search)
    requires Inv(f) && !Done(f)
    ensures 0 <= ProbeSize(f) < MaxSize(f.lost)
  {
  }

  /** An acknowledged size makes the search forget all lost sizes that are not larger. */
  lemma AckForgets(f: Search, x: int)
    requires Inv(f) && !Done(f)
    ensures Remembered(Acked(f).lost)[x] == if x > ProbeSize(f) then Remembered(f.lost)[x] else 0
    ensures Acked(f).min == ProbeSize(f) && !Acked(f).lastProbeWasLost
  {
    hide Remembered;
    AckedShape(f);
    Listed(f.lost);
    Listed(Acked(f).lost);
  }

  lemma Listed(lost: seq<int>)
    requires |lost| == 3
    ensures Remembered(lost) == match Size(lost)
      case 1 => multiset{lost[0]}
      case 2 => multiset{lost[0], lost[1]}
      case _ => multiset{lost[0], lost[1], lost[2]}
  {
    assert lost[..1] == [lost[0]] && lost[..2] == [lost[0], lost[1]] && lost[..3] == [lost[0], lost[1], lost[2]];
  }

  /** q is the middle between a and b, rounded down. */
  predicate Halfway(q: int, a: int, b: int) {
    2 * q <= a + b < 2 * q + 2
  }

  /**
   After an acknowledgement the next probe goes halfway to the maximum. After a loss it retreats: halfway from
   min to the smallest lost size remembered, which is below the lost probe unless that was at min already.
   */
  lemma NextProbe(f: Search, acked: bool)
    requires Inv(f) && !Done(f)
    ensures var g := Step(f, acked); var q := ProbeSize(g);
      if acked then Halfway(q, g.min, MaxSize(g.lost))
      else
        && (exists l :: Smallest(g.lost, l) && Halfway(q, g.min, l))
        && (if ProbeSize(f) == f.min then q == f.min else f.min <= q < ProbeSize(f))
  {
    var g := Step(f, acked);
    StepInv(f, acked);
    Listed(g.lost);
    if !acked { assert Smallest(g.lost, g.lost[0]); }
  }

  lemma FirstProbe(start: int, max: int)
    requires 0 <= start <= max
    ensures Halfway(ProbeSize(Start(start, max)), start, max)
  {
  }

  // ------------------------------------------------------------ termination

  function Above(min: int, x: int, pad: int): int { if x > min then x else pad }

  /** The remembered sizes above min, padded to three with the current maximum, added up. */
  function Potential(f: Search): (p: nat)
    requires Inv(f)
  {
    var m := MaxSize(f.lost);
    Above(f.min, f.lost[0], m) + Above(f.min, f.lost[1], m) + Above(f.min, f.lost[2], m)
  }

  /** Free slots plus remembered sizes above min. */
  function Room(f: Search): nat
    requires Inv(f)
  {
    (if f.lost[0] > f.min then 1 else 0) +
    (if f.lost[1] == INVALID_BYTE_COUNT || f.lost[1] > f.min then 1 else 0) +
    (if f.lost[2] == INVALID_BYTE_COUNT || f.lost[2] > f.min then 1 else 0)
  }

  /** g is closer to the end of the search than f. */
  predicate Closer(g: Search, f: Search)
    requires Inv(f) && Inv(g)
  {
    g.min > f.min ||
    (g.min == f.min &&
     (Potential(g) < Potential(f) ||
      (Potential(g) == Potential(f) &&
       ((f.lastProbeWasLost && !g.lastProbeWasLost) ||
        (f.lastProbeWasLost == g.lastProbeWasLost && Room(g) < Room(f))))))
  }

  /** Acknowledged or lost, even a probe of size min or of a size lost before brings the end closer. */
  lemma StepCloser(f: Search, acked: bool)
    requires Inv(f) && !Done(f)
    ensures Inv(Step(f, acked)) && Closer(Step(f, acked), f)
  {
    StepInv(f, acked);
    AckedShape(f);
  }

  /** The search after n probes, when the i-th probe is acknowledged if acked(i). */
  function After(f: Search, acked: nat -> bool, n: nat): Search
    requires Inv(f)
    ensures Inv(After(f, acked, n))
  {
    if n == 0 then f
    else
      var g := After(f, acked, n - 1);
      if Done(g) then g else StepInv(g, acked(n - 1)); Step(g, acked(n - 1))
  }

  lemma AfterNone(f: Search, acked: nat -> bool)
    requires Inv(f)
    ensures After(f, acked, 0) == f
  {
  }

  lemma AfterNext(f: Search, acked: nat -> bool, n: nat)
    requires Inv(f)
    ensures var g := After(f, acked, n);
      After(f, acked, n + 1) == if Done(g) then g else Step(g, acked(n))
  {
  }

  lemma {:induction false} AfterBounds(f: Search, acked: nat -> bool, n: nat)
    requires Inv(f)
    ensures f.min <= After(f, acked, n).min
    ensures MaxSize(After(f, acked, n).lost) <= MaxSize(f.lost)
  {
    hide After, Step, Done, MaxSize, ProbeSize;
    if n == 0 {
      AfterNone(f, acked);
    } else {
      var g := After(f, acked, n - 1);
      AfterNext(f, acked, n - 1);
      AfterBounds(f, acked, n - 1);
      if !Done(g) { StepInv(g, acked(n - 1)); }
    }
  }

  lemma MinBelowMax(f: Search)
    requires Inv(f)
    ensures 0 <= f.min <= MaxSize(f.lost)
  {
  }

  /** For arbitrary fates of the probes, the search is done after finitely many of them. */
  lemma {:induction false} Terminates(f: Search, acked: nat -> bool, k: nat) returns (n: nat)
    requires Inv(f)
    ensures n >= k && Done(After(f, acked, n))
    decreases MaxSize(f.lost) - After(f, acked, k).min, Potential(After(f, acked, k)),
              After(f, acked, k).lastProbeWasLost, Room(After(f, acked, k))
  {
    hide After, Step, Potential, Room, Done, MaxSize;
    n := k;
    var g := After(f, acked, k);
    if !Done(g) {
      AfterNext(f, acked, k);
      MinBelowMax(g);
      AfterBounds(f, acked, k);
      StepCloser(g, acked(k));
      n := Terminates(f, acked, k + 1);
    }
  }

  // ------------------------------------------------------------ how many probes it takes

  function Range(f: Search): int
    requires |f.lost| == 3
  {
    MaxSize(f.lost) - f.min
  }

  function One(b: bool): nat { if b then 1 else 0 }

  /** How many lost sizes are at min, and how many above it in the lower half of the range up to top. */
  function AtMin(f: Search): nat
    requires |f.lost| == 3
  {
    One(f.lost[0] == f.min) + One(f.lost[1] == f.min) + One(f.lost[2] == f.min)
  }

  function Low(f: Search, x: int, top: int): bool { f.min < x && 2 * x <= f.min + top }

  function Lower(f: Search, top: int): nat
    requires |f.lost| == 3
  {
    One(Low(f, f.lost[0], top)) + One(Low(f, f.lost[1], top)) + One(Low(f, f.lost[2], top))
  }

  /** A bound on the probes until the range up to top is halved: acknowledgements after a loss only delay it. */
  function Rank(f: Search, top: int): int
    requires |f.lost| == 3
  {
    var s, e := Lower(f, top), AtMin(f);
    (if s == 0 then 5 else if s == 1 then 2 else 0) + if f.lastProbeWasLost then 4 - s - e else 1
  }

  predicate Halved(f: Search, range: int)
    requires |f.lost| == 3
  {
    2 * Range(f) <= range + 1
  }

  /** Three lost sizes in the lower half put the maximum there. */
  lemma RankFalls(f: Search, acked: bool, top: int)
    requires Inv(f) && !Done(f) && MaxSize(f.lost) <= top && Lower(f, top) + AtMin(f) <= 2
    ensures var g := Step(f, acked);
      || Halved(g, top - f.min)
      || (Lower(g, top) + AtMin(g) <= 2 && Rank(g, top) < Rank(f, top))
  {
    AckedShape(f);
  }

  lemma RankBounds(f: Search, top: int)
    requires Inv(f) && Lower(f, top) + AtMin(f) <= 2
    ensures 1 <= Rank(f, top) <= 9
  {
  }

  lemma StartOfRound(f: Search)
    requires Inv(f) && !Done(f)
    ensures Lower(f, MaxSize(f.lost)) + AtMin(f) <= 2
  {
  }

  /** n probes after the k-th, the range is halved, or the rank is smaller by n. */
  lemma {:induction false} RoundGoesOn(f: Search, acked: nat -> bool, k: nat, n: nat)
    requires Inv(f)
    ensures var a, g := After(f, acked, k), After(f, acked, k + n);
      var top := MaxSize(a.lost);
      || Done(g)
      || Halved(g, Range(a))
      || (a.min <= g.min && MaxSize(g.lost) <= top && Lower(g, top) + AtMin(g) <= 2 && Rank(g, top) + n <= Rank(a, top))
  {
    hide After, Step, Done, Rank, Lower, AtMin;
    var a := After(f, acked, k);
    var top := MaxSize(a.lost);
    if n == 0 {
      if !Done(a) { StartOfRound(a); }
    } else {
      var g := After(f, acked, k + n - 1);
      RoundGoesOn(f, acked, k, n - 1);
      AfterNext(f, acked, k + n - 1);
      if !Done(g) {
        StepInv(g, acked(k + n - 1));
        if !Halved(g, Range(a)) { RankFalls(g, acked(k + n - 1), top); }
      }
    }
  }

  /** Nine probes halve the range, whatever becomes of them. */
  lemma NineProbesHalve(f: Search, acked: nat -> bool, k: nat)
    requires Inv(f)
    ensures var g := After(f, acked, k + 9); Done(g) || Halved(g, Range(After(f, acked, k)))
  {
    hide After, Done, Rank;
    RoundGoesOn(f, acked, k, 9);
    var a, g := After(f, acked, k), After(f, acked, k + 9);
    var top := MaxSize(a.lost);
    if !Done(g) && !Halved(g, Range(a)) {
      RankBounds(g, top);
      if Done(a) { StaysDone(f, acked, k, k + 9); } else {
        StartOfRound(a);
        RankBounds(a, top);
      }
    }
  }

  function Pow2(m: nat): nat { if m == 0 then 1 else 2 * Pow2(m - 1) }

  /** The number of probes is logarithmic: a range of 20 * 2^m + 1 bytes takes at most 9 * m of them. */
  lemma {:induction false} LogarithmicallyManyProbes(f: Search, acked: nat -> bool, k: nat, m: nat)
    requires Inv(f) && Range(After(f, acked, k)) <= MAX_MTU_DIFF * Pow2(m) + 1
    ensures Done(After(f, acked, k + 9 * m))
    decreases m
  {
    hide After;
    if m > 0 {
      NineProbesHalve(f, acked, k);
      var g := After(f, acked, k + 9);
      if Done(g) {
        StaysDone(f, acked, k + 9, k + 9 * m);
      } else {
        LogarithmicallyManyProbes(f, acked, k + 9, m - 1);
        assert k + 9 + 9 * (m - 1) == k + 9 * m;
      }
    }
  }

  // --------------------------------------------------------------- accuracy

  /** Only probes of at most limit bytes arrive on the path. */
  predicate Carries(f: Search, acked: nat -> bool, n: nat, limit: int)
    requires Inv(f)
  {
    forall i: nat :: i < n && acked(i) && !Done(After(f, acked, i)) ==> ProbeSize(After(f, acked, i)) <= limit
  }

  /** The number of lost probes that the path would have carried. */
  function UnluckyLosses(f: Search, acked: nat -> bool, n: nat, limit: int): nat
    requires Inv(f)
  {
    if n == 0 then 0
    else
      var g := After(f, acked, n - 1);
      UnluckyLosses(f, acked, n - 1, limit) + if !Done(g) && !acked(n - 1) && ProbeSize(g) <= limit then 1 else 0
  }

  /** The remembered sizes below t. */
  function Below(lost: seq<int>, t: int): nat
    requires |lost| == 3
  {
    (if lost[0] < t then 1 else 0) +
    (if lost[1] != INVALID_BYTE_COUNT && lost[1] < t then 1 else 0) +
    (if lost[2] != INVALID_BYTE_COUNT && lost[2] < t then 1 else 0)
  }

  lemma StepBelow(f: Search, acked: bool, t: int)
    requires Inv(f) && !Done(f) && MaxSize(f.lost) >= t && Below(Step(f, acked).lost, t) <= 2
    ensures MaxSize(Step(f, acked).lost) >= t
  {
    StepInv(f, acked);
  }

  lemma StepAddsBelow(f: Search, acked: bool, t: int)
    requires Inv(f) && !Done(f)
    ensures Below(Step(f, acked).lost, t) <= Below(f.lost, t) + if !acked && ProbeSize(f) < t then 1 else 0
  {
    AckedShape(f);
  }

  lemma StartsAccurate(start: int, max: int, acked: nat -> bool, limit: int)
    requires 0 <= start <= max && start <= limit && Inv(Start(start, max))
    ensures After(Start(start, max), acked, 0) == Start(start, max) && MaxSize(Start(start, max).lost) == max
    ensures Below(Start(start, max).lost, Min(limit + 1, max)) == 0
  {
  }

  lemma AccuracyStep(f: Search, acked: nat -> bool, n: nat, limit: int)
    requires Inv(f) && Carries(f, acked, n, limit) && n > 0
    ensures Carries(f, acked, n - 1, limit)
    ensures var g := After(f, acked, n - 1);
      && (!Done(g) && acked(n - 1) ==> ProbeSize(g) <= limit)
      && UnluckyLosses(f, acked, n, limit) ==
         UnluckyLosses(f, acked, n - 1, limit) + if !Done(g) && !acked(n - 1) && ProbeSize(g) <= limit then 1 else 0
  {
  }

  lemma {:induction false} StaysAccurate(start: int, max: int, acked: nat -> bool, n: nat, limit: int)
    requires 0 <= start <= max && start <= limit
    requires Inv(Start(start, max)) && Carries(Start(start, max), acked, n, limit)
    requires UnluckyLosses(Start(start, max), acked, n, limit) <= 2
    ensures var g := After(Start(start, max), acked, n);
      && g.min <= limit
      && Below(g.lost, Min(limit + 1, max)) <= UnluckyLosses(Start(start, max), acked, n, limit)
      && Min(limit + 1, max) <= MaxSize(g.lost) <= max
  {
    hide After, Step, Below, MaxSize, Done, ProbeSize, Carries, UnluckyLosses;
    var f := Start(start, max);
    AfterBounds(f, acked, n);
    if n == 0 {
      StartsAccurate(start, max, acked, limit);
    } else {
      var g := After(f, acked, n - 1);
      AfterNext(f, acked, n - 1);
      AccuracyStep(f, acked, n, limit);
      StaysAccurate(start, max, acked, n - 1, limit);
      if !Done(g) {
        StepInv(g, acked(n - 1));
        StepAddsBelow(g, acked(n - 1), Min(limit + 1, max));
        StepBelow(g, acked(n - 1), Min(limit + 1, max));
      }
    }
  }

  /**
   The search ends, and if the path carries exactly the probes of at most limit bytes, except
   for at most two unlucky losses, it ends within 21 bytes of the best possible result.
   */
  lemma Accuracy(start: int, max: int, acked: nat -> bool, limit: int) returns (n: nat)
    requires 0 <= start <= max && start <= limit
    requires Inv(Start(start, max)) && forall i: nat :: Carries(Start(start, max), acked, i, limit)
    requires forall i: nat :: UnluckyLosses(Start(start, max), acked, i, limit) <= 2
    ensures forall i: nat :: i >= n ==> Done(After(Start(start, max), acked, i))
    ensures forall i: nat :: Done(After(Start(start, max), acked, i)) ==>
      Min(limit + 1, max) - MAX_MTU_DIFF - 1 <= After(Start(start, max), acked, i).min <= limit
  {
    var f := Start(start, max);
    n := Terminates(f, acked, 0);
    forall i: nat | i >= n
      ensures Done(After(f, acked, i))
    {
      StaysDone(f, acked, n, i);
    }
    forall i: nat | Done(After(f, acked, i))
      ensures Min(limit + 1, max) - MAX_MTU_DIFF - 1 <= After(f, acked, i).min <= limit
    {
      StaysAccurate(start, max, acked, i, limit);
    }
  }

  lemma {:induction false} StaysDone(f: Search, acked: nat -> bool, n: nat, i: nat)
    requires Inv(f) && n <= i && Done(After(f, acked, n))
    ensures After(f, acked, i) == After(f, acked, n)
  {
    hide After, Step, Done;
    if n < i {
      StaysDone(f, acked, n, i - 1);
      AfterNext(f, acked, i - 1);
    }
  }

  /** Two is the best tolerance possible: three unlucky losses cost 500 bytes here. */
  lemma ThreeLossesMislead(acked: nat -> bool)
    requires forall i: nat :: acked(i) <==> i >= 3
    ensures Inv(Start(1000, 2000))
    ensures forall i: nat :: UnluckyLosses(Start(1000, 2000), acked, i, 2000) <= 3
    ensures forall i: nat :: After(Start(1000, 2000), acked, i).min <= 1500
  {
    var f := Start(1000, 2000);
    assert After(f, acked, 1) == Search(1000, [1500, 2000, -1], true);
    assert After(f, acked, 2) == Search(1000, [1250, 1500, 2000], true);
    assert After(f, acked, 3) == Search(1000, [1125, 1250, 1500], true);
    forall i: nat
      ensures UnluckyLosses(f, acked, i, 2000) <= 3
      ensures After(f, acked, i).min <= 1500
    {
      LossesSoFar(f, acked, i, 2000);
      if i <= 3 { AfterBounds(f, acked, i); }
      MisledBound(acked, i);
    }
  }

  lemma {:induction false} LossesSoFar(f: Search, acked: nat -> bool, n: nat, limit: int)
    requires Inv(f) && forall i: nat :: acked(i) <==> i >= 3
    ensures UnluckyLosses(f, acked, n, limit) <= Min(n, 3)
  {
    if n > 0 { LossesSoFar(f, acked, n - 1, limit); }
  }

  lemma {:induction false} MisledBound(acked: nat -> bool, n: nat)
    requires forall i: nat :: acked(i) <==> i >= 3
    requires Inv(Start(1000, 2000))
    ensures n >= 3 ==> MaxSize(After(Start(1000, 2000), acked, n).lost) <= 1500
    ensures After(Start(1000, 2000), acked, n).min <= 1500
  {
    var f := Start(1000, 2000);
    if n > 3 {
      MisledBound(acked, n - 1);
      var g := After(f, acked, n - 1);
      if !Done(g) { StepInv(g, acked(n - 1)); }
    } else {
      assert After(f, acked, 1) == Search(1000, [1500, 2000, -1], true);
      assert After(f, acked, 2) == Search(1000, [1250, 1500, 2000], true);
      assert After(f, acked, 3) == Search(1000, [1125, 1250, 1500], true);
    }
  }

  // ------------------------------------------------------- path migrations

  /** Feedback(i, _): the i-th oldest probe whose fate is open was acknowledged or lost. */
  datatype Event = Probe | Feedback(i: nat, acked: bool) | Reset(start: int, max: int)

  /** sent holds, for each probe whose fate is open, how many resets came before it. */
  datatype World = World(search: Search, probing: bool, epoch: nat, sent: seq<nat>)

  predicate Legal(e: Event) {
    e.Reset? ==> 0 <= e.start <= e.max
  }

  ghost predicate WorldInv(w: World) {
    && Inv(w.search)
    && (w.probing ==> !Done(w.search))
    && SentOk(w.sent, w.epoch, w.probing)
  }

  /** At most one open probe is of this epoch, and one is if and only if the search waits for it. */
  ghost predicate SentOk(sent: seq<nat>, epoch: nat, probing: bool) {
    && (forall i :: 0 <= i < |sent| ==> sent[i] <= epoch)
    && (probing <==> epoch in sent)
    && (forall i, j :: 0 <= i < j < |sent| ==> sent[i] != epoch || sent[j] != epoch)
  }

  function Without<T>(s: seq<T>, i: nat): (r: seq<T>)
    requires i < |s|
  {
    s[..i] + s[i + 1..]
  }

  /** What should happen: a probe goes out only if none is open, and feedback from before a reset changes nothing. */
  function Next(w: World, e: Event): World
    requires Inv(w.search)
  {
    match e
    case Probe =>
      if w.probing || Done(w.search) then w else w.(probing := true, sent := w.sent + [w.epoch])
    case Feedback(i, acked) =>
      if i >= |w.sent| then w
      else if w.sent[i] != w.epoch then w.(sent := Without(w.sent, i))
      else w.(search := Step(w.search, acked), probing := false, sent := Without(w.sent, i))
    case Reset(start, max) =>
      World(Start(start, max), false, w.epoch + 1, w.sent)
  }

  /** The fate of an open probe is known. */
  lemma SentWithout(sent: seq<nat>, epoch: nat, probing: bool, i: nat)
    requires SentOk(sent, epoch, probing) && i < |sent|
    ensures SentOk(Without(sent, i), epoch, probing && sent[i] != epoch)
    ensures sent[i] == epoch ==> probing
  {
    var rest := Without(sent, i);
    assert forall k :: 0 <= k < |rest| ==> rest[k] == sent[if k < i then k else k + 1];
    if probing && sent[i] != epoch {
      var k :| 0 <= k < |sent| && sent[k] == epoch;
      assert rest[if k < i then k else k - 1] == epoch;
    }
  }

  lemma SentOneMore(sent: seq<nat>, epoch: nat)
    requires SentOk(sent, epoch, false)
    ensures SentOk(sent + [epoch], epoch, true)
  {
  }

  lemma SentBefore(sent: seq<nat>, epoch: nat, probing: bool)
    requires SentOk(sent, epoch, probing)
    ensures SentOk(sent, epoch + 1, false)
  {
  }

  lemma NextInv(w: World, e: Event)
    requires WorldInv(w) && Legal(e)
    ensures WorldInv(Next(w, e))
    ensures e.Feedback? && e.i < |w.sent| && w.sent[e.i] == w.epoch ==> w.probing
  {
    hide Step, Done, Start, Inv, SentOk, Without;
    match e
    case Probe =>
      if !w.probing { SentOneMore(w.sent, w.epoch); }
    case Feedback(i, acked) =>
      if i < |w.sent| {
        SentWithout(w.sent, w.epoch, w.probing, i);
        if w.sent[i] == w.epoch { StepInv(w.search, acked); }
      }
    case Reset(start, max) =>
      StartInv(start, max);
      SentBefore(w.sent, w.epoch, w.probing);
  }

  function Begin(start: int, max: int): World {
    World(Start(start, max), false, 0, [])
  }

  function Replay(start: int, max: int, events: seq<Event>): (w: World)
    requires 0 <= start <= max && forall e :: e in events ==> Legal(e)
    ensures WorldInv(w)
  {
    if events == [] then StartInv(start, max); Begin(start, max)
    else
      var w := Replay(start, max, events[..|events| - 1]);
      NextInv(w, events[|events| - 1]);
      Next(w, events[|events| - 1])
  }

  function Resets(events: seq<Event>): nat {
    if events == [] then 0
    else Resets(events[..|events| - 1]) + if events[|events| - 1].Reset? then 1 else 0
  }

  lemma {:induction false} EpochCountsResets(start: int, max: int, events: seq<Event>)
    requires 0 <= start <= max && forall e :: e in events ==> Legal(e)
    ensures Replay(start, max, events).epoch == Resets(events)
  {
    if events != [] { EpochCountsResets(start, max, events[..|events| - 1]); }
  }

  /** The generation as the code keeps it has eight bits. */
  const GENERATIONS: nat := 256

  /** Feedback from before a reset whose generation looks current, because the counter has come round. */
  predicate Collides(w: World, e: Event) {
    e.Feedback? && e.i < |w.sent| && w.sent[e.i] != w.epoch && w.sent[e.i] % GENERATIONS == w.epoch % GENERATIONS
  }

  ghost predicate NoCollision(start: int, max: int, events: seq<Event>)
    requires 0 <= start <= max && forall e :: e in events ==> Legal(e)
  {
    forall n :: 0 <= n < |events| ==> !Collides(Replay(start, max, events[..n]), events[n])
  }

  /** With fewer than 256 migrations, whatever the feedback, nothing collides. */
  lemma FewMigrations(start: int, max: int, events: seq<Event>)
    requires 0 <= start <= max && forall e :: e in events ==> Legal(e)
    requires Resets(events) < GENERATIONS
    ensures NoCollision(start, max, events)
  {
    hide Replay, Resets, Inv, Done;
    forall n | 0 <= n < |events|
      ensures !Collides(Replay(start, max, events[..n]), events[n])
    {
      EpochCountsResets(start, max, events[..n]);
      ResetsPrefix(events, n);
      EarlyWorld(Replay(start, max, events[..n]), events[n]);
    }
  }

  lemma EarlyWorld(w: World, e: Event)
    requires WorldInv(w) && w.epoch < GENERATIONS
    ensures !Collides(w, e)
  {
    hide Inv, Done;
    if e.Feedback? && e.i < |w.sent| { assert w.sent[e.i] <= w.epoch; }
  }

  /** A probe changes the search, whatever becomes of it. */
  lemma StepDiffers(f: Search, acked: bool)
    requires Inv(f) && !Done(f)
    ensures Step(f, acked) != f
  {
    hide Step, Done, Potential, Room;
    StepCloser(f, acked);
  }

  lemma {:induction false} ResetsPrefix(events: seq<Event>, k: nat)
    requires k <= |events|
    ensures Resets(events[..k]) <= Resets(events)
  {
    if k < |events| {
      ResetsPrefix(events[..|events| - 1], k);
      assert events[..|events| - 1][..k] == events[..k];
    } else {
      assert events[..k] == events;
    }
  }
}
