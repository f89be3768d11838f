/**
 What reading from the frame sorter means, and what holds of every run of pushes and pops:
 the delivered bytes are a prefix of the stream, every received byte is queued exactly once
 until it is read, and every release callback is accounted for.
 */
module SorterRuns {
  import opened Protocol
  import opened SorterSpec

  datatype Popped = Popped(sorter: Sorter, entry: Option<Entry>, panic: bool)

  function Pop(s: Sorter): Popped
    requires s.gaps != []
  {
    if s.readPos !in s.queue then Popped(s, None, false)
    else
      var readPos := End(s.queue, s.readPos);
      Popped(Sorter(s.queue - {s.readPos}, readPos, s.gaps), Some(s.queue[s.readPos]),
             s.gaps[0].end <= readPos)
  }

  /** Reading never passes a gap; it yields nothing exactly if the next byte is missing. */
  lemma PopKeepsInv(s: Sorter)
    requires Inv(s)
    ensures !Pop(s).panic
    ensures Inv(Pop(s).sorter)
    ensures Pop(s).entry == None <==> InGap(s.gaps, s.readPos)
  {
    assert s.gaps[0] in s.gaps;
    if s.readPos in s.queue {
      forall g | g in s.gaps
        ensures !(g.start <= s.readPos < g.end)
      {
        NoEntryInGap(s, s.readPos, g);
      }
      PoppedInv(s);
    } else {
      GapStartInGap(s.gaps, s.readPos);
    }
  }

  lemma PoppedInv(s: Sorter)
    requires Inv(s) && s.readPos in s.queue
    ensures Inv(Pop(s).sorter)
  {
    hide Anchored, Chained, EntriesOk, ClearOfGaps;
    assert s.gaps[0] in s.gaps;
    NoEntryInGap(s, s.readPos, s.gaps[0]);
    PoppedEntries(s);
    PoppedAnchored(s);
    PoppedChained(s);
  }

  lemma PoppedEntries(s: Sorter)
    requires Inv(s) && s.readPos in s.queue
    ensures var t := Pop(s).sorter; EntriesOk(t.queue, t.readPos) && ClearOfGaps(t.queue, t.gaps)
  {
    hide Anchored, Chained;
    var t := Pop(s).sorter;
    assert forall p :: p in t.queue ==> p in s.queue && t.queue[p] == s.queue[p] && p != s.readPos;
    assert forall p :: p in t.queue ==> End(t.queue, p) == End(s.queue, p);
  }

  lemma PoppedAnchored(s: Sorter)
    requires Inv(s) && s.readPos in s.queue
    ensures var t := Pop(s).sorter; Anchored(t.queue, t.readPos, t.gaps)
  {
    var t := Pop(s).sorter;
    assert s.readPos < t.readPos == End(s.queue, s.readPos);
    forall g | g in t.gaps && g.end != MAX_BYTE_COUNT
      ensures g.end in t.queue
    {
      LaterGap(s, g);
    }
  }

  lemma PoppedChained(s: Sorter)
    requires Inv(s) && s.readPos in s.queue
    ensures var t := Pop(s).sorter; Chained(t.queue, t.gaps)
  {
    var t := Pop(s).sorter;
    forall p | p in t.queue
      ensures End(t.queue, p) in t.queue || GapStart(t.gaps, End(t.queue, p))
    {
      assert s.readPos < p < End(s.queue, p) == End(t.queue, p);
    }
  }

  /** Behind a gap there is never the next byte to read. */
  lemma LaterGap(s: Sorter, g: Interval)
    requires Inv(s) && g in s.gaps
    ensures g.end > s.readPos
  {
    var j :| 0 <= j < |s.gaps| && s.gaps[j] == g;
    assert 0 < j ==> s.gaps[0].end < s.gaps[j].start;
  }

  // ------------------------------------------------------------ tiling

  ghost predicate Covers(queue: map<int, Entry>, p: int, x: int) {
    p in queue && p <= x < End(queue, p)
  }

  lemma {:induction false} CoverFrom(s: Sorter, pos: int, x: int) returns (p: int)
    requires Inv(s)
    requires pos in s.queue || GapStart(s.gaps, pos)
    requires pos <= x
    requires forall y :: pos <= y <= x ==> !InGap(s.gaps, y)
    ensures Covers(s.queue, p, x)
    decreases x - pos
  {
    GapStartInGap(s.gaps, pos);
    if x < End(s.queue, pos) {
      p := pos;
    } else {
      p := CoverFrom(s, End(s.queue, pos), x);
    }
  }

  /** Queue entries tile the received bytes above readPos: one entry each, none in a gap. */
  lemma Tiling(s: Sorter, x: int)
    requires Inv(s)
    requires s.readPos <= x < MAX_BYTE_COUNT
    ensures InGap(s.gaps, x) <==> !exists p :: Covers(s.queue, p, x)
    ensures forall p, q :: Covers(s.queue, p, x) && Covers(s.queue, q, x) ==> p == q
  {
    if !InGap(s.gaps, x) {
      var k := EndGap(s.gaps, x, 0);
      assert s.gaps[k] in s.gaps;
      var pos := if k == 0 then s.readPos else s.gaps[k - 1].end;
      if k > 0 {
        assert s.gaps[k - 1] in s.gaps;
        assert pos < s.gaps[k].start < s.gaps[|s.gaps| - 1].end by {
          assert k < |s.gaps| - 1 ==> s.gaps[k].end < s.gaps[|s.gaps| - 1].start;
        }
      }
      forall y | pos <= y <= x
        ensures !InGap(s.gaps, y)
      {
        NoGapUpTo(s.gaps, k, y);
      }
      var p := CoverFrom(s, pos, x);
    }
  }

  lemma NoGapUpTo(gaps: seq<Interval>, k: nat, y: int)
    requires Sorted(gaps) && k < |gaps|
    requires k > 0 ==> gaps[k - 1].end <= y
    requires y < gaps[k].start
    ensures !InGap(gaps, y)
  {
    if k > 0 {
      NoGapBetween(gaps, k, y);
    } else {
      forall g | g in gaps
        ensures y < g.start
      {
        var j :| 0 <= j < |gaps| && gaps[j] == g;
      }
    }
  }

  // ------------------------------------------------------------ content

  /** data is what the stream holds at offset. */
  predicate Agrees(data: seq<byte>, offset: int, stream: seq<byte>) {
    0 <= offset && offset + |data| <= |stream| && data == stream[offset..offset + |data|]
  }

  ghost predicate Matches(queue: map<int, Entry>, stream: seq<byte>) {
    forall p :: p in queue ==> Agrees(queue[p].data, p, stream)
  }

  lemma SliceAgrees(data: seq<byte>, offset: nat, stream: seq<byte>, a: nat, b: nat)
    requires Agrees(data, offset, stream)
    requires a <= b <= |data|
    ensures Agrees(data[a..b], offset + a, stream)
  {
    forall i | a <= i < b
      ensures data[i] == stream[offset + i]
    {
      assert stream[offset..offset + |data|][i] == stream[offset + i];
    }
    assert data[a..b] == stream[offset + a..offset + b];
  }

  lemma PushMatches(s: Sorter, data: seq<byte>, offset: nat, done: Option<nat>, stream: seq<byte>)
    requires Inv(s)
    requires Matches(s.queue, stream) && Agrees(data, offset, stream)
    ensures Matches(Push(s, data, offset, done).sorter.queue, stream)
  {
    hide Push, Placed, Inv, Subtract;
    PushCases(s, data, offset, done);
    if Push(s, data, offset, done).outcome == Stored {
      var p := Placed(s, offset, |data|);
      SliceAgrees(data, offset, stream, p.first - offset, p.last - offset);
    }
  }

  // ------------------------------------------------------------ buffer ownership

  function Holders(queue: map<int, Entry>, id: nat): set<int> {
    set p | p in queue && queue[p].done == Some(id)
  }

  function Released(queue: map<int, Entry>, a: int, b: int, id: nat): set<int> {
    set p | p in queue && a <= p < b && queue[p].done == Some(id)
  }

  function Count(done: Option<nat>, id: nat): nat { if done == Some(id) then 1 else 0 }

  /** How often one push calls release callback id. */
  function DoneCalls(s: Sorter, data: seq<byte>, offset: nat, done: Option<nat>, id: nat): nat
    requires Inv(s)
  {
    if |data| > 0 && offset + |data| >= MAX_BYTE_COUNT then 0
    else if |data| == 0 then Count(done, id)
    else
      var p := Placed(s, offset, |data|);
      if p.Skip? then Count(done, id)
      else |Released(s.queue, p.first, p.last, id)| + if Copied(p) then Count(done, id) else 0
  }

  lemma StoredHolder(s: Sorter, first: int, last: int, entry: Entry, id: nat, p: int)
    ensures p in Holders(Store(s, first, last, entry).queue, id) <==>
      if p == first then entry.done == Some(id)
      else p in Holders(s.queue, id) && p !in Released(s.queue, first, last, id)
  {
  }

  lemma ReleasedHolders(queue: map<int, Entry>, a: int, b: int, id: nat)
    requires a < b
    ensures Released(queue, a, b, id) <= Holders(queue, id)
    ensures a in Holders(queue, id) ==> a in Released(queue, a, b, id)
  {
  }

  lemma StoreHolders(s: Sorter, first: int, last: int, entry: Entry, id: nat)
    requires first < last
    ensures |Holders(Store(s, first, last, entry).queue, id)| + |Released(s.queue, first, last, id)|
            == |Holders(s.queue, id)| + Count(entry.done, id)
  {
    hide Store, Holders, Released;
    var was, gone := Holders(s.queue, id), Released(s.queue, first, last, id);
    ReleasedHolders(s.queue, first, last, id);
    var now := Holders(Store(s, first, last, entry).queue, id);
    var kept := was - gone;
    assert was == gone + kept;
    var added := if entry.done == Some(id) then {first} else {};
    forall p: int ensures p in now <==> p in kept + added {
      StoredHolder(s, first, last, entry, id, p);
    }
    assert now == kept + added && kept !! added;
  }

  /** Each callback handed in is, after the push, either called or held by an entry. */
  lemma PushConservesCallbacks(s: Sorter, data: seq<byte>, offset: nat, done: Option<nat>, id: nat)
    requires Inv(s)
    requires Push(s, data, offset, done).outcome in {Stored, Duplicate}
    ensures DoneCalls(s, data, offset, done, id) + |Holders(Push(s, data, offset, done).sorter.queue, id)|
            == |Holders(s.queue, id)| + Count(done, id)
  {
    hide Placed, Inv, Subtract, Store, Holders, Released;
    PushCases(s, data, offset, done);
    if Push(s, data, offset, done).outcome == Stored {
      var p := Placed(s, offset, |data|);
      StoreHolders(s, p.first, p.last, StoredEntry(p, data, offset, done), id);
    }
  }

  lemma PopConservesCallbacks(s: Sorter, id: nat)
    requires Inv(s)
    ensures var r := Pop(s);
      |Holders(r.sorter.queue, id)| + (if r.entry.Some? then Count(r.entry.value.done, id) else 0)
      == |Holders(s.queue, id)|
  {
    if s.readPos in s.queue {
      var rest := Holders(Pop(s).sorter.queue, id);
      assert Holders(s.queue, id) == rest + if s.queue[s.readPos].done == Some(id) then {s.readPos} else {};
    }
  }

  // ------------------------------------------------------------ runs

  datatype Op = PushOp(data: seq<byte>, offset: nat, done: Option<nat>) | PopOp

  datatype Status = Running | GapLimit | Panicked

  /** The sorter after a run, the bytes handed out, and whether an error ended it. */
  datatype Trace = Trace(sorter: Sorter, delivered: seq<byte>, status: Status)

  ghost predicate TraceOk(t: Trace) {
    && t.sorter.gaps != []
    && (t.status == Running ==> Inv(t.sorter))
  }

  function Step(t: Trace, op: Op): (r: Trace)
    requires TraceOk(t)
    ensures TraceOk(r)
  {
    if t.status != Running then t
    else match op
      case PushOp(data, offset, done) =>
        var r := Push(t.sorter, data, offset, done);
        PushKeepsInv(t.sorter, data, offset, done);
        PushKeepsGaps(t.sorter, data, offset, done);
        Trace(r.sorter, t.delivered, match r.outcome
                                     case TooManyGaps => GapLimit
                                     case Panic => Panicked
                                     case _ => Running)
      case PopOp =>
        PopKeepsInv(t.sorter);
        var r := Pop(t.sorter);
        Trace(r.sorter, t.delivered + (if r.entry.Some? then r.entry.value.data else []),
              if r.panic then Panicked else Running)
  }

  lemma PushKeepsGaps(s: Sorter, data: seq<byte>, offset: nat, done: Option<nat>)
    requires Inv(s)
    ensures Push(s, data, offset, done).sorter.gaps != []
  {
    hide Push, Placed;
    PushCases(s, data, offset, done);
  }

  function Run(ops: seq<Op>): (t: Trace)
    ensures TraceOk(t)
  {
    if ops == [] then EmptyInv(); Trace(Empty, [], Running)
    else Step(Run(ops[..|ops| - 1]), ops[|ops| - 1])
  }

  lemma EmptyInv()
    ensures Inv(Empty)
  {
    assert Interval(0, MAX_BYTE_COUNT) in Empty.gaps;
  }

  lemma EmptyInGap(x: int)
    requires 0 <= x < MAX_BYTE_COUNT
    ensures InGap(Empty.gaps, x)
  {
    assert Interval(0, MAX_BYTE_COUNT) in Empty.gaps;
  }

  /** Some push of the run carried byte x. */
  ghost predicate Carried(ops: seq<Op>, x: int) {
    exists op :: op in ops && op.PushOp? && op.offset <= x < op.offset + |op.data|
  }

  ghost predicate AllAgree(ops: seq<Op>, stream: seq<byte>) {
    forall op :: op in ops && op.PushOp? ==> Agrees(op.data, op.offset, stream)
  }

  lemma CarriedLast(ops: seq<Op>, x: int)
    ensures Carried(ops, x) <==>
      ops != [] && var op := ops[|ops| - 1];
      Carried(ops[..|ops| - 1], x) || (op.PushOp? && op.offset <= x < op.offset + |op.data|)
  {
    if ops != [] { assert ops == ops[..|ops| - 1] + [ops[|ops| - 1]]; }
  }

  /** In every run the gaps are exactly the bytes that were never received. */
  lemma {:induction false} GapsAreMissingBytes(ops: seq<Op>, x: int)
    requires 0 <= x < MAX_BYTE_COUNT
    requires Run(ops).status == Running
    ensures InGap(Run(ops).sorter.gaps, x) <==> !Carried(ops, x)
  {
    hide Push, Inv, InGap, Carried;
    if ops == [] {
      EmptyInGap(x);
      CarriedLast(ops, x);
    } else {
      var init, op := ops[..|ops| - 1], ops[|ops| - 1];
      GapsAreMissingBytes(init, x);
      CarriedLast(ops, x);
      if op.PushOp? {
        PushFillsGaps(Run(init).sorter, op.data, op.offset, op.done, x);
      }
    }
  }

  /**
   Ordered delivery: if all frames agree with one byte stream, then in every run, whatever
   was lost, repeated, reordered or overlapping, the delivered bytes are a prefix of it.
   */
  lemma {:induction false} DeliversPrefix(ops: seq<Op>, stream: seq<byte>)
    requires AllAgree(ops, stream)
    requires Run(ops).status == Running
    ensures var t := Run(ops);
      && t.sorter.readPos <= |stream|
      && t.delivered == stream[..t.sorter.readPos]
      && Matches(t.sorter.queue, stream)
  {
    hide Push, Inv;
    if ops != [] {
      var init, op := ops[..|ops| - 1], ops[|ops| - 1];
      assert ops == init + [op];
      DeliversPrefix(init, stream);
      var s := Run(init).sorter;
      match op {
        case PushOp(data, offset, done) =>
          PushMatches(s, data, offset, done, stream);
          PushCases(s, data, offset, done);
        case PopOp =>
          if s.readPos in s.queue {
            var e := s.queue[s.readPos];
            assert stream[..s.readPos] + e.data == stream[..s.readPos + |e.data|];
          }
      }
    }
  }

  /** A read returns nothing only if the next byte was never received. */
  lemma EmptyReadMeansMissing(ops: seq<Op>)
    requires Run(ops).status == Running
    ensures var s := Run(ops).sorter;
      Pop(s).entry == None <==> !Carried(ops, s.readPos)
  {
    var s := Run(ops).sorter;
    PopKeepsInv(s);
    assert s.gaps[|s.gaps| - 1].end == MAX_BYTE_COUNT;
    assert 0 < |s.gaps| - 1 ==> s.gaps[0].end < s.gaps[|s.gaps| - 1].start;
    GapsAreMissingBytes(ops, s.readPos);
  }

  /** No panic is reachable while every frame ends below the maximum offset. */
  lemma {:induction false} NeverPanics(ops: seq<Op>)
    requires forall op :: op in ops && op.PushOp? ==> op.offset + |op.data| < MAX_BYTE_COUNT
    ensures Run(ops).status != Panicked
  {
    hide Inv, Push, Pop;
    if ops != [] {
      var init, op := ops[..|ops| - 1], ops[|ops| - 1];
      assert op in ops && forall o :: o in init ==> o in ops;
      NeverPanics(init);
      var t := Run(init);
      if t.status == Running {
        match op
        case PushOp(data, offset, done) => FrameAtMaximumPanics(t.sorter, data, offset, done);
        case PopOp => PopKeepsInv(t.sorter);
      }
    }
  }

  /** A frame that reaches the maximum offset does panic, from every state. */
  lemma FrameAtMaximumPanics(s: Sorter, data: seq<byte>, offset: nat, done: Option<nat>)
    requires Inv(s)
    ensures Push(s, data, offset, done).outcome == Panic <==>
            |data| > 0 && offset + |data| >= MAX_BYTE_COUNT
  {
  }

  // How often callback id was handed in, called by a push, and handed out by a pop.

  function HandedIn(ops: seq<Op>, id: nat): nat {
    if ops == [] then 0
    else
      var op := ops[|ops| - 1];
      HandedIn(ops[..|ops| - 1], id) + if op.PushOp? then Count(op.done, id) else 0
  }

  function Called(ops: seq<Op>, id: nat): nat {
    if ops == [] then 0
    else
      var init, op := ops[..|ops| - 1], ops[|ops| - 1];
      Called(init, id) +
      if op.PushOp? && Run(init).status == Running
      then DoneCalls(Run(init).sorter, op.data, op.offset, op.done, id) else 0
  }

  function HandedOut(ops: seq<Op>, id: nat): nat {
    if ops == [] then 0
    else
      var init, op := ops[..|ops| - 1], ops[|ops| - 1];
      HandedOut(init, id) +
      if op.PopOp? && Run(init).status == Running && Pop(Run(init).sorter).entry.Some?
      then Count(Pop(Run(init).sorter).entry.value.done, id) else 0
  }

  /**
   Buffer ownership: in every error-free run each release callback handed in is called
   once, held by one queue entry, or handed out by one pop; none is lost or duplicated.
   */
  lemma {:induction false} CallbacksConserved(ops: seq<Op>, id: nat)
    requires Run(ops).status == Running
    ensures HandedIn(ops, id) ==
            Called(ops, id) + HandedOut(ops, id) + |Holders(Run(ops).sorter.queue, id)|
  {
    if ops == [] {
      assert Holders(map[], id) == {};
    } else {
      var init, op := ops[..|ops| - 1], ops[|ops| - 1];
      CallbacksConserved(init, id);
      var s := Run(init).sorter;
      match op {
        case PushOp(data, offset, done) => PushConservesCallbacks(s, data, offset, done, id);
        case PopOp => PopConservesCallbacks(s, id);
      }
    }
  }

  // ------------------------------------------------------------ draining

  /** Everything that repeated pops hand out before one of them comes back empty. */
  function Drain(s: Sorter): seq<byte>
    requires Inv(s)
    decreases |s.queue|
  {
    if s.readPos !in s.queue then []
    else
      PopKeepsInv(s);
      assert |s.queue - {s.readPos}| < |s.queue| by {
        assert (s.queue - {s.readPos}).Keys == s.queue.Keys - {s.readPos};
      }
      s.queue[s.readPos].data + Drain(Pop(s).sorter)
  }

  /** One piece of a drain. */
  lemma PopPiece(s: Sorter, stream: seq<byte>)
    requires Inv(s) && Matches(s.queue, stream) && s.readPos in s.queue
    ensures var t := Pop(s).sorter;
      && Inv(t) && Matches(t.queue, stream) && t.gaps == s.gaps && |t.queue| < |s.queue|
      && 0 <= s.readPos <= t.readPos <= |stream| && s.queue[s.readPos].data == stream[s.readPos..t.readPos]
      && Drain(s) == s.queue[s.readPos].data + Drain(t)
  {
    PopKeepsInv(s);
    assert Pop(s).sorter.queue.Keys == s.queue.Keys - {s.readPos};
    assert Agrees(s.queue[s.readPos].data, s.readPos, stream);
  }

  /** Draining stops exactly at the first missing byte. */
  lemma {:induction false} DrainReachesFirstGap(s: Sorter, stream: seq<byte>)
    requires Inv(s) && Matches(s.queue, stream)
    requires s.readPos <= |stream|
    ensures s.gaps[0].start <= |stream|
    ensures Drain(s) == stream[s.readPos..s.gaps[0].start]
    decreases |s.queue|
  {
    FirstGap(s);
    if s.readPos !in s.queue {
      StopsAtGap(s);
    } else {
      hide Inv, Matches, Drain, Pop;
      PopPiece(s, stream);
      var t := Pop(s).sorter;
      DrainReachesFirstGap(t, stream);
      FirstGap(t);
      assert stream[s.readPos..t.readPos] + stream[t.readPos..s.gaps[0].start]
          == stream[s.readPos..s.gaps[0].start];
    }
  }

  lemma StopsAtGap(s: Sorter)
    requires Inv(s) && s.readPos !in s.queue
    ensures s.readPos == s.gaps[0].start
  {
    PopKeepsInv(s);
    var g :| g in s.gaps && g.start <= s.readPos < g.end;
    var j :| 0 <= j < |s.gaps| && s.gaps[j] == g;
  }

  lemma FirstGap(s: Sorter)
    requires Inv(s)
    ensures s.gaps != [] && 0 <= s.readPos <= s.gaps[0].start && InGap(s.gaps, s.gaps[0].start)
  {
    assert s.gaps[0] in s.gaps;
  }

  /** Once every byte below n has been carried, draining has delivered at least those. */
  lemma CompleteReassembly(ops: seq<Op>, stream: seq<byte>, n: nat)
    requires n <= |stream| < MAX_BYTE_COUNT
    requires AllAgree(ops, stream)
    requires Run(ops).status == Running
    requires forall x :: 0 <= x < n ==> Carried(ops, x)
    ensures stream[..n] <= Run(ops).delivered + Drain(Run(ops).sorter) <= stream
  {
    hide Run, Drain, Inv, InGap, Matches, AllAgree, Carried;
    var s := Run(ops).sorter;
    DeliversPrefix(ops, stream);
    FirstGap(s);
    DrainReachesFirstGap(s, stream);
    if s.gaps[0].start < n { GapsAreMissingBytes(ops, s.gaps[0].start); }
    assert stream[..s.readPos] + stream[s.readPos..s.gaps[0].start] == stream[..s.gaps[0].start];
  }
}
