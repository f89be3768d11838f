/**
 deps/quic-go/frame_sorter.go: the sorter as an object that edits its queue and gap list
 in place. Every method is proved to perform exactly the step of SorterSpec and SorterRuns.
 The gap list is a sequence; `called` logs the release callbacks that have been invoked.
 */
module FrameSorterObject {
  import opened Protocol
  import opened SorterSpec
  import opened SorterRuns

  // ------------------------------------------------------------ walking along entries

  /** From an entry, the chain of entries leads to the next gap and stops there. */
  lemma {:induction false} WalkToGap(s: Sorter, pos: int, end: int, k: nat)
    requires Inv(s)
    requires k < |s.gaps| && s.gaps[k].start <= end
    requires pos <= s.gaps[k].start
    requires pos in s.queue || pos == s.gaps[k].start
    requires k > 0 ==> s.gaps[k - 1].end <= pos
    ensures Walk(s.queue, pos, end) == s.gaps[k].start
    decreases s.gaps[k].start - pos
  {
    assert s.gaps[k] in s.gaps;
    if pos in s.queue {
      var e := End(s.queue, pos);
      if e !in s.queue {
        var g :| g in s.gaps && g.start == e;
        var j :| 0 <= j < |s.gaps| && s.gaps[j] == g;
      }
      WalkToGap(s, e, end, k);
    }
  }

  lemma {:induction false} WalkIgnoresBelow(q: map<int, Entry>, a: int, b: int, pos: int, end: int)
    requires forall p :: p in q ==> 0 < |q[p].data|
    requires b <= pos
    ensures Walk(Keep(q, a, b), pos, end) == Walk(q, pos, end)
    decreases end - pos
  {
    if pos in q && End(q, pos) <= end {
      WalkIgnoresBelow(q, a, b, End(q, pos), end);
    }
  }

  // ------------------------------------------------------------ removing entries piecewise

  lemma KeepExtends(q: map<int, Entry>, first: int, upto: int, a: int, b: int)
    requires first <= upto <= a <= b
    requires forall p :: p in q ==> !(upto <= p < a)
    ensures Keep(Keep(q, first, upto), a, b) == Keep(q, first, b)
  {
  }

  lemma ReleasedExtends(q: map<int, Entry>, first: int, upto: int, a: int, b: int, id: nat)
    requires first <= upto <= a <= b
    requires forall p :: p in q ==> !(upto <= p < a)
    ensures |Released(q, first, upto, id)| + |Released(Keep(q, first, upto), a, b, id)|
            == |Released(q, first, b, id)|
  {
    var x, y := Released(q, first, upto, id), Released(Keep(q, first, upto), a, b, id);
    assert x !! y;
    assert Released(q, first, b, id) == x + y;
  }

  // ------------------------------------------------------------ the gap list as edited

  lemma SubtractCovered(gaps: seq<Interval>, a: int, b: int)
    requires forall g :: g in gaps ==> a <= g.start && g.end <= b
    ensures Subtract(gaps, a, b) == []
  {
    if gaps != [] {
      assert gaps[0] in gaps;
      SubtractCovered(gaps[1..], a, b);
    }
  }

  lemma SubtractAround(pre: seq<Interval>, mid: seq<Interval>, post: seq<Interval>, a: int, b: int)
    requires a <= b && Sorted(pre) && Sorted(post)
    requires forall g :: g in pre ==> g.end <= a
    requires forall g :: g in post ==> b <= g.start
    ensures Subtract(pre + mid + post, a, b) == pre + Subtract(mid, a, b) + post
  {
    hide Without;
    SubtractElsewhere(pre, a, b);
    SubtractElsewhere(post, a, b);
    SubtractConcat(pre + mid, post, a, b);
    SubtractConcat(pre, mid, a, b);
  }

  lemma SubtractEnds(g: Interval, mid: seq<Interval>, h: Interval, a: int, b: int)
    requires forall m :: m in mid ==> a <= m.start && m.end <= b
    ensures Subtract([g] + mid + [h], a, b) == Without(g, a, b) + Without(h, a, b)
  {
    hide Without;
    SubtractCovered(mid, a, b);
    SubtractConcat([g] + mid, [h], a, b);
    SubtractConcat([g], mid, a, b);
    SubtractSingle(g, a, b);
    SubtractSingle(h, a, b);
  }

  lemma SliceBounds(gaps: seq<Interval>, i: nat, j: nat, lo: int, hi: int)
    requires Sorted(gaps) && i <= j <= |gaps|
    requires i < j ==> lo <= gaps[i].start && gaps[j - 1].end <= hi
    ensures Sorted(gaps[i..j])
    ensures forall g :: g in gaps[i..j] ==> lo <= g.start && g.end <= hi
  {
    var t := gaps[i..j];
    assert forall n :: 0 <= n < |t| ==> t[n] == gaps[i + n];
    forall g | g in t
      ensures lo <= g.start && g.end <= hi
    {
      var n :| 0 <= n < |t| && t[n] == g;
    }
  }

  lemma SplitAround<T>(xs: seq<T>, i: nat, j: nat)
    requires i <= j <= |xs|
    ensures xs == xs[0..i] + xs[i..j] + xs[j..|xs|]
  {
  }

  lemma SplitEnds<T>(xs: seq<T>, i: nat, j: nat)
    requires i < j < |xs|
    ensures xs[i..j + 1] == [xs[i]] + xs[i + 1..j] + [xs[j]]
  {
  }

  /** Gaps that the range does not touch stay as they are. */
  lemma SubtractTouched(gaps: seq<Interval>, i: nat, j: nat, a: int, b: int)
    requires Sorted(gaps) && i <= j <= |gaps|
    requires a <= b
    requires i > 0 ==> gaps[i - 1].end <= a
    requires j < |gaps| ==> b <= gaps[j].start
    ensures Subtract(gaps, a, b) == gaps[..i] + Subtract(gaps[i..j], a, b) + gaps[j..]
  {
    hide Without, Subtract, Sorted;
    SplitAround(gaps, i, j);
    if i > 0 { SliceBounds(gaps, 0, i, gaps[0].start, a); }
    if j < |gaps| { SliceBounds(gaps, j, |gaps|, b, gaps[|gaps| - 1].end); }
    SliceBounds(gaps, 0, 0, 0, 0);
    SubtractAround(gaps[0..i], gaps[i..j], gaps[j..|gaps|], a, b);
    assert gaps[0..i] == gaps[..i] && gaps[j..|gaps|] == gaps[j..];
  }

  /** Only the first and the last gap that the range touches can leave something behind. */
  lemma SubtractAcross(gaps: seq<Interval>, i: nat, j: nat, a: int, b: int)
    requires Sorted(gaps) && i < j < |gaps|
    requires a <= gaps[i].end && gaps[j].start <= b
    ensures Subtract(gaps[i..j + 1], a, b) == Without(gaps[i], a, b) + Without(gaps[j], a, b)
  {
    assert gaps[i].end < gaps[i + 1].start && gaps[j - 1].end < gaps[j].start;
    hide Without, Subtract, Sorted;
    SplitEnds(gaps, i, j);
    SliceBounds(gaps, i + 1, j, a, b);
    SubtractEnds(gaps[i], gaps[i + 1..j], gaps[j], a, b);
  }

  lemma SubtractSingle(g: Interval, a: int, b: int)
    ensures Subtract([g], a, b) == Without(g, a, b)
  {
    assert [g][1..] == [];
    assert Subtract([], a, b) == [];
  }

  lemma DropOne<T>(pre: seq<T>, xs: seq<T>, j: nat)
    requires j < |xs|
    ensures (pre + xs[j..])[|pre|] == xs[j]
    ensures (pre + xs[j..])[..|pre|] + (pre + xs[j..])[|pre| + 1..] == pre + xs[j + 1..]
  {
  }

  // ------------------------------------------------------------ the object

  class FrameSorter {
    var queue: map<int, Entry>
    var readPos: int
    var gaps: seq<Interval>
    var called: multiset<nat>

    ghost function State(): Sorter
      reads this
    {
      Sorter(queue, readPos, gaps)
    }

    constructor ()
      ensures State() == Empty && Inv(State())
      ensures called == multiset{}
    {
      queue := map[];
      readPos := 0;
      gaps := [Interval(0, MAX_BYTE_COUNT)];
      called := multiset{};
      new;
      EmptyInv();
    }

    method FindStartGap(offset: int) returns (i: nat, inGap: bool, found: bool)
      requires Sorted(gaps)
      ensures i == StartGap(gaps, offset, 0)
      ensures found <==> i < |gaps|
      ensures found ==> (inGap <==> gaps[i].start <= offset)
    {
      i, inGap, found := 0, false, false;
      while i < |gaps|
        invariant i <= |gaps|
        invariant StartGap(gaps, offset, 0) == StartGap(gaps, offset, i)
      {
        if gaps[i].start <= offset <= gaps[i].end {
          return i, true, true;
        }
        if offset < gaps[i].start {
          return i, false, true;
        }
        i := i + 1;
      }
    }

    /** The gap that holds offset, or the one before it (which may not exist: -1). */
    method FindEndGap(startGap: nat, offset: int) returns (i: int, inGap: bool, found: bool)
      requires Sorted(gaps) && startGap <= |gaps|
      ensures var k := EndGap(gaps, offset, startGap);
        && (found <==> k < |gaps|)
        && (found ==> (inGap <==> gaps[k].start <= offset) && i == if inGap then k else k - 1)
    {
      var k := startGap;
      i, inGap, found := -1, false, false;
      while k < |gaps|
        invariant startGap <= k <= |gaps|
        invariant EndGap(gaps, offset, startGap) == EndGap(gaps, offset, k)
      {
        if gaps[k].start <= offset < gaps[k].end {
          return k, true, true;
        }
        if offset < gaps[k].start {
          return k - 1, false, true;
        }
        k := k + 1;
      }
    }

    method Release(done: Option<nat>)
      modifies this`called
      ensures forall id: nat :: called[id] == old(called)[id] + Count(done, id)
    {
      if done.Some? { called := called + multiset{done.value}; }
    }

    /** Everything queued in [first, upto) of q0 has been removed and released. */
    ghost predicate Removed(q0: map<int, Entry>, called0: multiset<nat>, first: int, upto: int)
      reads this`queue, this`called
    {
      && queue == Keep(q0, first, upto)
      && forall id: nat :: called[id] == called0[id] + |Released(q0, first, upto, id)|
    }

    /** Remove the entry at pos, the next one after [first, upto). */
    method RemoveAt(pos: int, ghost q0: map<int, Entry>, ghost called0: multiset<nat>, ghost first: int,
                    ghost upto: int)
      requires first <= upto <= pos && pos in queue
      requires Removed(q0, called0, first, upto)
      requires forall p :: p in q0 ==> 0 < |q0[p].data|
      requires forall p :: p in q0 ==> !(upto <= p < pos) && !(pos < p < End(queue, pos))
      modifies this`queue, this`called
      ensures Removed(q0, called0, first, End(old(queue), pos))
    {
      var oldEntry := queue[pos];
      ghost var e := End(queue, pos);
      queue := queue - {pos};
      Release(oldEntry.done);
      assert queue == Keep(Keep(q0, first, upto), pos, e);
      KeepExtends(q0, first, upto, pos, e);
      forall id: nat
        ensures called[id] == called0[id] + |Released(q0, first, e, id)|
      {
        ReleasedExtends(q0, first, upto, pos, e, id);
        assert Released(Keep(q0, first, upto), pos, e, id) == if oldEntry.done == Some(id) then {pos} else {};
      }
    }

    lemma RemovedIdle(q0: map<int, Entry>, called0: multiset<nat>, first: int, upto: int, next: int)
      requires first <= upto <= next
      requires Removed(q0, called0, first, upto)
      requires forall p :: p in q0 ==> !(upto <= p < next)
      ensures Removed(q0, called0, first, next)
    {
      KeepExtends(q0, first, upto, next, next);
      forall id: nat
        ensures Released(q0, first, upto, id) == Released(q0, first, next, id)
      {
      }
      assert Keep(Keep(q0, first, upto), next, next) == Keep(q0, first, upto);
    }

    lemma RemovedLookup(q0: map<int, Entry>, called0: multiset<nat>, first: int, upto: int, pos: int)
      requires Removed(q0, called0, first, upto)
      requires first <= pos
      ensures pos in queue <==> pos in q0 && upto <= pos
      ensures pos in queue ==> queue[pos] == q0[pos]
    {
    }

    /** Removes the run of entries at start; next is where that run ends. */
    method DeleteConsecutive(start: int, ghost next: int, ghost q0: map<int, Entry>, ghost called0: multiset<nat>,
                             ghost first: int, ghost upto: int)
      requires Removed(q0, called0, first, upto)
      requires start in queue ==>
        && first <= upto <= start <= next <= MAX_BYTE_COUNT
        && (forall p :: p in q0 ==> !(upto <= p < start))
        && EntriesOk(q0, 0)
        && Walk(q0, start, MAX_BYTE_COUNT) == next
      modifies this`queue, this`called
      ensures Removed(q0, called0, first, if start in old(queue) then next else upto)
    {
      hide Removed;
      var pos := start;
      ghost var u := upto;
      while pos in queue
        invariant pos == start || u == pos
        invariant pos == start ==> u == upto && queue == old(queue)
        invariant Removed(q0, called0, first, u)
        invariant start in old(queue) ==>
          && first <= u <= pos <= MAX_BYTE_COUNT
          && Walk(q0, pos, MAX_BYTE_COUNT) == next
        invariant pos == start || start in old(queue)
        decreases MAX_BYTE_COUNT - pos
      {
        var n := |queue[pos].data|;
        RemovedLookup(q0, called0, first, u, pos);
        RemoveAt(pos, q0, called0, first, u);
        pos := pos + n;
        u := pos;
      }
      if start in old(queue) { RemovedLookup(q0, called0, first, u, pos); }
    }

    /** The entries behind gap i run exactly up to gap i + 1. */
    static lemma RunBehindGap(s: Sorter, i: nat)
      requires Inv(s)
      requires i + 1 < |s.gaps|
      ensures s.gaps[i].end in s.queue
      ensures Walk(s.queue, s.gaps[i].end, MAX_BYTE_COUNT) == s.gaps[i + 1].start
      ensures s.gaps[i].end < s.gaps[i + 1].start < MAX_BYTE_COUNT
      ensures forall p :: p in s.queue ==> !(s.gaps[i].start <= p < s.gaps[i].end)
    {
      assert s.gaps[i] in s.gaps && s.gaps[i + 1] in s.gaps;
      assert i + 1 < |s.gaps| - 1 ==> s.gaps[i + 1].end < s.gaps[|s.gaps| - 1].start;
      forall p | p in s.queue
        ensures !(s.gaps[i].start <= p < s.gaps[i].end)
      {
        NoEntryInGap(s, p, s.gaps[i]);
      }
      WalkToGap(s, s.gaps[i].end, MAX_BYTE_COUNT, i + 1);
    }

    /** Releases all entries between gap i and gap i + 1. */
    method DropRun(pos: int, ghost s0: Sorter, ghost i: nat, ghost called0: multiset<nat>, ghost first: int,
                   ghost upto: int)
      requires Inv(s0) && i + 1 < |s0.gaps|
      requires pos == s0.gaps[i].end
      requires Removed(s0.queue, called0, first, upto) && first <= upto
      requires if upto <= pos then s0.gaps[i].start <= upto
               else first <= pos && upto == s0.gaps[i + 1].start
      modifies this`queue, this`called
      ensures Removed(s0.queue, called0, first, s0.gaps[i + 1].start)
      ensures first <= s0.gaps[i + 1].start
    {
      hide Removed, Walk, Chained, Anchored, ClearOfGaps, Sorted;
      RunBehindGap(s0, i);
      if first <= pos { RemovedLookup(s0.queue, called0, first, upto, pos); }
      DeleteConsecutive(pos, s0.gaps[i + 1].start, s0.queue, called0, first, upto);
    }

    /** Drops gap j, now at index k, with the entries behind it. */
    method DropGap(k: nat, ghost pre: seq<Interval>, ghost s0: Sorter, ghost j: nat,
                   ghost called0: multiset<nat>, ghost first: int)
      requires Inv(s0) && j + 1 < |s0.gaps| && k == |pre|
      requires gaps == pre + s0.gaps[j..]
      requires Removed(s0.queue, called0, first, s0.gaps[j].start)
      requires first <= s0.gaps[j].start < s0.gaps[j].end
      modifies this`queue, this`called, this`gaps
      ensures gaps == pre + s0.gaps[j + 1..]
      ensures Removed(s0.queue, called0, first, s0.gaps[j + 1].start)
      ensures first <= s0.gaps[j + 1].start
    {
      hide Removed, Inv;
      DropOne(pre, s0.gaps, j);
      DropRun(gaps[k].end, s0, j, called0, first, s0.gaps[j].start);
      gaps := gaps[..k] + gaps[k + 1..];
    }

    static lemma GapOrder(s: Sorter, i: nat, j: nat)
      requires Inv(s) && i <= j < |s.gaps|
      ensures s.gaps[i].start < s.gaps[i].end
      ensures i < j ==> s.gaps[i].end < s.gaps[j].start
    {
    }

    /**
     Between two gaps that the frame touches everything is covered by it: the gaps in
     between are dropped and all entries up to the last gap are released.
     */
    method DropCovered(k: nat, startGapEnd: int, endGapStart: int,
                       ghost s0: Sorter, ghost si: nat, ghost ei: nat,
                       ghost called0: multiset<nat>, ghost first: int, ghost upto: int)
      requires Inv(s0) && si < ei < |s0.gaps|
      requires startGapEnd == s0.gaps[si].end && endGapStart == s0.gaps[ei].start
      requires k <= |gaps| && gaps[k..] == s0.gaps[si + 1..]
      requires Removed(s0.queue, called0, first, upto) && first <= upto
      requires if upto <= startGapEnd then s0.gaps[si].start <= upto
               else first <= startGapEnd && upto == s0.gaps[si + 1].start
      modifies this`queue, this`called, this`gaps
      ensures gaps == old(gaps)[..k] + s0.gaps[ei..]
      ensures Removed(s0.queue, called0, first, endGapStart)
    {
      hide Removed, Inv;
      DropRun(startGapEnd, s0, si, called0, first, upto);
      ghost var pre, j := gaps[..k], si + 1;
      GapOrder(s0, j, ei);
      while gaps[k].end < endGapStart
        invariant si + 1 <= j <= ei
        invariant gaps == pre + s0.gaps[j..]
        invariant Removed(s0.queue, called0, first, s0.gaps[j].start)
        invariant first <= s0.gaps[j].start < s0.gaps[j].end
        invariant s0.gaps[j].end < endGapStart <==> j < ei
        decreases ei - j
      {
        DropGap(k, pre, s0, j, called0, first);
        GapOrder(s0, j, j + 1);
        GapOrder(s0, j + 1, ei);
        j := j + 1;
      }
      assert gaps[k] == s0.gaps[j];
    }

    /**
     Replace the entries at start that the new frame covers. A frame that the first entry
     covers is a duplicate; one that ends inside a later entry is cut at that entry.
     */
    method ReplaceFrames(start: int, end: int, ghost called0: multiset<nat>)
      returns (pos: int, replaced: bool, duplicate: bool, cut: bool)
      requires start < end
      requires EntriesOk(queue, 0) && called == called0
      modifies this`queue, this`called
      ensures duplicate <==> start in old(queue) && end <= End(old(queue), start)
      ensures duplicate ==> queue == old(queue) && called == old(called)
      ensures !duplicate ==>
        && pos == Walk(old(queue), start, end)
        && (replaced <==> start in old(queue))
        && (!replaced ==> pos == start)
        && (cut <==> pos in old(queue))
        && start <= pos <= end
        && Removed(old(queue), called0, start, pos)
    {
      ghost var q0 := queue;
      pos, replaced, duplicate, cut := start, false, false, false;
      assert Keep(q0, start, start) == q0;
      assert forall id: nat :: Released(q0, start, start, id) == {};
      while pos in queue
        invariant start <= pos <= end
        invariant !duplicate && !cut
        invariant Removed(q0, called0, start, pos)
        invariant Walk(q0, pos, end) == Walk(q0, start, end)
        invariant if replaced then start in q0 && End(q0, start) < end
          else pos == start && queue == q0 && called == old(called)
        decreases end - pos
      {
        var n := |queue[pos].data|;
        if end - pos > n || (replaced && end - pos == n) {
          RemoveAt(pos, q0, called0, start, pos);
          pos := pos + n;
          replaced := true;
        } else {
          if !replaced {
            duplicate := true;
            return;
          }
          cut := true;
          break;
        }
      }
    }

    /** How far entries have been removed by ReplaceFrames when the gap list is edited. */
    static function ReplacedUpTo(gaps: seq<Interval>, si: nat, ei: nat, start: int, end: int): int
      requires si <= ei < |gaps|
    {
      if start < gaps[si].start then gaps[si].start
      else if start < gaps[si].end then start
      else if si == ei then end
      else gaps[si + 1].start
    }

    static function Left(g: Interval, start: int): seq<Interval> {
      if g.start < start then [Interval(g.start, Min(g.end, start))] else []
    }

    static function Right(g: Interval, last: int): seq<Interval> {
      if last < g.end then [Interval(Max(g.start, last), g.end)] else []
    }

    static lemma CarvedOne(gaps: seq<Interval>, i: nat, start: int, last: int)
      requires i < |gaps|
      ensures Subtract(gaps[i..i + 1], start, last) == Left(gaps[i], start) + Right(gaps[i], last)
    {
      assert gaps[i..i + 1] == [gaps[i]];
      SubtractSingle(gaps[i], start, last);
    }

    static lemma CarvedMany(gaps: seq<Interval>, i: nat, j: nat, start: int, last: int)
      requires Sorted(gaps) && i < j < |gaps|
      requires start <= gaps[i].end && gaps[j].start <= last
      ensures Subtract(gaps[i..j + 1], start, last) == Left(gaps[i], start) + Right(gaps[j], last)
    {
      hide Subtract;
      SubtractAcross(gaps, i, j, start, last);
      WithoutSides(gaps[i], start, last);
      WithoutSides(gaps[j], start, last);
    }

    /** The gap list that the edits produce is the old one without the stored bytes. */
    static lemma CarvedGaps(s: Sorter, si: nat, ei: nat, start: int, last: int)
      requires Inv(s) && si <= ei < |s.gaps|
      requires start < last && start <= s.gaps[si].end && s.gaps[ei].start <= last
      requires si > 0 ==> s.gaps[si - 1].end < start
      requires ei + 1 < |s.gaps| ==> last < s.gaps[ei + 1].start
      ensures Subtract(s.gaps, start, last) ==
              s.gaps[..si] + (Left(s.gaps[si], start) + Right(s.gaps[ei], last)) + s.gaps[ei + 1..]
    {
      hide Inv, Subtract, Sorted, Left, Right;
      InvSorted(s);
      SubtractTouched(s.gaps, si, ei + 1, start, last);
      if si == ei { CarvedOne(s.gaps, si, start, last); } else { CarvedMany(s.gaps, si, ei, start, last); }
    }

    static lemma InvSorted(s: Sorter)
      requires Inv(s)
      ensures Sorted(s.gaps)
    {
    }

    static lemma WithoutSides(g: Interval, start: int, last: int)
      ensures Without(g, start, last) == Left(g, start) + Right(g, last)
      ensures g.end <= last ==> Without(g, start, last) == Left(g, start)
      ensures start <= g.start ==> Without(g, start, last) == Right(g, last)
    {
    }

    /** After the entries up to `upto` are gone, the rest of the stored range is gap. */
    lemma RemovedToLast(s: Sorter, ei: nat, called0: multiset<nat>, start: int, upto: int, last: int)
      requires Inv(s) && ei < |s.gaps|
      requires Removed(s.queue, called0, start, upto)
      requires start <= upto <= last
      requires s.gaps[ei].start <= upto && last <= s.gaps[ei].end
      ensures Removed(s.queue, called0, start, last)
    {
      hide Removed;
      forall p | p in s.queue
        ensures !(upto <= p < last)
      {
        assert s.gaps[ei] in s.gaps;
        NoEntryInGap(s, p, s.gaps[ei]);
      }
      RemovedIdle(s.queue, called0, start, upto, last);
    }

    /** The single gap touched, after its start has been dealt with. */
    static function Trimmed(g: Interval, start: int, end: int): seq<Interval> {
      if start <= g.start && end < g.end then [Interval(end, g.end)] else Left(g, start)
    }

    /** The gaps si..ei are the ones that the frame [start, end) touches. */
    static predicate Touches(gaps: seq<Interval>, si: nat, ei: nat, start: int, end: int, replaced: bool,
                             endsInGap: bool) {
      && si <= ei < |gaps|
      && start < end && gaps[si].start < end && start <= gaps[si].end
      && (si > 0 ==> gaps[si - 1].end < start)
      && (if endsInGap then gaps[ei].start <= end < gaps[ei].end
          else gaps[ei].end <= end && ei + 1 < |gaps| && end < gaps[ei + 1].start)
      && (if replaced then start < gaps[si].start || start == gaps[si].end
          else gaps[si].start <= start < gaps[si].end)
    }

    static function CarvedTo(gaps: seq<Interval>, ei: nat, start: int, end: int, endsInGap: bool): int
      requires ei < |gaps|
    {
      if endsInGap || start == gaps[ei].end then end else gaps[ei].end
    }

    static lemma CarveNumbers(s: Sorter, si: nat, ei: nat, start: int, end: int, replaced: bool, endsInGap: bool)
      requires Inv(s) && Touches(s.gaps, si, ei, start, end, replaced, endsInGap)
      ensures var last := CarvedTo(s.gaps, ei, start, end, endsInGap);
        && start < last <= end
        && s.gaps[si].start < s.gaps[si].end
        && s.gaps[ei].start < s.gaps[ei].end
        && s.gaps[ei].start <= last
        && s.gaps[si].start < last
        && (si < ei ==>
             s.gaps[si].end < s.gaps[si + 1].start && s.gaps[si].end < s.gaps[ei].start && s.gaps[si].end <= end)
        && (ei + 1 < |s.gaps| ==> last < s.gaps[ei + 1].start)
        && (last > s.gaps[ei].end ==> si == ei && start == s.gaps[ei].end)
        && (si == ei ==> Trimmed(s.gaps[si], start, end) == Trimmed(s.gaps[si], start, last))
      ensures var last := CarvedTo(s.gaps, ei, start, end, endsInGap);
        var upto := if si == ei then ReplacedUpTo(s.gaps, si, ei, start, end) else s.gaps[ei].start;
        && start <= upto <= last
        && (upto < last ==> s.gaps[ei].start <= upto && last <= s.gaps[ei].end)
      ensures si < ei ==>
        var upto := ReplacedUpTo(s.gaps, si, ei, start, end);
        && start <= upto
        && if upto <= s.gaps[si].end then s.gaps[si].start <= upto else upto == s.gaps[si + 1].start
    {
      hide Inv;
      GapOrder(s, si, ei);
      GapOrder(s, ei, ei);
      if si < ei { GapOrder(s, si, si + 1); }
      if ei + 1 < |s.gaps| { GapOrder(s, ei, ei + 1); }
    }

    /** Trim the gap in which the frame starts; k is the index of the next gap afterwards. */
    method CarveStart(si: nat, start: int, end: int, replaced: bool, ghost same: bool) returns (k: nat, adjusted: bool)
      requires si < |gaps|
      requires gaps[si].start < gaps[si].end && gaps[si].start < end && start <= gaps[si].end
      requires if replaced then start < gaps[si].start || start == gaps[si].end
               else gaps[si].start <= start < gaps[si].end
      requires !same ==> gaps[si].end <= end
      modifies this`gaps
      ensures k <= |gaps| && gaps[k..] == old(gaps)[si + 1..]
      ensures adjusted <==> old(gaps)[si].start < start < old(gaps)[si].end
      ensures !same ==>
        gaps[..k] == old(gaps)[..si] + Left(old(gaps)[si], start) && k == si + |Left(old(gaps)[si], start)|
      ensures same ==> gaps == old(gaps)[..si] + Trimmed(old(gaps)[si], start, end) + old(gaps)[si + 1..]
    {
      k, adjusted := si + 1, false;
      if start <= gaps[si].start {
        if end >= gaps[si].end {
          gaps := gaps[..si] + gaps[si + 1..];
          k := si;
        } else {
          gaps := gaps[si := Interval(end, gaps[si].end)];
        }
      } else if !replaced {
        gaps := gaps[si := Interval(gaps[si].start, start)];
        adjusted := true;
      }
    }

    /** Trim the gap in which the frame ends. */
    method CarveEnd(si: nat, ei: nat, last: int, startGapEnd: int, endGapEnd: int, same: bool, adjusted: bool,
                    ghost gaps0: seq<Interval>, ghost ei0: nat, ghost start: int)
      requires si <= ei0 < |gaps0| && (same <==> si == ei0)
      requires startGapEnd == gaps0[si].end && endGapEnd == gaps0[ei0].end
      requires gaps0[ei0].start < gaps0[ei0].end && gaps0[ei0].start <= last
      requires gaps0[si].start < last && start < last && start <= gaps0[si].end
      requires adjusted <==> gaps0[si].start < start < gaps0[si].end
      requires last > endGapEnd ==> same && start == endGapEnd
      requires !same ==>
        && gaps == gaps0[..si] + Left(gaps0[si], start) + gaps0[ei0..]
        && ei == si + |Left(gaps0[si], start)|
      requires same ==> gaps == gaps0[..si] + Trimmed(gaps0[si], start, last) + gaps0[si + 1..]
      modifies this`gaps
      ensures gaps == gaps0[..si] + (Left(gaps0[si], start) + Right(gaps0[ei0], last)) + gaps0[ei0 + 1..]
    {
      if last == endGapEnd {
        if !same { gaps := gaps[..ei] + gaps[ei + 1..]; }
      } else if same && adjusted {
        gaps := gaps[..si + 1] + [Interval(last, startGapEnd)] + gaps[si + 1..];
      } else if !same {
        gaps := gaps[ei := Interval(last, gaps[ei].end)];
      }
    }

    /** Take the bytes [start, end) out of the gaps, as far as the last gap touched reaches. */
    method Carve(si: nat, ei0: nat, start: int, end: int, replaced: bool, endsInGap: bool,
                 ghost s0: Sorter, ghost called0: multiset<nat>)
      returns (last: int)
      requires Inv(s0) && gaps == s0.gaps
      requires Touches(gaps, si, ei0, start, end, replaced, endsInGap)
      requires Removed(s0.queue, called0, start, ReplacedUpTo(s0.gaps, si, ei0, start, end))
      modifies this`queue, this`called, this`gaps
      ensures last == CarvedTo(s0.gaps, ei0, start, end, endsInGap)
      ensures gaps == Subtract(s0.gaps, start, last)
      ensures Removed(s0.queue, called0, start, last)
    {
      hide Inv, Removed, Subtract, Left, Right, Trimmed, ReplacedUpTo;
      CarveNumbers(s0, si, ei0, start, end, replaced, endsInGap);
      ghost var upto := ReplacedUpTo(s0.gaps, si, ei0, start, end);
      var ei := ei0;
      var same := si == ei;
      var startGapEnd, endGapStart, endGapEnd := gaps[si].end, gaps[ei].start, gaps[ei].end;
      last := if !endsInGap && start != endGapEnd && end > endGapEnd then endGapEnd else end;
      var k, adjusted := CarveStart(si, start, end, replaced, same);
      if !same {
        DropCovered(k, startGapEnd, endGapStart, s0, si, ei0, called0, start, upto);
        ei := k;
        upto := endGapStart;
      }
      CarveEnd(si, ei, last, startGapEnd, endGapEnd, same, adjusted, s0.gaps, ei0, start);
      CarvedGaps(s0, si, ei0, start, last);
      if upto < last { RemovedToLast(s0, ei0, called0, start, upto, last); }
    }

    static ghost predicate Fits(s: Sorter, offset: nat, n: nat, si: nat, ei: int, endsInGap: bool)
      requires Inv(s)
    {
      var end := offset + n;
      && 0 < n && end < MAX_BYTE_COUNT
      && si == StartGap(s.gaps, offset, 0)
      && var k := EndGap(s.gaps, end, si);
      && k < |s.gaps|
      && (endsInGap <==> s.gaps[k].start <= end)
      && ei == (if endsInGap then k else k - 1)
      && s.gaps[0].start < end
    }

    /** The gap search fails exactly from the maximum offset on. */
    static lemma SearchSucceeds(s: Sorter, offset: nat, n: nat)
      requires Inv(s)
      ensures StartGap(s.gaps, offset, 0) == |s.gaps| ==> offset > MAX_BYTE_COUNT
      ensures EndGap(s.gaps, offset + n, StartGap(s.gaps, offset, 0)) == |s.gaps| <==> offset + n >= MAX_BYTE_COUNT
    {
      hide EntriesOk, Chained, ClearOfGaps, Anchored, Sorted;
      var k := EndGap(s.gaps, offset + n, StartGap(s.gaps, offset, 0));
      if k < |s.gaps| {
        if k < |s.gaps| - 1 { GapOrder(s, k, |s.gaps| - 1); GapOrder(s, |s.gaps| - 1, |s.gaps| - 1); }
      }
    }

    /** The search never returns a missing element, even where it steps back by one gap. */
    static lemma Located(s: Sorter, offset: nat, n: nat)
      requires Inv(s) && 0 < n && s.gaps[0].start < offset + n < MAX_BYTE_COUNT
      ensures var si := StartGap(s.gaps, offset, 0);
        var k := EndGap(s.gaps, offset + n, si);
        && si <= k < |s.gaps|
        && var ei := if s.gaps[k].start <= offset + n then k else k - 1;
        && 0 <= ei
        && (s.gaps[si].start < offset + n ==> si <= ei)
        && (offset + n <= s.gaps[si].start ==> ei == si || (ei == si - 1 && s.gaps[ei].start < s.gaps[si].end))
    {
      SearchSucceeds(s, offset, n);
      var si := StartGap(s.gaps, offset, 0);
      var k := EndGap(s.gaps, offset + n, si);
      if si < k { GapOrder(s, si, k); }
      if 0 < si { GapOrder(s, si - 1, si); GapOrder(s, si - 1, si - 1); GapOrder(s, si, si); }
    }

    /** How the search for replaced entries ends, for a frame that is not a duplicate. */
    static lemma ReplaceOutcome(s: Sorter, offset: nat, n: nat, si: nat, ei: nat, endsInGap: bool)
      requires Inv(s) && Fits(s, offset, n, si, ei, endsInGap)
      requires s.gaps[si].start < offset + n
      requires offset in s.queue ==> End(s.queue, offset) < offset + n
      ensures si <= ei < |s.gaps|
      ensures offset < s.gaps[si].start && offset in s.queue ==>
              Walk(s.queue, offset, offset + n) == s.gaps[si].start
      ensures s.gaps[si].start !in s.queue
      ensures s.gaps[si].start <= offset < s.gaps[si].end ==> offset !in s.queue
      ensures offset == s.gaps[si].end ==>
              && offset in s.queue
              && (si == ei ==> !endsInGap && Walk(s.queue, offset, offset + n) in s.queue
                               && offset < Walk(s.queue, offset, offset + n))
              && (si < ei ==> Walk(s.queue, offset, offset + n) == s.gaps[si + 1].start
                              && s.gaps[si + 1].start !in s.queue)
      ensures !endsInGap && ei > si ==> s.gaps[ei].end != offset
    {
      var end := offset + n;
      Located(s, offset, n);
      assert s.gaps[si] in s.gaps;
      forall p | p in s.queue
        ensures !(s.gaps[si].start <= p < s.gaps[si].end)
        ensures si + 1 < |s.gaps| ==> p != s.gaps[si + 1].start
      {
        NoEntryInGap(s, p, s.gaps[si]);
        if si + 1 < |s.gaps| {
          assert s.gaps[si + 1] in s.gaps;
          NoEntryInGap(s, p, s.gaps[si + 1]);
        }
      }
      GapOrder(s, si, ei);
      GapOrder(s, ei, ei);
      if offset < s.gaps[si].start && offset in s.queue {
        WalkToGap(s, offset, end, si);
      }
      if offset == s.gaps[si].end {
        if si == ei {
          WalkBehindGap(s, si + 1, end);
        } else {
          GapOrder(s, si + 1, ei);
          GapOrder(s, si, si + 1);
          WalkToGap(s, offset, end, si + 1);
        }
      }
    }

    static function SearchedPlacement(s: Sorter, offset: int, end: int, si: nat, ei: nat, endsInGap: bool): Placement
      requires si < |s.gaps| && ei < |s.gaps|
      requires EntriesOk(s.queue, 0)
    {
      if end <= s.gaps[si].start || (offset in s.queue && end <= End(s.queue, offset)) then Skip
      else
        var first := if offset < s.gaps[si].start && offset !in s.queue then s.gaps[si].start else offset;
        var last := if endsInGap then end
                    else if offset == s.gaps[ei].end then Walk(s.queue, offset, end)
                    else s.gaps[ei].end;
        Place(first, last, first != offset || last != end || (!endsInGap && offset == s.gaps[ei].end))
    }

    static lemma PlacedAtSearch(s: Sorter, offset: int, end: int, si: nat, k: nat, ei: nat, endsInGap: bool)
      requires si < |s.gaps| && k < |s.gaps|
      requires EntriesOk(s.queue, 0)
      requires endsInGap <==> s.gaps[k].start <= end
      requires ei == if endsInGap then k else k - 1
      ensures PlacedAt(s, offset, end, si, k) == SearchedPlacement(s, offset, end, si, ei, endsInGap)
    {
    }

    static lemma FitsPositive(s: Sorter, offset: nat, n: nat, si: nat, ei: int, endsInGap: bool)
      requires Inv(s) && Fits(s, offset, n, si, ei, endsInGap)
      ensures 0 < n && s.gaps != [] && s.gaps[0].start < offset + n < MAX_BYTE_COUNT
    {
    }

    /** The placement that the searches and cuts amount to. */
    static lemma PlacedBySearch(s: Sorter, offset: nat, n: nat, si: nat, ei: int, endsInGap: bool)
      requires Inv(s) && Fits(s, offset, n, si, ei, endsInGap)
      ensures si < |s.gaps| && 0 <= ei < |s.gaps| && EntriesOk(s.queue, 0)
      ensures Placed(s, offset, n) == SearchedPlacement(s, offset, offset + n, si, ei, endsInGap)
    {
      hide Inv, PlacedAt, SearchedPlacement, StartGap, EndGap;
      FitsPositive(s, offset, n, si, ei, endsInGap);
      Located(s, offset, n);
      InvEntries(s);
      PlacedAtSearch(s, offset, offset + n, si, EndGap(s.gaps, offset + n, si), ei, endsInGap);
    }

    /** The frame has been pushed; a duplicate's own callback is still to be called. */
    ghost predicate Inserted(s0: Sorter, called0: multiset<nat>, data: seq<byte>, offset: nat, done: Option<nat>,
                             outcome: Outcome)
      requires Inv(s0)
      reads this
    {
      && State() == SorterSpec.Push(s0, data, offset, done).sorter
      && outcome == SorterSpec.Push(s0, data, offset, done).outcome
      && (forall id: nat :: called[id] == called0[id] +
           (if outcome == Duplicate then 0 else DoneCalls(s0, data, offset, done, id)))
    }

    /** frame_sorter.go push: store the frame, or find it a duplicate or an error. */
    method Insert(data: seq<byte>, offset: nat, done: Option<nat>) returns (outcome: Outcome)
      requires Inv(State())
      modifies this
      ensures Inserted(old(State()), old(called), data, offset, done, outcome)
    {
      hide Inv, Fits, Inserted;
      ghost var s0 := State();
      InsertAtOnce(data, offset, done);
      if |data| == 0 {
        return Duplicate;
      }
      var start, end := offset, offset + |data|;
      if end <= gaps[0].start {
        return Duplicate;
      }
      var si, startsInGap, ei, endsInGap, found := Locate(start, end);
      if !found {
        return Panic;
      }
      var same := si == ei;
      if (same && end <= gaps[si].start) ||
         (!same && gaps[si].end >= gaps[ei].start && end <= gaps[si].start) {
        InsertSkipped(data, offset, done, si, ei, endsInGap);
        return Duplicate;
      }
      outcome := Fill(data, offset, done, si, ei, startsInGap, endsInGap);
    }

    /** What a push does when it need not look for gaps. */
    lemma InsertAtOnce(data: seq<byte>, offset: nat, done: Option<nat>)
      requires Inv(State())
      ensures gaps != []
      ensures |data| == 0 || offset + |data| <= gaps[0].start ==>
              Inserted(State(), called, data, offset, done, Duplicate)
      ensures |data| > 0 && offset + |data| >= MAX_BYTE_COUNT ==>
              Inserted(State(), called, data, offset, done, Panic)
    {
      hide EntriesOk, Chained, ClearOfGaps, Anchored;
      GapOrder(State(), 0, |gaps| - 1);
    }

    lemma InsertSkipped(data: seq<byte>, offset: nat, done: Option<nat>, si: nat, ei: int, endsInGap: bool)
      requires Inv(State()) && Fits(State(), offset, |data|, si, ei, endsInGap)
      requires offset + |data| <= gaps[si].start || (offset in queue && offset + |data| <= End(queue, offset))
      ensures Inserted(State(), called, data, offset, done, Duplicate)
    {
      hide Placed, Inv, EntriesOk, Walk;
      FitsPositive(State(), offset, |data|, si, ei, endsInGap);
      PlacedBySearch(State(), offset, |data|, si, ei, endsInGap);
    }

    /** The gaps in which the frame starts and ends; without them the search panics. */
    method Locate(start: nat, end: int)
      returns (si: nat, startsInGap: bool, ei: int, endsInGap: bool, found: bool)
      requires Inv(State()) && start < end && gaps[0].start < end
      ensures found <==> end < MAX_BYTE_COUNT
      ensures found ==>
        && Fits(State(), start, end - start, si, ei, endsInGap)
        && si < |gaps| && 0 <= ei < |gaps|
        && (startsInGap <==> gaps[si].start <= start)
        && (gaps[si].start < end ==> si <= ei)
        && (end <= gaps[si].start ==> ei == si || (ei == si - 1 && gaps[ei].start < gaps[si].end))
    {
      hide Inv, StartGap, EndGap;
      ei, endsInGap := -1, false;
      SearchSucceeds(State(), start, end - start);
      if end < MAX_BYTE_COUNT { Located(State(), start, end - start); }
      InvSorted(State());
      si, startsInGap, found := FindStartGap(start);
      if found {
        ei, endsInGap, found := FindEndGap(si, end);
      }
    }

    method Fill(data: seq<byte>, offset: nat, done: Option<nat>, si: nat, ei: nat, startsInGap: bool, endsInGap: bool)
      returns (outcome: Outcome)
      requires Inv(State()) && Fits(State(), offset, |data|, si, ei, endsInGap)
      requires gaps[si].start < offset + |data|
      requires startsInGap <==> gaps[si].start <= offset
      modifies this
      ensures Inserted(old(State()), old(called), data, offset, done, outcome)
    {
      hide Inv, Fits, Inserted, Removed, Touches, CarvedTo, ReplacedUpTo, Walk, SearchedPlacement, Placed;
      ghost var s0, called0 := State(), called;
      InvEntries(s0);
      FitsBounds(s0, offset, |data|, si, ei, endsInGap);
      var start, end := offset, offset + |data|;
      var pos, replaced, duplicate, wasCut := ReplaceFrames(start, end, called0);
      if duplicate {
        InsertSkipped(data, offset, done, si, ei, endsInGap);
        return Duplicate;
      }
      ReadyToCarve(s0, offset, |data|, si, ei, endsInGap);
      if wasCut { end := pos; }
      if !startsInGap && !replaced {
        start := gaps[si].start;
        wasCut := true;
        RemovedNothing(s0.queue, called0, offset, start);
      }
      var last := Carve(si, ei, start, end, replaced, endsInGap, s0, called0);
      wasCut := wasCut || last != end;
      outcome := QueueRest(data, offset, done, start, last, wasCut, s0, called0);
    }

    /** What replacing entries leaves for the gap list to do, and the placement this amounts to. */
    static ghost predicate Ready(s: Sorter, offset: int, end0: int, si: nat, ei: nat, endsInGap: bool)
      requires si <= ei < |s.gaps| && EntriesOk(s.queue, 0)
    {
      var pos := Walk(s.queue, offset, end0);
      var replaced, cut := offset in s.queue, pos in s.queue;
      var end := if cut then pos else end0;
      var start := if offset < s.gaps[si].start && !replaced then s.gaps[si].start else offset;
      && Touches(s.gaps, si, ei, start, end, replaced, endsInGap)
      && ReplacedUpTo(s.gaps, si, ei, start, end) == (if start == offset then pos else start)
      && var last := CarvedTo(s.gaps, ei, start, end, endsInGap);
      && SearchedPlacement(s, offset, end0, si, ei, endsInGap) == Place(start, last, start != offset || cut ||
           last != end)
    }

    /** The frame starts before or in gap si; whatever it replaces leads up to that gap. */
    static lemma ReadyAhead(s: Sorter, offset: int, end: int, si: nat, ei: nat, endsInGap: bool)
      requires EntriesOk(s.queue, 0)
      requires si <= ei < |s.gaps|
      requires offset in s.queue ==> End(s.queue, offset) < end
      requires Touches(s.gaps, si, ei, Max(offset, s.gaps[si].start), end, false, endsInGap)
      requires si > 0 ==> s.gaps[si - 1].end < offset
      requires s.gaps[si].end <= s.gaps[ei].end
      requires offset < s.gaps[si].end
      requires if offset in s.queue then offset < s.gaps[si].start && Walk(s.queue, offset, end) == s.gaps[si].start
               else true
      requires s.gaps[si].start !in s.queue
      ensures Ready(s, offset, end, si, ei, endsInGap)
    {
    }

    /** The frame starts right behind gap si. */
    static lemma ReadyBehind(s: Sorter, offset: int, end: int, si: nat, ei: nat, endsInGap: bool)
      requires EntriesOk(s.queue, 0)
      requires si <= ei < |s.gaps|
      requires offset == s.gaps[si].end && offset in s.queue && End(s.queue, offset) < end
      requires Touches(s.gaps, si, ei, offset, end, true, endsInGap)
      requires s.gaps[si].start < s.gaps[si].end
      requires si == ei ==> !endsInGap && Walk(s.queue, offset, end) in s.queue && offset < Walk(s.queue, offset, end)
      requires si < ei ==> Walk(s.queue, offset, end) == s.gaps[si + 1].start && s.gaps[si + 1].start !in s.queue
      requires si < ei ==> s.gaps[si].end < s.gaps[ei].end
      ensures Ready(s, offset, end, si, ei, endsInGap)
    {
    }

    static lemma ReadyToCarve(s: Sorter, offset: nat, n: nat, si: nat, ei: nat, endsInGap: bool)
      requires Inv(s) && Fits(s, offset, n, si, ei, endsInGap)
      requires s.gaps[si].start < offset + n
      requires offset in s.queue ==> End(s.queue, offset) < offset + n
      ensures si <= ei < |s.gaps| && 0 < n && offset + n < MAX_BYTE_COUNT && EntriesOk(s.queue, 0)
      ensures Ready(s, offset, offset + n, si, ei, endsInGap)
      ensures Placed(s, offset, n) == SearchedPlacement(s, offset, offset + n, si, ei, endsInGap)
    {
      hide Inv, Fits, EntriesOk, Ready, SearchedPlacement, Walk, Placed;
      FitsBounds(s, offset, n, si, ei, endsInGap);
      ReplaceOutcome(s, offset, n, si, ei, endsInGap);
      PlacedBySearch(s, offset, n, si, ei, endsInGap);
      if offset < s.gaps[si].end {
        ReadyAhead(s, offset, offset + n, si, ei, endsInGap);
      } else {
        ReadyBehind(s, offset, offset + n, si, ei, endsInGap);
      }
    }

    static lemma InvEntries(s: Sorter)
      requires Inv(s)
      ensures EntriesOk(s.queue, 0)
    {
    }

    static lemma FitsBounds(s: Sorter, offset: nat, n: nat, si: nat, ei: nat, endsInGap: bool)
      requires Inv(s) && Fits(s, offset, n, si, ei, endsInGap)
      requires s.gaps[si].start < offset + n
      ensures 0 < n && offset + n < MAX_BYTE_COUNT
      ensures si <= ei < |s.gaps| && offset <= s.gaps[si].end
      ensures s.gaps[si].start < s.gaps[si].end
      ensures s.gaps[ei].start < s.gaps[ei].end
      ensures si < ei ==> s.gaps[si].end < s.gaps[ei].start
      ensures si > 0 ==> s.gaps[si - 1].end < offset
      ensures var end := offset + n;
        if endsInGap then s.gaps[ei].start <= end < s.gaps[ei].end
        else s.gaps[ei].end <= end && ei + 1 < |s.gaps| && end < s.gaps[ei + 1].start
    {
      hide Inv, StartGap, EndGap;
      FitsPositive(s, offset, n, si, ei, endsInGap);
      Located(s, offset, n);
      GapOrder(s, si, ei);
      GapOrder(s, ei, ei);
    }

    lemma RemovedNothing(q0: map<int, Entry>, called0: multiset<nat>, a: int, b: int)
      requires Removed(q0, called0, a, a)
      ensures Removed(q0, called0, b, b)
    {
    }

    /** Queue what is left of the frame, copying a small remainder. */
    method QueueRest(data: seq<byte>, offset: nat, done: Option<nat>, start: int, last: int, wasCut: bool,
                 ghost s0: Sorter, ghost called0: multiset<nat>)
      returns (outcome: Outcome)
      requires Inv(s0) && readPos == s0.readPos
      requires |data| > 0 && offset + |data| < MAX_BYTE_COUNT
      requires Placed(s0, offset, |data|) == Place(start, last, wasCut)
      requires gaps == Subtract(s0.gaps, start, last)
      requires Removed(s0.queue, called0, start, last)
      modifies this
      ensures Inserted(s0, called0, data, offset, done, outcome)
    {
      hide Inv, Placed, Subtract;
      PlacedFacts(s0, offset, |data|);
      var stored, owed := data[start - offset..last - offset], done;
      if wasCut && |stored| < MIN_STREAM_FRAME_BUFFER_SIZE {
        Release(done);
        owed := None;
      }
      if |gaps| > MAX_SORTER_GAPS {
        return TooManyGaps;
      }
      queue := queue[start := Entry(stored, owed)];
      return Stored;
    }

    method Push(data: seq<byte>, offset: nat, done: Option<nat>) returns (outcome: Outcome)
      requires Inv(State())
      modifies this
      ensures State() == SorterSpec.Push(old(State()), data, offset, done).sorter
      ensures outcome == SorterSpec.Push(old(State()), data, offset, done).outcome
      ensures forall id: nat :: called[id] == old(called)[id] + DoneCalls(old(State()), data, offset, done, id)
      ensures outcome in {Stored, Duplicate} ==> Inv(State())
      ensures outcome == Panic <==> |data| > 0 && offset + |data| >= MAX_BYTE_COUNT
    {
      hide Inv, SorterSpec.Push, DoneCalls;
      ghost var s0 := State();
      FrameAtMaximumPanics(s0, data, offset, done);
      outcome := Insert(data, offset, done);
      PushKeepsInv(s0, data, offset, done);
      if outcome == Duplicate {
        DuplicateCalls(s0, data, offset, done);
        Release(done);
      }
    }

    static lemma DuplicateCalls(s: Sorter, data: seq<byte>, offset: nat, done: Option<nat>)
      requires Inv(s)
      requires SorterSpec.Push(s, data, offset, done).outcome == Duplicate
      ensures forall id: nat :: DoneCalls(s, data, offset, done, id) == Count(done, id)
    {
      hide Placed;
    }

    method Pop() returns (offset: int, data: Option<seq<byte>>, done: Option<nat>, panic: bool)
      requires Inv(State())
      modifies this
      ensures !panic && offset == old(readPos)
      ensures var r := SorterRuns.Pop(old(State()));
        && State() == r.sorter
        && Inv(State())
        && (r.entry == None ==> data == None && done == None)
        && (r.entry.Some? ==> data == Some(r.entry.value.data) && done == r.entry.value.done)
      ensures called == old(called)
    {
      PopKeepsInv(State());
      panic := false;
      if readPos !in queue {
        return readPos, None, None, false;
      }
      var entry := queue[readPos];
      queue := queue - {readPos};
      offset := readPos;
      readPos := readPos + |entry.data|;
      if gaps[0].end <= readPos {
        panic := true;
      }
      data, done := Some(entry.data), entry.done;
    }

    method HasMoreData() returns (more: bool)
      ensures more <==> queue != map[]
    {
      more := |queue| > 0;
    }

    static lemma EntryBytesKnown(s: Sorter, p: int)
      requires Inv(s) && p in s.queue
      ensures forall x :: p <= x < End(s.queue, p) ==> !InGap(s.gaps, x)
      ensures p < End(s.queue, p)
      ensures End(s.queue, p) !in s.queue ==> InGap(s.gaps, End(s.queue, p))
    {
      assert 0 < |s.queue[p].data|;
      forall x | p <= x < End(s.queue, p)
        ensures !InGap(s.gaps, x)
      {
        forall g | g in s.gaps
          ensures !(g.start <= x < g.end)
        {
          NoEntryInGap(s, p, g);
        }
      }
      GapStartInGap(s.gaps, End(s.queue, p));
    }

    /**
     Peeks n bytes without consuming them. It fails exactly if no frame starts at offset or one
     of the bytes is missing, and what it returns is what the stream holds there.
     */
    method Peek(offset: nat, n: nat, ghost stream: seq<byte>) returns (r: Option<seq<byte>>)
      requires Inv(State()) && Matches(queue, stream)
      ensures n == 0 ==> r == Some([])
      ensures n > 0 ==>
        (r == None <==> offset !in queue || exists x :: offset <= x < offset + n && InGap(gaps, x))
      ensures n > 0 && r.Some? ==> |r.value| == n && Agrees(r.value, offset, stream)
    {
      hide Inv, InGap;
      if n == 0 {
        return Some([]);
      }
      var pos, remaining := offset, n;
      while remaining > 0
        invariant offset <= pos && pos + remaining == offset + n
        invariant pos > offset ==> offset in queue
        invariant forall x :: offset <= x < pos ==> !InGap(gaps, x)
        invariant pos !in queue ==> pos == offset || InGap(gaps, pos)
        invariant remaining > 0
      {
        if pos !in queue {
          return None;
        }
        EntryBytesKnown(State(), pos);
        var entryLen := |queue[pos].data|;
        if remaining <= entryLen {
          break;
        }
        remaining := remaining - entryLen;
        pos := pos + entryLen;
      }
      assert forall x :: offset <= x < offset + n ==> !InGap(gaps, x);
      pos := offset;
      var copied: seq<byte> := [];
      while |copied| < n
        invariant |copied| <= n && offset <= pos
        invariant |copied| < n ==> pos == offset + |copied| && pos in queue
        invariant Agrees(copied, offset, stream)
      {
        EntryBytesKnown(State(), pos);
        assert Agrees(queue[pos].data, pos, stream);
        var m := Min(n - |copied|, |queue[pos].data|);
        AgreesAppend(copied, queue[pos].data[..m], offset, stream, queue[pos].data);
        copied := copied + queue[pos].data[..m];
        pos := pos + |queue[pos].data|;
      }
      r := Some(copied);
    }

    static lemma AgreesAppend(a: seq<byte>, b: seq<byte>, offset: nat, stream: seq<byte>, c: seq<byte>)
      requires Agrees(a, offset, stream) && Agrees(c, offset + |a|, stream)
      requires |b| <= |c| && b == c[..|b|]
      ensures Agrees(a + b, offset, stream)
    {
      assert stream[offset..offset + |a| + |b|] ==
        stream[offset..offset + |a|] + stream[offset + |a|..offset + |a| + |b|];
      assert stream[offset + |a|..offset + |a| + |c|][..|b|] == stream[offset + |a|..offset + |a| + |b|];
    }
  }
}
