/**
 The frame sorter as a pure machine: what pushing a frame means, what the gap list
 and the offset-keyed queue always satisfy, and what every run delivers.
 The class in FrameSorter.dfy performs the same steps by list surgery.
 */
module SorterSpec {
  import opened Protocol

  datatype Interval = Interval(start: int, end: int)

  /** A queued frame and the release callback it still owes, if any. */
  datatype Entry = Entry(data: seq<byte>, done: Option<nat>)

  datatype Sorter = Sorter(queue: map<int, Entry>, readPos: int, gaps: seq<Interval>)

  datatype Outcome = Stored | Duplicate | TooManyGaps | Panic

  const Empty := Sorter(map[], 0, [Interval(0, MAX_BYTE_COUNT)])

  function End(queue: map<int, Entry>, p: int): int
    requires p in queue
  {
    p + |queue[p].data|
  }

  ghost predicate InGap(gaps: seq<Interval>, x: int) {
    exists g :: g in gaps && g.start <= x < g.end
  }

  ghost predicate GapStart(gaps: seq<Interval>, x: int) {
    exists g :: g in gaps && g.start == x
  }

  // ------------------------------------------------------------ invariant

  /** Nonempty intervals in increasing order with received bytes between any two. */
  predicate Sorted(gaps: seq<Interval>) {
    && (forall i :: 0 <= i < |gaps| ==> gaps[i].start < gaps[i].end)
    && (forall i, j :: 0 <= i < j < |gaps| ==> gaps[i].end < gaps[j].start)
  }

  predicate GapsOk(gaps: seq<Interval>) {
    && Sorted(gaps)
    && |gaps| > 0
    && 0 <= gaps[0].start
    && gaps[|gaps| - 1].end == MAX_BYTE_COUNT
  }

  ghost predicate EntriesOk(queue: map<int, Entry>, readPos: int) {
    && (forall p :: p in queue ==> readPos <= p && 0 < |queue[p].data|)
    && (forall p {:trigger End(queue, p)} :: p in queue ==> End(queue, p) < MAX_BYTE_COUNT)
    && (forall p, q {:trigger End(queue, p), q in queue} :: p in queue && q in queue && p < q ==> End(queue, p) <= q)
  }

  /** No queued byte lies in a gap. */
  ghost predicate ClearOfGaps(queue: map<int, Entry>, gaps: seq<Interval>) {
    forall p, g {:trigger End(queue, p), g in gaps} ::
      p in queue && g in gaps ==> g.end <= p || End(queue, p) <= g.start
  }

  /** Each entry is followed at once by another entry or by a gap. */
  ghost predicate Chained(queue: map<int, Entry>, gaps: seq<Interval>) {
    forall p {:trigger End(queue, p)} ::
      p in queue ==> End(queue, p) in queue || GapStart(gaps, End(queue, p))
  }

  /** Received data starts right where a gap (or the consumed prefix) ends. */
  ghost predicate Anchored(queue: map<int, Entry>, readPos: int, gaps: seq<Interval>) {
    && (readPos in queue || GapStart(gaps, readPos))
    && (forall g :: g in gaps && g.end != MAX_BYTE_COUNT ==> g.end in queue)
  }

  ghost predicate Inv(s: Sorter) {
    && GapsOk(s.gaps)
    && |s.gaps| <= MAX_SORTER_GAPS
    && 0 <= s.readPos <= s.gaps[0].start
    && EntriesOk(s.queue, s.readPos)
    && ClearOfGaps(s.queue, s.gaps)
    && Chained(s.queue, s.gaps)
    && Anchored(s.queue, s.readPos, s.gaps)
  }

  // ------------------------------------------------------------ gap subtraction

  /** What is left of one gap once the bytes [a, b) have arrived. */
  function Without(g: Interval, a: int, b: int): seq<Interval> {
    (if g.start < a then [Interval(g.start, Min(g.end, a))] else []) +
    (if b < g.end then [Interval(Max(g.start, b), g.end)] else [])
  }

  function Subtract(gaps: seq<Interval>, a: int, b: int): seq<Interval> {
    if gaps == [] then [] else Without(gaps[0], a, b) + Subtract(gaps[1..], a, b)
  }

  lemma {:induction false} SubtractMember(gaps: seq<Interval>, a: int, b: int, h: Interval)
    ensures h in Subtract(gaps, a, b) <==> exists g :: g in gaps && h in Without(g, a, b)
  {
    if gaps != [] {
      SubtractMember(gaps[1..], a, b, h);
      assert gaps == [gaps[0]] + gaps[1..];
    }
  }

  lemma AppendAssociative<T>(xs: seq<T>, ys: seq<T>, zs: seq<T>)
    ensures xs + (ys + zs) == (xs + ys) + zs
  {
  }

  lemma {:induction false} SubtractConcat(xs: seq<Interval>, ys: seq<Interval>, a: int, b: int)
    ensures Subtract(xs + ys, a, b) == Subtract(xs, a, b) + Subtract(ys, a, b)
  {
    if xs == [] {
      assert xs + ys == ys;
    } else {
      var w := Without(xs[0], a, b);
      assert (xs + ys)[1..] == xs[1..] + ys && (xs + ys)[0] == xs[0];
      calc {
        Subtract(xs + ys, a, b);
        w + Subtract(xs[1..] + ys, a, b);
        { SubtractConcat(xs[1..], ys, a, b); }
        w + (Subtract(xs[1..], a, b) + Subtract(ys, a, b));
        { AppendAssociative(w, Subtract(xs[1..], a, b), Subtract(ys, a, b)); }
        Subtract(xs, a, b) + Subtract(ys, a, b);
      }
    }
  }

  lemma {:induction false} SubtractElsewhere(gaps: seq<Interval>, a: int, b: int)
    requires a <= b
    requires forall g :: g in gaps ==> g.start < g.end && (g.end <= a || b <= g.start)
    ensures Subtract(gaps, a, b) == gaps
  {
    if gaps != [] {
      var g := gaps[0];
      assert g in gaps;
      assert Without(g, a, b) == [g];
      SubtractElsewhere(gaps[1..], a, b);
      assert gaps == [g] + gaps[1..];
    }
  }

  /** Subtracting [a, b) removes exactly those bytes from the missing ones. */
  lemma SubtractInGap(gaps: seq<Interval>, a: int, b: int, x: int)
    requires a <= b
    ensures InGap(Subtract(gaps, a, b), x) <==> InGap(gaps, x) && !(a <= x < b)
  {
    hide Subtract;
    var gaps' := Subtract(gaps, a, b);
    if InGap(gaps', x) {
      var h :| h in gaps' && h.start <= x < h.end;
      SubtractMember(gaps, a, b, h);
      var g :| g in gaps && h in Without(g, a, b);
      assert g.start <= x < g.end;
    }
    if InGap(gaps, x) && !(a <= x < b) {
      var g :| g in gaps && g.start <= x < g.end;
      var h := if x < a then Interval(g.start, Min(g.end, a)) else Interval(Max(g.start, b), g.end);
      assert h in Without(g, a, b);
      SubtractMember(gaps, a, b, h);
      assert h.start <= x < h.end;
    }
  }

  lemma WithoutSorted(g: Interval, a: int, b: int)
    requires a < b && g.start < g.end
    ensures Sorted(Without(g, a, b))
    ensures forall h :: h in Without(g, a, b) ==> g.start <= h.start && h.end <= g.end
    ensures b < g.end ==> var w := Without(g, a, b); w != [] && w[|w| - 1].end == g.end
  {
  }

  lemma SortedConcat(xs: seq<Interval>, ys: seq<Interval>)
    requires Sorted(xs) && Sorted(ys)
    requires forall x, y :: x in xs && y in ys ==> x.end < y.start
    ensures Sorted(xs + ys)
  {
  }

  lemma SortedTail(gaps: seq<Interval>)
    requires gaps != [] && Sorted(gaps)
    ensures Sorted(gaps[1..]) && gaps[0].start < gaps[0].end
    ensures |gaps| > 1 ==>
      gaps[0].end < gaps[1].start && gaps[1..][0] == gaps[1] && gaps[1..][|gaps| - 2] == gaps[|gaps| - 1]
  {
  }

  lemma SubtractAbove(gaps: seq<Interval>, a: int, b: int, h: Interval)
    requires a < b && Sorted(gaps) && h in Subtract(gaps, a, b)
    ensures gaps != [] && gaps[0].start <= h.start
  {
    hide Without, Subtract;
    SubtractMember(gaps, a, b, h);
    var g :| g in gaps && h in Without(g, a, b);
    var i :| 0 <= i < |gaps| && gaps[i] == g;
    WithoutSorted(g, a, b);
  }

  lemma {:induction false} SubtractLast(gaps: seq<Interval>, a: int, b: int)
    requires a < b && Sorted(gaps) && gaps != [] && b < gaps[|gaps| - 1].end
    ensures var t := Subtract(gaps, a, b); t != [] && t[|t| - 1].end == gaps[|gaps| - 1].end
  {
    hide Without, Sorted;
    SortedTail(gaps);
    WithoutSorted(gaps[0], a, b);
    var w, t := Without(gaps[0], a, b), Subtract(gaps[1..], a, b);
    if |gaps| > 1 {
      SubtractLast(gaps[1..], a, b);
      assert (w + t)[|w + t| - 1] == t[|t| - 1];
    } else {
      assert w + t == w;
    }
  }

  lemma {:induction false} SubtractSorted(gaps: seq<Interval>, a: int, b: int)
    requires a < b
    requires Sorted(gaps)
    ensures Sorted(Subtract(gaps, a, b))
    ensures gaps != [] ==> forall h :: h in Subtract(gaps, a, b) ==> gaps[0].start <= h.start
    ensures gaps != [] && b < gaps[|gaps| - 1].end ==>
      var t := Subtract(gaps, a, b); t != [] && t[|t| - 1].end == gaps[|gaps| - 1].end
  {
    hide Without, Sorted;
    forall h | h in Subtract(gaps, a, b) ensures gaps != [] &&
      gaps[0].start <= h.start { SubtractAbove(gaps, a, b, h); }
    if gaps != [] {
      if b < gaps[|gaps| - 1].end { SubtractLast(gaps, a, b); }
      SortedTail(gaps);
      SubtractSorted(gaps[1..], a, b);
      WithoutSorted(gaps[0], a, b);
      SortedConcat(Without(gaps[0], a, b), Subtract(gaps[1..], a, b));
    } else {
      SortedEmpty();
    }
  }

  lemma SortedEmpty()
    ensures Sorted([])
  {
  }

  // ------------------------------------------------------------ where a frame goes

  /** Index of the first gap at or after i that ends no earlier than x. */
  function StartGap(gaps: seq<Interval>, x: int, i: nat): (k: nat)
    requires i <= |gaps|
    ensures i <= k <= |gaps|
    ensures forall j :: i <= j < k ==> gaps[j].end < x
    ensures k < |gaps| ==> x <= gaps[k].end
    decreases |gaps| - i
  {
    if i == |gaps| || x <= gaps[i].end then i else StartGap(gaps, x, i + 1)
  }

  /** Index of the first gap at or after i that ends after x. */
  function EndGap(gaps: seq<Interval>, x: int, i: nat): (k: nat)
    requires i <= |gaps|
    ensures i <= k <= |gaps|
    ensures forall j :: i <= j < k ==> gaps[j].end <= x
    ensures k < |gaps| ==> x < gaps[k].end
    decreases |gaps| - i
  {
    if i == |gaps| || x < gaps[i].end then i else EndGap(gaps, x, i + 1)
  }

  /** The last entry boundary not beyond end on the chain of entries that starts at pos. */
  function Walk(queue: map<int, Entry>, pos: int, end: int): (r: int)
    requires forall p :: p in queue ==> 0 < |queue[p].data|
    ensures pos <= end ==> pos <= r <= end
    decreases end - pos
  {
    if pos in queue && End(queue, pos) <= end then Walk(queue, End(queue, pos), end) else pos
  }

  /** Either nothing of the frame is stored, or its bytes [first, last). */
  datatype Placement = Skip | Place(first: int, last: int, cut: bool)

  function Placed(s: Sorter, offset: nat, n: nat): Placement
    requires Inv(s)
    requires offset + n < MAX_BYTE_COUNT
  {
    var end := offset + n;
    if n == 0 || end <= s.gaps[0].start then Skip
    else
      var si := StartGap(s.gaps, offset, 0);
      PlacedAt(s, offset, end, si, EndGap(s.gaps, end, si))
  }

  /** The placement, given the gap in or before which the frame starts, and the first that ends after it. */
  function PlacedAt(s: Sorter, offset: int, end: int, si: nat, k: nat): Placement
    requires si < |s.gaps| && k < |s.gaps|
    requires forall p :: p in s.queue ==> 0 < |s.queue[p].data|
  {
    var g := s.gaps[si];
    if end <= g.start then Skip
    else if offset in s.queue && end <= End(s.queue, offset) then Skip
    else
      var first := if offset < g.start && offset !in s.queue then g.start else offset;
      var last := LastPlaced(s, offset, end, k);
      Place(first, last, first != offset || last != end || BehindGap(s, offset, end, k))
  }

  /** The frame starts right behind gap k - 1 and ends before gap k. */
  predicate BehindGap(s: Sorter, offset: int, end: int, k: nat)
    requires k < |s.gaps|
  {
    k > 0 && end < s.gaps[k].start && offset == s.gaps[k - 1].end
  }

  function LastPlaced(s: Sorter, offset: int, end: int, k: nat): int
    requires k < |s.gaps|
    requires forall p :: p in s.queue ==> 0 < |s.queue[p].data|
  {
    if s.gaps[k].start <= end || k == 0 then end
    else if BehindGap(s, offset, end, k) then Walk(s.queue, offset, end)
    else s.gaps[k - 1].end
  }

  datatype Pushed = Pushed(sorter: Sorter, outcome: Outcome)

  function Keep(queue: map<int, Entry>, a: int, b: int): map<int, Entry> {
    map p | p in queue && !(a <= p < b) :: queue[p]
  }

  /** A cut frame that became small is copied, which releases its buffer at once. */
  predicate Copied(p: Placement) {
    p.Place? && p.cut && p.last - p.first < MIN_STREAM_FRAME_BUFFER_SIZE
  }

  function Push(s: Sorter, data: seq<byte>, offset: nat, done: Option<nat>): Pushed
    requires Inv(s)
  {
    if |data| > 0 && offset + |data| >= MAX_BYTE_COUNT then Pushed(s, Panic)
    else if |data| == 0 then Pushed(s, Duplicate)
    else
      var p := Placed(s, offset, |data|);
      if p.Skip? then Pushed(s, Duplicate)
      else
        PlacedFacts(s, offset, |data|);
        var t := Store(s, p.first, p.last, StoredEntry(p, data, offset, done));
        if |t.gaps| > MAX_SORTER_GAPS then Pushed(t.(queue := Keep(s.queue, p.first, p.last)), TooManyGaps)
        else Pushed(t, Stored)
  }

  function StoredEntry(p: Placement, data: seq<byte>, offset: nat, done: Option<nat>): Entry
    requires p.Place? && offset <= p.first <= p.last <= offset + |data|
  {
    Entry(data[p.first - offset..p.last - offset], if Copied(p) then None else done)
  }

  /** Replace whatever is queued in [first, last) by one entry. */
  function Store(s: Sorter, first: int, last: int, entry: Entry): Sorter {
    Sorter(Keep(s.queue, first, last)[first := entry], s.readPos, Subtract(s.gaps, first, last))
  }

  /** A position where an entry or a gap byte begins: nothing straddles it. */
  ghost predicate CutPoint(s: Sorter, x: int) {
    x in s.queue || InGap(s.gaps, x)
  }

  lemma GapStartInGap(gaps: seq<Interval>, x: int)
    requires Sorted(gaps)
    ensures GapStart(gaps, x) ==> InGap(gaps, x)
  {
    if GapStart(gaps, x) {
      var g :| g in gaps && g.start == x;
      assert g.start <= x < g.end;
    }
  }

  /** Walking along entries never leaves the run of entries, so it stops at a cut point. */
  lemma {:induction false} WalkFacts(s: Sorter, pos: int, end: int)
    requires Inv(s)
    requires pos in s.queue && pos <= end < MAX_BYTE_COUNT
    requires forall x :: pos <= x <= end ==> !InGap(s.gaps, x)
    ensures Walk(s.queue, pos, end) in s.queue
    ensures End(s.queue, pos) <= end ==> pos < Walk(s.queue, pos, end)
    decreases end - pos
  {
    var e := End(s.queue, pos);
    if e <= end {
      GapStartInGap(s.gaps, e);
      WalkFacts(s, e, end);
    }
  }

  lemma PlacedFacts(s: Sorter, offset: nat, n: nat)
    requires Inv(s)
    requires offset + n < MAX_BYTE_COUNT
    ensures var p := Placed(s, offset, n);
      p.Place? ==>
        && s.readPos <= p.first
        && offset <= p.first < p.last <= offset + n
        && CutPoint(s, p.first)
        && CutPoint(s, p.last)
        && (forall x :: offset <= x < offset + n && InGap(s.gaps, x) ==> p.first <= x < p.last)
  {
    if Placed(s, offset, n).Place? {
      FirstFacts(s, offset, n);
      LastFacts(s, offset, n);
      GapBytesPlaced(s, offset, n);
    }
  }

  /** Every missing byte of the frame is inside the part that is stored. */
  lemma GapBytesPlaced(s: Sorter, offset: nat, n: nat)
    requires Inv(s)
    requires offset + n < MAX_BYTE_COUNT
    requires Placed(s, offset, n).Place?
    ensures var p := Placed(s, offset, n);
      forall x :: offset <= x < offset + n && InGap(s.gaps, x) ==> p.first <= x < p.last
  {
    hide InGap, LastPlaced, ClearOfGaps, Chained, Anchored;
    var p, end := Placed(s, offset, n), offset + n;
    var si := StartGap(s.gaps, offset, 0);
    var k := EndGap(s.gaps, end, si);
    forall x | offset <= x < end && InGap(s.gaps, x)
      ensures p.first <= x < p.last
    {
      GapBytePlaced(s, offset, end, si, k, x);
    }
  }

  lemma GapBytePlaced(s: Sorter, offset: int, end: int, si: nat, k: nat, x: int)
    requires Sorted(s.gaps)
    requires forall p :: p in s.queue ==> 0 < |s.queue[p].data|
    requires si <= k < |s.gaps|
    requires forall j :: 0 <= j < si ==> s.gaps[j].end < offset
    requires offset <= x < end < s.gaps[k].end
    requires InGap(s.gaps, x)
    ensures s.gaps[si].start <= x < LastPlaced(s, offset, end, k)
  {
    var h :| h in s.gaps && h.start <= x < h.end;
    var j :| 0 <= j < |s.gaps| && s.gaps[j] == h;
    assert si < j ==> s.gaps[si].end < s.gaps[j].start;
    if end < s.gaps[k].start && k > 0 {
      assert j < k - 1 ==> s.gaps[j].end < s.gaps[k - 1].start;
    }
  }

  lemma LastFacts(s: Sorter, offset: nat, n: nat)
    requires Inv(s)
    requires offset + n < MAX_BYTE_COUNT
    requires Placed(s, offset, n).Place?
    ensures var p := Placed(s, offset, n);
      p.first < p.last <= offset + n && CutPoint(s, p.last)
  {
    hide LastPlaced, CutPoint, ClearOfGaps, Chained, Anchored;
    var p, end := Placed(s, offset, n), offset + n;
    var si := StartGap(s.gaps, offset, 0);
    var k := EndGap(s.gaps, end, si);
    FirstFacts(s, offset, n);
    assert k == si ==> s.gaps[k].start <= end;
    LastPlacedFacts(s, offset, p.first, end, si, k);
  }

  lemma LastPlacedFacts(s: Sorter, offset: int, first: int, end: int, si: nat, k: nat)
    requires Inv(s)
    requires si <= k < |s.gaps|
    requires offset <= first < end < s.gaps[k].end
    requires first == offset || first == s.gaps[si].start
    requires offset <= s.gaps[si].end
    requires forall j :: si <= j < k ==> s.gaps[j].end <= end
    requires k == si ==> s.gaps[k].start <= end
    requires offset in s.queue ==> End(s.queue, offset) < end
    ensures var last := LastPlaced(s, offset, end, k);
      first < last <= end && CutPoint(s, last)
  {
    if s.gaps[k].start <= end {
      assert s.gaps[k] in s.gaps && s.gaps[k].start <= end < s.gaps[k].end;
    } else if BehindGap(s, offset, end, k) {
      WalkBehindGap(s, k, end);
    } else {
      assert s.gaps[k - 1] in s.gaps;
      assert si < k - 1 ==> s.gaps[si].end < s.gaps[k - 1].start;
    }
  }

  /** A frame that starts right behind a gap and ends before the next one. */
  lemma WalkBehindGap(s: Sorter, k: nat, end: int)
    requires Inv(s)
    requires 0 < k < |s.gaps|
    requires s.gaps[k - 1].end <= end < s.gaps[k].start
    ensures var pos := s.gaps[k - 1].end;
      && pos in s.queue
      && Walk(s.queue, pos, end) in s.queue
      && (End(s.queue, pos) <= end ==> pos < Walk(s.queue, pos, end))
  {
    var pos := s.gaps[k - 1].end;
    assert s.gaps[k - 1] in s.gaps && pos < s.gaps[k].start < s.gaps[k].end <= MAX_BYTE_COUNT;
    forall x | pos <= x <= end
      ensures !InGap(s.gaps, x)
    {
      NoGapBetween(s.gaps, k, x);
    }
    WalkFacts(s, pos, end);
  }

  lemma NoGapBetween(gaps: seq<Interval>, k: nat, x: int)
    requires Sorted(gaps)
    requires 0 < k < |gaps|
    requires gaps[k - 1].end <= x < gaps[k].start
    ensures !InGap(gaps, x)
  {
    forall g | g in gaps
      ensures !(g.start <= x < g.end)
    {
      var j :| 0 <= j < |gaps| && gaps[j] == g;
    }
  }

  lemma FirstFacts(s: Sorter, offset: nat, n: nat)
    requires Inv(s)
    requires offset + n < MAX_BYTE_COUNT
    requires Placed(s, offset, n).Place?
    ensures var p := Placed(s, offset, n);
      && s.readPos <= p.first
      && offset <= p.first < offset + n
      && CutPoint(s, p.first)
  {
    var p, end := Placed(s, offset, n), offset + n;
    var g := s.gaps[StartGap(s.gaps, offset, 0)];
    assert g in s.gaps;
    if p.first !in s.queue {
      assert g.start <= p.first < g.end;
    }
  }

  // ------------------------------------------------------------ storing keeps the invariant

  lemma NoEntryInGap(s: Sorter, p: int, g: Interval)
    requires Inv(s)
    requires p in s.queue && g in s.gaps
    ensures g.end <= p || p < End(s.queue, p) <= g.start
  {
    assert 0 < |s.queue[p].data|;
  }

  /** Nothing received before reaches across a cut point. */
  lemma CutPointSeparates(s: Sorter, x: int, p: int)
    requires Inv(s)
    requires CutPoint(s, x)
    requires p in s.queue && p < x
    ensures End(s.queue, p) <= x
  {
    if x !in s.queue {
      var g :| g in s.gaps && g.start <= x < g.end;
    }
  }

  /** A gap start survives the subtraction unless it is one of the removed bytes. */
  lemma GapStartSurvives(gaps: seq<Interval>, a: int, b: int, x: int)
    requires Sorted(gaps)
    requires a < b
    requires GapStart(gaps, x)
    requires x < a || b <= x
    ensures GapStart(Subtract(gaps, a, b), x)
  {
    var g :| g in gaps && g.start == x;
    var h := if x < a then Interval(x, Min(g.end, a)) else g;
    assert h in Without(g, a, b);
    SubtractMember(gaps, a, b, h);
  }

  /** A removed range that ends inside a gap leaves a gap starting there. */
  lemma GapStartCreated(gaps: seq<Interval>, a: int, b: int)
    requires a < b
    requires InGap(gaps, b)
    ensures GapStart(Subtract(gaps, a, b), b)
  {
    var g :| g in gaps && g.start <= b < g.end;
    var h := Interval(b, g.end);
    assert h in Without(g, a, b);
    SubtractMember(gaps, a, b, h);
  }

  /** Any two cut points delimit a range that one entry may replace. */
  ghost predicate Storable(s: Sorter, first: int, last: int, entry: Entry) {
    && Inv(s)
    && s.readPos <= first < last < MAX_BYTE_COUNT
    && CutPoint(s, first)
    && CutPoint(s, last)
    && |entry.data| == last - first
  }

  lemma StoreGapsOk(s: Sorter, first: int, last: int, entry: Entry)
    requires Storable(s, first, last, entry)
    ensures var t := Store(s, first, last, entry);
      GapsOk(t.gaps) && s.readPos <= t.gaps[0].start
  {
    SubtractSorted(s.gaps, first, last);
    var gaps := Subtract(s.gaps, first, last);
    assert gaps[0] in gaps;
  }

  /** Outside the replaced range an entry is the old one; at its start it is the new one. */
  lemma StoreEnd(s: Sorter, first: int, last: int, entry: Entry, p: int)
    requires Storable(s, first, last, entry)
    requires p in Store(s, first, last, entry).queue
    ensures var t := Store(s, first, last, entry);
      if p == first then End(t.queue, p) == last
      else
        && p in s.queue
        && t.queue[p] == s.queue[p]
        && End(t.queue, p) == End(s.queue, p)
        && (End(s.queue, p) <= first || last <= p)
  {
    if p < first { CutPointSeparates(s, first, p); }
  }

  lemma StoreEntriesOk(s: Sorter, first: int, last: int, entry: Entry)
    requires Storable(s, first, last, entry)
    ensures var t := Store(s, first, last, entry); EntriesOk(t.queue, t.readPos)
  {
    var t := Store(s, first, last, entry);
    forall p | p in t.queue
      ensures s.readPos <= p && 0 < |t.queue[p].data| && End(t.queue, p) < MAX_BYTE_COUNT
    {
      StoreEnd(s, first, last, entry, p);
    }
    forall p, q | p in t.queue && q in t.queue && p < q
      ensures End(t.queue, p) <= q
    {
      StoreEnd(s, first, last, entry, p);
      StoreEnd(s, first, last, entry, q);
    }
  }

  lemma StoreClearOfGaps(s: Sorter, first: int, last: int, entry: Entry)
    requires Storable(s, first, last, entry)
    ensures var t := Store(s, first, last, entry); ClearOfGaps(t.queue, t.gaps)
  {
    hide Storable, Store, Subtract, Keep;
    var t := Store(s, first, last, entry);
    forall p, h | p in t.queue && h in t.gaps
      ensures h.end <= p || End(t.queue, p) <= h.start
    {
      StoreClearOfGap(s, first, last, entry, p, h);
    }
  }

  lemma StoreClearOfGap(s: Sorter, first: int, last: int, entry: Entry, p: int, h: Interval)
    requires Storable(s, first, last, entry)
    requires p in Store(s, first, last, entry).queue && h in Store(s, first, last, entry).gaps
    ensures h.end <= p || End(Store(s, first, last, entry).queue, p) <= h.start
  {
    hide Subtract, GapsOk, Chained, Anchored, GapStart, InGap, Keep, EntriesOk;
    SubtractMember(s.gaps, first, last, h);
    var g :| g in s.gaps && h in Without(g, first, last);
    StoreEnd(s, first, last, entry, p);
  }

  lemma StoreChained(s: Sorter, first: int, last: int, entry: Entry)
    requires Storable(s, first, last, entry)
    ensures var t := Store(s, first, last, entry); Chained(t.queue, t.gaps)
  {
    var t := Store(s, first, last, entry);
    forall p | p in t.queue
      ensures End(t.queue, p) in t.queue || GapStart(t.gaps, End(t.queue, p))
    {
      if p == first {
        if last !in s.queue { GapStartCreated(s.gaps, first, last); }
      } else {
        var e := End(s.queue, p);
        if p < first { CutPointSeparates(s, first, p); }
        if e !in t.queue { GapStartSurvives(s.gaps, first, last, e); }
      }
    }
  }

  lemma StoreAnchored(s: Sorter, first: int, last: int, entry: Entry)
    requires Storable(s, first, last, entry)
    ensures var t := Store(s, first, last, entry); Anchored(t.queue, t.readPos, t.gaps)
  {
    var t := Store(s, first, last, entry);
    if s.readPos !in t.queue { GapStartSurvives(s.gaps, first, last, s.readPos); }
    forall h | h in t.gaps && h.end != MAX_BYTE_COUNT
      ensures h.end in t.queue
    {
      SubtractMember(s.gaps, first, last, h);
      var g :| g in s.gaps && h in Without(g, first, last);
    }
  }

  lemma StoreKeepsInv(s: Sorter, first: int, last: int, entry: Entry)
    requires Storable(s, first, last, entry)
    requires |Subtract(s.gaps, first, last)| <= MAX_SORTER_GAPS
    ensures Inv(Store(s, first, last, entry))
  {
    StoreGapsOk(s, first, last, entry);
    StoreEntriesOk(s, first, last, entry);
    StoreClearOfGaps(s, first, last, entry);
    StoreChained(s, first, last, entry);
    StoreAnchored(s, first, last, entry);
  }

  // ------------------------------------------------------------ theorems about one step

  /** The frame repeats received bytes only, starts right behind a gap and ends before the next one. */
  ghost predicate RepeatsBehindGap(s: Sorter, offset: int, end: int) {
    (exists g :: g in s.gaps && g.end == offset) && forall x :: offset <= x <= end ==> !InGap(s.gaps, x)
  }

  lemma BehindGapMeaning(s: Sorter, offset: int, end: int, si: nat, k: nat)
    requires Sorted(s.gaps) && offset < end
    requires si == StartGap(s.gaps, offset, 0) && k == EndGap(s.gaps, end, si) < |s.gaps|
    ensures BehindGap(s, offset, end, k) <==> RepeatsBehindGap(s, offset, end)
  {
    hide BehindGap, RepeatsBehindGap, Sorted, StartGap, EndGap;
    if BehindGap(s, offset, end, k) { BehindGapRepeats(s, offset, end, k); }
    if RepeatsBehindGap(s, offset, end) { RepeatsIsBehind(s, offset, end, si, k); }
  }

  lemma BehindGapRepeats(s: Sorter, offset: int, end: int, k: nat)
    requires Sorted(s.gaps) && offset < end && k < |s.gaps| && BehindGap(s, offset, end, k)
    ensures RepeatsBehindGap(s, offset, end)
  {
    assert s.gaps[k - 1] in s.gaps;
    forall x | offset <= x <= end ensures !InGap(s.gaps, x) {
      assert forall j :: 0 <= j < k ==> s.gaps[j].end <= offset;
      assert forall j :: k <= j < |s.gaps| ==> s.gaps[j].start > end;
    }
  }

  lemma RepeatsIsBehind(s: Sorter, offset: int, end: int, si: nat, k: nat)
    requires Sorted(s.gaps) && offset < end && RepeatsBehindGap(s, offset, end)
    requires si == StartGap(s.gaps, offset, 0) && k == EndGap(s.gaps, end, si) < |s.gaps|
    ensures BehindGap(s, offset, end, k)
  {
    var j :| 0 <= j < |s.gaps| && s.gaps[j].end == offset;
    assert j == si;
    assert j < k && InGap(s.gaps, s.gaps[k].start) && InGap(s.gaps, s.gaps[j + 1].start);
  }

  /** A frame counts as cut if it was shortened, or repeats received bytes right behind a gap. */
  lemma {:induction false} CutMeaning(s: Sorter, offset: nat, n: nat)
    requires Inv(s) && 0 < n && offset + n < MAX_BYTE_COUNT
    ensures var p := Placed(s, offset, n);
      p.Place? ==> (p.cut <==> p.first != offset || p.last != offset + n || RepeatsBehindGap(s, offset, offset + n))
  {
    hide RepeatsBehindGap, BehindGap, StartGap, EndGap, LastPlaced, ClearOfGaps, Chained, Anchored;
    if offset + n > s.gaps[0].start {
      var si := StartGap(s.gaps, offset, 0);
      BehindGapMeaning(s, offset, offset + n, si, EndGap(s.gaps, offset + n, si));
    }
  }

  /**
   Which frames keep their buffer: one is copied, and its buffer released, exactly when less than 128 bytes of
   it are stored and it was shortened, or it repeats received bytes only right behind a gap.
   */
  lemma {:induction false} CopyRule(s: Sorter, data: seq<byte>, offset: nat, done: Option<nat>)
    requires Inv(s) && Push(s, data, offset, done).outcome == Stored
    ensures var p, t := Placed(s, offset, |data|), Push(s, data, offset, done).sorter;
      && p.Place? && p.first in t.queue
      && var stored := |t.queue[p.first].data|;
      t.queue[p.first].done ==
        if stored < MIN_STREAM_FRAME_BUFFER_SIZE
          && (stored < |data| || RepeatsBehindGap(s, offset, offset + |data|))
        then None
        else done
  {
    hide RepeatsBehindGap, Placed, Inv, Subtract, CutPoint, Push, Store, Keep, StoredEntry;
    PushCases(s, data, offset, done);
    CutMeaning(s, offset, |data|);
    var p := Placed(s, offset, |data|);
    StoredIsThere(s, p.first, p.last, StoredEntry(p, data, offset, done));
    EntryOf(p, data, offset, done);
  }

  lemma EntryOf(p: Placement, data: seq<byte>, offset: nat, done: Option<nat>)
    requires p.Place? && offset <= p.first <= p.last <= offset + |data|
    ensures var e := StoredEntry(p, data, offset, done);
      |e.data| == p.last - p.first && e.done == if p.cut && |e.data| < MIN_STREAM_FRAME_BUFFER_SIZE then None else done
  {
  }

  lemma StoredIsThere(s: Sorter, first: int, last: int, entry: Entry)
    ensures var q := Store(s, first, last, entry).queue; first in q && q[first] == entry
  {
  }

  /** The two ways in which a push can succeed. */
  lemma PushCases(s: Sorter, data: seq<byte>, offset: nat, done: Option<nat>)
    requires Inv(s)
    ensures var r := Push(s, data, offset, done);
      && r.sorter.readPos == s.readPos
      && r.sorter.gaps != []
      && (r.outcome in {Duplicate, Panic} ==> r.sorter == s)
      && (r.outcome in {Stored, TooManyGaps} ==>
            && |data| > 0
            && offset + |data| < MAX_BYTE_COUNT
            && var p := Placed(s, offset, |data|);
            && p.Place?
            && s.readPos <= p.first
            && offset <= p.first < p.last <= offset + |data|
            && CutPoint(s, p.first)
            && CutPoint(s, p.last)
            && var t := Store(s, p.first, p.last, StoredEntry(p, data, offset, done));
            && r.sorter.gaps == t.gaps
            && (r.outcome == Stored <==> |t.gaps| <= MAX_SORTER_GAPS)
            && (r.outcome == Stored ==> r.sorter == t)
            && (r.outcome == TooManyGaps ==> r.sorter == t.(queue := Keep(s.queue, p.first, p.last))))
  {
    hide Placed;
    if |data| > 0 && offset + |data| < MAX_BYTE_COUNT {
      PlacedFacts(s, offset, |data|);
      var p := Placed(s, offset, |data|);
      if p.Place? {
        StoreGapsOk(s, p.first, p.last, StoredEntry(p, data, offset, done));
      }
    }
  }

  /** Pushing any frame at all keeps the invariant, unless an error is reported. */
  lemma PushKeepsInv(s: Sorter, data: seq<byte>, offset: nat, done: Option<nat>)
    requires Inv(s)
    ensures var r := Push(s, data, offset, done);
      r.outcome in {Stored, Duplicate} ==> Inv(r.sorter)
  {
    hide Push, Placed;
    PushCases(s, data, offset, done);
    if Push(s, data, offset, done).outcome == Stored {
      var p := Placed(s, offset, |data|);
      StoreKeepsInv(s, p.first, p.last, StoredEntry(p, data, offset, done));
    }
  }

  /** The byte stays missing exactly if it was missing and the frame does not carry it. */
  lemma PushFillsGaps(s: Sorter, data: seq<byte>, offset: nat, done: Option<nat>, x: int)
    requires Inv(s)
    requires Push(s, data, offset, done).outcome != Panic
    ensures InGap(Push(s, data, offset, done).sorter.gaps, x) <==>
            InGap(s.gaps, x) && !(offset <= x < offset + |data|)
  {
    var end := offset + |data|;
    if |data| > 0 {
      var p := Placed(s, offset, |data|);
      if p.Skip? {
        if offset <= x < end { SkippedIsKnown(s, offset, |data|, x); }
      } else {
        PlacedFacts(s, offset, |data|);
        SubtractInGap(s.gaps, p.first, p.last, x);
      }
    }
  }

  /** A frame is dropped as a duplicate only if none of its bytes is missing. */
  lemma SkippedIsKnown(s: Sorter, offset: nat, n: nat, x: int)
    requires Inv(s)
    requires offset + n < MAX_BYTE_COUNT
    requires Placed(s, offset, n).Skip?
    requires offset <= x < offset + n
    ensures !InGap(s.gaps, x)
  {
    var si := StartGap(s.gaps, offset, 0);
    forall j | 0 <= j < |s.gaps|
      ensures !(s.gaps[j].start <= x < s.gaps[j].end)
    {
      assert s.gaps[j] in s.gaps;
      assert si < j ==> s.gaps[si].end < s.gaps[j].start;
      assert 0 < j ==> s.gaps[0].end < s.gaps[j].start;
    }
  }

  lemma TailAfter(gaps: seq<Interval>, b: int)
    requires Sorted(gaps) && gaps != [] && b < gaps[0].end
    ensures forall h :: h in gaps[1..] ==> h.start < h.end && b <= h.start
  {
  }

  lemma BeforeTail(gaps: seq<Interval>, a: int)
    requires Sorted(gaps) && gaps != [] && exists h :: h in gaps[1..] && h.start < a
    ensures gaps[0].start < gaps[0].end < a
  {
  }

  lemma {:induction false} SubtractLength(gaps: seq<Interval>, a: int, b: int)
    requires Sorted(gaps) && a < b
    ensures |Subtract(gaps, a, b)| <= |gaps| + 1
    ensures |Subtract(gaps, a, b)| == |gaps| + 1 <==> SplitsAGap(gaps, a, b)
  {
    hide Sorted;
    if gaps != [] {
      var g, rest := gaps[0], gaps[1..];
      assert gaps == [g] + rest;
      SortedTail(gaps);
      SubtractLength(rest, a, b);
      if g.start < a && b < g.end {
        TailAfter(gaps, b);
        SubtractElsewhere(rest, a, b);
      } else {
        assert |Without(g, a, b)| <= 1;
        assert SplitsAGap(gaps, a, b) <==> SplitsAGap(rest, a, b);
        if SplitsAGap(rest, a, b) { BeforeTail(gaps, a); }
      }
    }
  }

  /** The gap limit is hit exactly by a frame strictly inside a gap of a full list. */
  lemma PushHitsGapLimit(s: Sorter, data: seq<byte>, offset: nat, done: Option<nat>)
    requires Inv(s)
    requires Push(s, data, offset, done).outcome != Panic
    ensures Push(s, data, offset, done).outcome == TooManyGaps <==>
            && |s.gaps| == MAX_SORTER_GAPS
            && |data| > 0
            && SplitsAGap(s.gaps, offset, offset + |data|)
  {
    hide Placed, Subtract, Sorted, EntriesOk, Chained, ClearOfGaps, Anchored, SplitsAGap;
    if |data| > 0 {
      PlacedFacts(s, offset, |data|);
      PlacedSplits(s, offset, |data|);
      var p := Placed(s, offset, |data|);
      if p.Place? { SubtractLength(s.gaps, p.first, p.last); }
    }
  }

  /** [a, b) lies strictly inside a gap. */
  ghost predicate SplitsAGap(gaps: seq<Interval>, a: int, b: int) {
    exists g :: g in gaps && g.start < a && b < g.end
  }

  /** What is stored of a frame splits a gap exactly if the frame does. */
  lemma PlacedSplits(s: Sorter, offset: nat, n: nat)
    requires Inv(s) && n > 0 && offset + n < MAX_BYTE_COUNT
    ensures var p := Placed(s, offset, n);
      SplitsAGap(s.gaps, offset, offset + n) <==> p.Place? && SplitsAGap(s.gaps, p.first, p.last)
  {
    hide Placed, Inv;
    var p := Placed(s, offset, n);
    if SplitsAGap(s.gaps, offset, offset + n) {
      var g :| g in s.gaps && g.start < offset && offset + n < g.end;
      assert InGap(s.gaps, offset);
      if p.Skip? { SkippedIsKnown(s, offset, n, offset); } else { StrictlyInside(s, offset, n, g); }
    }
    if p.Place? && SplitsAGap(s.gaps, p.first, p.last) {
      var g :| g in s.gaps && g.start < p.first && p.last < g.end;
      UncutInside(s, offset, n, g);
    }
  }

  lemma StrictlyInside(s: Sorter, offset: nat, n: nat, g: Interval)
    requires Inv(s)
    requires g in s.gaps && g.start < offset && offset + n < g.end
    requires Placed(s, offset, n).Place?
    ensures Placed(s, offset, n).first == offset && Placed(s, offset, n).last == offset + n
  {
  }

  /** A stored part that lies strictly inside a gap is the whole frame. */
  lemma UncutInside(s: Sorter, offset: nat, n: nat, g: Interval)
    requires Inv(s)
    requires offset + n < MAX_BYTE_COUNT
    requires Placed(s, offset, n).Place?
    requires var p := Placed(s, offset, n); g in s.gaps && g.start < p.first && p.last < g.end
    ensures g.start < offset && offset + n < g.end
  {
    var p := Placed(s, offset, n);
    PlacedFacts(s, offset, n);
    if offset <= g.start {
      assert InGap(s.gaps, g.start);
    }
    if g.end <= offset + n {
      assert g.start <= p.last < g.end && InGap(s.gaps, p.last);
    }
  }
}
