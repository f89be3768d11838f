/**
 internal/media.go, the sample rewrite of initHEVCData: parameter sets are taken out of a
 sample whose NAL units carry four-byte lengths. The kept units are written back into the very
 buffer that is being read.
 */
module Nalus {
  import opened Protocol

  const NALU_VPS: int := 32
  const NALU_SPS: int := 33
  const NALU_PPS: int := 34

  /** InvalidLength is the error the source returns; EmptyNalu its out-of-range access to the first byte. */
  datatype Outcome = Rewritten | InvalidLength | EmptyNalu

  function U32(data: seq<byte>): (r: nat)
    requires |data| >= 4
    ensures r < 0x1_0000_0000
  {
    data[0] as int * 0x100_0000 + data[1] as int * 0x1_0000 + data[2] as int * 0x100 + data[3] as int
  }

  function Put32(n: nat): (r: seq<byte>)
    requires n < 0x1_0000_0000
    ensures |r| == 4 && U32(r) == n
  {
    Digits(n);
    [(n / 0x100_0000) as byte, (n / 0x1_0000 % 0x100) as byte, (n / 0x100 % 0x100) as byte, (n % 0x100) as byte]
  }

  lemma Digits(n: nat)
    requires n < 0x1_0000_0000
    ensures n / 0x100_0000 < 0x100
    ensures n == n / 0x100_0000 * 0x100_0000 + n / 0x1_0000 % 0x100 * 0x1_0000 + n / 0x100 % 0x100 * 0x100 + n % 0x100
  {
    var m := n / 0x100;
    var k := m / 0x100;
    assert n == m * 0x100 + n % 0x100;
    assert m == k * 0x100 + m % 0x100;
    assert k == k / 0x100 * 0x100 + k % 0x100;
    assert k == n / 0x1_0000;
    assert k / 0x100 == n / 0x100_0000;
  }

  /** Four bytes are determined by the number they spell. */
  lemma Put32OfU32(data: seq<byte>)
    requires |data| >= 4
    ensures Put32(U32(data)) == data[..4]
  {
    var a, b, c, d := data[0] as int, data[1] as int, data[2] as int, data[3] as int;
    var n := U32(data);
    assert n / 0x100_0000 == a;
    assert n / 0x1_0000 == a * 0x100 + b;
    assert n / 0x100 == (a * 0x100 + b) * 0x100 + c;
  }

  function NaluType(first: byte): int { first as int / 2 % 64 }

  predicate Kept(nalu: seq<byte>)
    requires nalu != []
  {
    NaluType(nalu[0]) !in {NALU_VPS, NALU_SPS, NALU_PPS}
  }

  /** The NAL units that are dropped are those whose first byte spells type 32, 33 or 34. */
  lemma KeptMeaning(nalu: seq<byte>)
    requires nalu != []
    ensures Kept(nalu) <==> !(64 <= nalu[0] as int % 128 < 70)
  {
    var first := nalu[0] as int;
    assert first % 128 / 2 == first / 2 % 64;
  }

  datatype Result = Result(outcome: Outcome, data: seq<byte>)

  /** A NAL unit with its length in front. */
  function Framed(nalu: seq<byte>): (r: seq<byte>)
    requires |nalu| < 0x1_0000_0000
    ensures |r| == 4 + |nalu|
  {
    Put32(|nalu|) + nalu
  }

  /** What should be left of a sample. Fewer than four trailing bytes are dropped. */
  function Filter(data: seq<byte>): (r: Result)
    ensures |r.data| <= |data|
  {
    if |data| < 4 then Result(Rewritten, [])
    else
      var n := U32(data);
      if n > |data| - 4 then Result(InvalidLength, [])
      else if n == 0 then Result(EmptyNalu, [])
      else
        var nalu := data[4..4 + n];
        var rest := Filter(data[4 + n..]);
        Result(rest.outcome, (if Kept(nalu) then Framed(nalu) else []) + rest.data)
  }

  // ------------------------------------------------------------ what it means

  predicate Proper(nalus: seq<seq<byte>>) {
    forall i :: 0 <= i < |nalus| ==> 0 < |nalus[i]| < 0x1_0000_0000
  }

  function Join(nalus: seq<seq<byte>>): seq<byte>
    requires Proper(nalus)
  {
    if nalus == [] then [] else Framed(nalus[0]) + Join(nalus[1..])
  }

  function KeptOnly(nalus: seq<seq<byte>>): (r: seq<seq<byte>>)
    requires Proper(nalus)
    ensures Proper(r)
  {
    if nalus == [] then []
    else (if Kept(nalus[0]) then [nalus[0]] else []) + KeptOnly(nalus[1..])
  }

  lemma FilterFramed(nalu: seq<byte>, rest: seq<byte>)
    requires 0 < |nalu| < 0x1_0000_0000
    ensures Filter(Framed(nalu) + rest) ==
      Result(Filter(rest).outcome, (if Kept(nalu) then Framed(nalu) else []) + Filter(rest).data)
  {
    var data := Framed(nalu) + rest;
    assert U32(data) == |nalu| by { assert forall i :: 0 <= i < 4 ==> data[i] == Put32(|nalu|)[i]; }
    assert data[4..4 + |nalu|] == nalu && data[4 + |nalu|..] == rest;
  }

  /** On the concatenation of any NAL units, exactly the kept ones remain, in order and unchanged. */
  lemma {:induction false} FilterOfJoin(nalus: seq<seq<byte>>, tail: seq<byte>)
    requires Proper(nalus) && |tail| < 4
    ensures Filter(Join(nalus) + tail) == Result(Rewritten, Join(KeptOnly(nalus)))
  {
    hide Filter, Kept, Framed;
    if nalus == [] {
      assert Join(nalus) + tail == tail;
      ShortFilter(tail);
    } else {
      assert Join(nalus) + tail == Framed(nalus[0]) + (Join(nalus[1..]) + tail);
      FilterFramed(nalus[0], Join(nalus[1..]) + tail);
      FilterOfJoin(nalus[1..], tail);
      var kept := KeptOnly(nalus[1..]);
      if Kept(nalus[0]) {
        assert ([nalus[0]] + kept)[1..] == kept;
      } else {
        assert [] + kept == kept;
      }
    }
  }

  lemma ShortFilter(tail: seq<byte>)
    requires |tail| < 4
    ensures Filter(tail) == Result(Rewritten, [])
  {
  }

  lemma {:induction false} KeptAgain(nalus: seq<seq<byte>>)
    requires Proper(nalus)
    ensures KeptOnly(KeptOnly(nalus)) == KeptOnly(nalus)
  {
    if nalus != [] {
      KeptAgain(nalus[1..]);
      var rest := KeptOnly(nalus[1..]);
      if Kept(nalus[0]) { assert ([nalus[0]] + rest)[1..] == rest; } else { assert [] + rest == rest; }
    }
  }

  /** Rewriting a rewritten sample changes nothing. */
  lemma RewriteTwice(nalus: seq<seq<byte>>, tail: seq<byte>)
    requires Proper(nalus) && |tail| < 4
    ensures Filter(Filter(Join(nalus) + tail).data) == Filter(Join(nalus) + tail)
  {
    hide Filter, KeptOnly, Join;
    FilterOfJoin(nalus, tail);
    KeptAgain(nalus);
    var kept := KeptOnly(nalus);
    FilterOfJoin(kept, []);
    assert Join(kept) + [] == Join(kept);
  }

  // ------------------------------------------------------------ which outcome

  ghost predicate SplitsTo(data: seq<byte>, nalus: seq<seq<byte>>, tail: seq<byte>) {
    Proper(nalus) && data == Join(nalus) + tail
  }

  /** After some non-empty NAL units fewer than four bytes are left: nothing is wrong. */
  ghost predicate IsSample(data: seq<byte>) {
    exists nalus, tail :: SplitsTo(data, nalus, tail) && |tail| < 4
  }

  /** After some non-empty NAL units there is one of length zero. */
  ghost predicate HasEmptyNalu(data: seq<byte>) {
    exists nalus, tail :: SplitsTo(data, nalus, tail) && Put32(0) <= tail
  }

  /** After some non-empty NAL units there is a length that goes beyond the end. */
  ghost predicate IsCutShort(data: seq<byte>) {
    exists nalus, tail :: SplitsTo(data, nalus, tail) && |tail| >= 4 && U32(tail) > |tail| - 4
  }

  /** NAL units in front do not matter to the outcome. */
  lemma {:induction false} OutcomeOfJoin(nalus: seq<seq<byte>>, tail: seq<byte>)
    requires Proper(nalus)
    ensures Filter(Join(nalus) + tail).outcome == Filter(tail).outcome
  {
    hide Filter, Kept, Framed;
    if nalus == [] {
      assert Join(nalus) + tail == tail;
    } else {
      assert Join(nalus) + tail == Framed(nalus[0]) + (Join(nalus[1..]) + tail);
      FilterFramed(nalus[0], Join(nalus[1..]) + tail);
      OutcomeOfJoin(nalus[1..], tail);
    }
  }

  /** Every sequence of bytes is a number of non-empty NAL units and a tail at which the loop stops. */
  lemma {:induction false} SplitIntoNalus(data: seq<byte>) returns (nalus: seq<seq<byte>>, tail: seq<byte>)
    ensures SplitsTo(data, nalus, tail)
    ensures |tail| < 4 || Put32(0) <= tail || U32(tail) > |tail| - 4
    decreases |data|
  {
    hide Framed, U32;
    if |data| < 4 || U32(data) == 0 || U32(data) > |data| - 4 {
      nalus, tail := [], data;
      assert [] + data == data;
      if |data| >= 4 { Put32OfU32(data); }
    } else {
      var nalu, next := FirstNalu(data);
      var rest;
      rest, tail := SplitIntoNalus(next);
      nalus := [nalu] + rest;
      assert nalus[1..] == rest;
      assert data == Framed(nalu) + Join(rest) + tail;
    }
  }

  lemma FirstNalu(data: seq<byte>) returns (nalu: seq<byte>, next: seq<byte>)
    requires |data| >= 4 && 0 < U32(data) <= |data| - 4
    ensures 0 < |nalu| < 0x1_0000_0000 && data == Framed(nalu) + next
  {
    var n := U32(data);
    nalu, next := data[4..4 + n], data[4 + n..];
    Put32OfU32(data);
    assert data == data[..4] + nalu + next;
  }

  /** The three outcomes, each with the samples that have it. An empty NAL unit is an access out of range. */
  lemma OutcomeIff(data: seq<byte>)
    ensures Filter(data).outcome == Rewritten <==> IsSample(data)
    ensures Filter(data).outcome == EmptyNalu <==> HasEmptyNalu(data)
    ensures Filter(data).outcome == InvalidLength <==> IsCutShort(data)
  {
    hide Filter, U32, Put32, Join;
    forall nalus, tail | SplitsTo(data, nalus, tail)
      ensures Filter(data).outcome == Filter(tail).outcome
    {
      OutcomeOfJoin(nalus, tail);
    }
    forall tail: seq<byte>
      ensures |tail| < 4 ==> Filter(tail).outcome == Rewritten
      ensures Put32(0) <= tail ==> Filter(tail).outcome == EmptyNalu
      ensures |tail| >= 4 && U32(tail) > |tail| - 4 ==> Filter(tail).outcome == InvalidLength
    {
      TailOutcome(tail);
    }
    var nalus, tail := SplitIntoNalus(data);
  }

  lemma TailOutcome(tail: seq<byte>)
    ensures |tail| < 4 ==> Filter(tail).outcome == Rewritten
    ensures Put32(0) <= tail ==> Filter(tail).outcome == EmptyNalu
    ensures |tail| >= 4 && U32(tail) > |tail| - 4 ==> Filter(tail).outcome == InvalidLength
  {
    if Put32(0) <= tail { assert forall i :: 0 <= i < 4 ==> tail[i] == Put32(0)[i]; }
  }

  /** Four zero bytes are the shortest such sample. */
  lemma FourZeroBytes()
    ensures Filter([0, 0, 0, 0]).outcome == EmptyNalu && HasEmptyNalu([0, 0, 0, 0])
  {
    OutcomeIff([0, 0, 0, 0]);
  }

  // ------------------------------------------------------------ in place

  /** Moves n bytes down to dst, as append does within one buffer. */
  method MoveDown(buf: array<byte>, src: nat, dst: nat, n: nat)
    requires dst <= src && src + n <= buf.Length
    modifies buf
    ensures buf[dst..dst + n] == old(buf[src..src + n])
    ensures forall i :: 0 <= i < buf.Length && !(dst <= i < dst + n) ==> buf[i] == old(buf[i])
  {
    ghost var moved := buf[src..src + n];
    for k := 0 to n
      invariant forall i :: 0 <= i < k ==> buf[dst + i] == moved[i]
      invariant forall i :: 0 <= i < buf.Length && !(dst <= i < dst + k) ==> buf[i] == old(buf[i])
    {
      assert moved[k] == old(buf[src + k]);
      buf[dst + k] := buf[src + k];
    }
  }

  /** Writes four bytes at w. */
  method WriteLength(buf: array<byte>, w: nat, n: nat)
    requires w + 4 <= buf.Length && n < 0x1_0000_0000
    modifies buf
    ensures buf[w..w + 4] == Put32(n)
    ensures forall i :: 0 <= i < buf.Length && !(w <= i < w + 4) ==> buf[i] == old(buf[i])
  {
    var work := Put32(n);
    for k := 0 to 4
      invariant forall i :: 0 <= i < k ==> buf[w + i] == work[i]
      invariant forall i :: 0 <= i < buf.Length && !(w <= i < w + k) ==> buf[i] == old(buf[i])
    {
      buf[w + k] := work[k];
    }
  }

  /** Appends the NAL unit at src, with its length, to what has been written up to w. */
  method AppendNalu(buf: array<byte>, w: nat, src: nat, n: nat)
    requires w + 4 <= src && src + n <= buf.Length && n < 0x1_0000_0000
    modifies buf
    ensures buf[..w + 4 + n] == old(buf[..w]) + Framed(old(buf[src..src + n]))
    ensures buf[src + n..] == old(buf[src + n..])
  {
    hide Put32;
    ghost var before, nalu, rest := buf[..w], buf[src..src + n], buf[src + n..];
    WriteLength(buf, w, n);
    assert buf[src..src + n] == nalu;
    assert buf[src + n..] == rest;
    assert buf[..w] == before;
    MoveDown(buf, src, w + 4, n);
    assert buf[src + n..] == rest;
    assert buf[..w] == before;
    assert buf[w..w + 4] == Put32(n);
    assert buf[..w + 4 + n] == buf[..w] + (buf[w..w + 4] + buf[w + 4..w + 4 + n]);
  }

  lemma FilterStep(data: seq<byte>, n: nat)
    requires |data| >= 4 && U32(data) == n && 0 < n <= |data| - 4
    ensures var nalu := data[4..4 + n]; var rest := Filter(data[4 + n..]);
      Filter(data) == Result(rest.outcome, (if Kept(nalu) then Framed(nalu) else []) + rest.data)
  {
  }

  /** The rewrite: read position ahead of write position, unread bytes never overwritten. */
  method RewriteSample(buf: array<byte>) returns (outcome: Outcome, w: nat)
    modifies buf
    ensures outcome == Rewritten <==> IsSample(old(buf[..]))
    ensures outcome == EmptyNalu <==> HasEmptyNalu(old(buf[..]))
    ensures outcome == InvalidLength <==> IsCutShort(old(buf[..]))
    ensures outcome == Rewritten ==> w <= buf.Length && buf[..w] == Filter(old(buf[..])).data
    ensures outcome == Rewritten ==>
      forall nalus, tail :: SplitsTo(old(buf[..]), nalus, tail) && |tail| < 4 ==> buf[..w] == Join(KeptOnly(nalus))
  {
    hide Filter, Framed, Kept, U32, IsSample, HasEmptyNalu, IsCutShort;
    ghost var all := buf[..];
    OutcomeIff(all);
    var r := 0;
    w := 0;
    assert all[0..] == all;
    while buf.Length - r >= 4
      invariant 0 <= w <= r <= buf.Length
      invariant buf[r..] == all[r..]
      invariant Filter(all).outcome == Filter(all[r..]).outcome
      invariant Filter(all).data == buf[..w] + Filter(all[r..]).data
      decreases buf.Length - r
    {
      var n := U32(buf[r..]);
      if n > buf.Length - r - 4 {
        FilterError(all[r..]);
        return InvalidLength, w;
      }
      if n == 0 {
        FilterError(all[r..]);
        return EmptyNalu, w;
      }
      r, w := Consume(buf, r, w, n, all);
    }
    ShortFilter(all[r..]);
    assert buf[..w] + [] == buf[..w];
    KeptRemain(all);
    return Rewritten, w;
  }

  lemma KeptRemain(data: seq<byte>)
    ensures forall nalus, tail :: SplitsTo(data, nalus, tail) && |tail| < 4 ==>
      Filter(data).data == Join(KeptOnly(nalus))
  {
    forall nalus, tail | SplitsTo(data, nalus, tail) && |tail| < 4
      ensures Filter(data).data == Join(KeptOnly(nalus))
    {
      FilterOfJoin(nalus, tail);
    }
  }

  lemma FilterError(data: seq<byte>)
    requires |data| >= 4
    ensures U32(data) > |data| - 4 ==> Filter(data).outcome == InvalidLength
    ensures U32(data) == 0 ==> Filter(data).outcome == EmptyNalu
  {
  }

  lemma SuffixSlices<T>(s: seq<T>, r: nat, a: nat, b: nat)
    requires a <= b && r + b <= |s|
    ensures s[r..][a..b] == s[r + a..r + b] && s[r..][b..] == s[r + b..]
  {
  }

  /** One NAL unit is read, and written back if it is kept. */
  method Consume(buf: array<byte>, r: nat, w: nat, n: nat, ghost all: seq<byte>) returns (r': nat, w': nat)
    requires |all| == buf.Length && w <= r && r + 4 + n <= buf.Length && n > 0
    requires buf[r..] == all[r..] && U32(buf[r..]) == n
    requires Filter(all).outcome == Filter(all[r..]).outcome && Filter(all).data == buf[..w] + Filter(all[r..]).data
    modifies buf
    ensures r' == r + 4 + n && w <= w' <= r'
    ensures buf[r'..] == all[r'..]
    ensures Filter(all).outcome == Filter(all[r'..]).outcome && Filter(all).data == buf[..w'] + Filter(all[r'..]).data
  {
    hide Filter, Framed, U32;
    r', w' := r + 4 + n, w;
    ghost var nalu := all[r..][4..4 + n];
    SuffixSlices(all, r, 4, 4 + n);
    SuffixSlices(buf[..], r, 4, 4 + n);
    assert buf[r'..] == buf[..][r'..] && buf[r..] == buf[..][r..] && buf[r + 4..r'] == buf[..][r + 4..r'];
    FilterStep(all[r..], n);
    if NaluType(buf[r + 4]) !in {NALU_VPS, NALU_SPS, NALU_PPS} {
      ghost var before := buf[..w];
      AppendNalu(buf, w, r + 4, n);
      w' := w + 4 + n;
      assert before + (Framed(nalu) + Filter(all[r'..]).data) == (before + Framed(nalu)) + Filter(all[r'..]).data;
    }
  }
}
