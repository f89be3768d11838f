/**
 deps/quic-go/crypto_stream.go: the Initial crypto stream as an object. With scrambling off it
 is the ordinary crypto stream. Sending follows CryptoSpec, receiving follows SorterSpec.
 */
module CryptoStreamObject {
  import opened Protocol
  import opened Wire
  import opened Sni
  import opened CryptoSpec
  import opened FrameSorterObject
  import Spec = SorterSpec
  import Runs = SorterRuns

  const MAX_CRYPTO_STREAM_OFFSET: int := 16 * 1024

  datatype CryptoError = CryptoBufferExceeded | ProtocolViolation | TooManyGaps

  class InitialCryptoStream {
    const queue: FrameSorter
    var highestOffset: nat
    var finished: bool

    var writeOffset: nat
    var writeBuf: seq<byte>
    var scramble: bool
    var end: int
    const cuts: array<Cut>

    ghost function Model(): State
      requires cuts.Length == 2
      reads this, cuts
    {
      State(writeOffset, writeBuf, scramble, end, cuts[0], cuts[1])
    }

    ghost predicate Valid()
      reads this, cuts
    {
      cuts.Length == 2 && Sane(Model())
    }

    constructor (scramble: bool)
      ensures Valid() && Model() == Fresh(scramble)
      ensures fresh(queue) && queue.State() == Spec.Empty && Spec.Inv(queue.State())
      ensures fresh(cuts) && !finished && highestOffset == 0
    {
      queue := new FrameSorter();
      highestOffset, finished := 0, false;
      writeOffset, writeBuf := 0, [];
      this.scramble, end := scramble, 0;
      cuts := new Cut[2](_ => NO_CUT);
    }

    // ---------------------------------------------------------- receiving

    /** Frames beyond 16 KiB are refused, and so is new data once the stream is finished. */
    method HandleCryptoFrame(f: CryptoFrame) returns (err: Option<CryptoError>)
      requires Spec.Inv(queue.State())
      modifies this`highestOffset, queue
      ensures err == None ==> Spec.Inv(queue.State())
      ensures var frameEnd := f.offset + |f.data|;
        && (frameEnd > MAX_CRYPTO_STREAM_OFFSET <==> err == Some(CryptoBufferExceeded))
        && (frameEnd <= MAX_CRYPTO_STREAM_OFFSET && finished && frameEnd > old(highestOffset) <==>
             err == Some(ProtocolViolation))
        && (frameEnd <= MAX_CRYPTO_STREAM_OFFSET && finished && frameEnd <= old(highestOffset) ==> err == None)
        && (frameEnd > MAX_CRYPTO_STREAM_OFFSET || finished ==>
              queue.State() == old(queue.State()) && highestOffset == old(highestOffset))
        && (frameEnd <= MAX_CRYPTO_STREAM_OFFSET && !finished ==>
              && queue.State() == Spec.Push(old(queue.State()), f.data, f.offset, None).sorter
              && highestOffset == Max(old(highestOffset), frameEnd)
              && (err == None <==> Spec.Push(old(queue.State()), f.data, f.offset, None).outcome != Spec.TooManyGaps))
    {
      hide Spec.Inv, Spec.Push;
      var frameEnd := f.offset + |f.data|;
      if frameEnd > MAX_CRYPTO_STREAM_OFFSET { return Some(CryptoBufferExceeded); }
      if finished {
        return if frameEnd > highestOffset then Some(ProtocolViolation) else None;
      }
      highestOffset := Max(highestOffset, frameEnd);
      SmallFramesDoNotPanic(queue.State(), f);
      var outcome := queue.Push(f.data, f.offset, None);
      return if outcome == Spec.TooManyGaps then Some(TooManyGaps) else None;
    }

    static lemma SmallFramesDoNotPanic(s: Spec.Sorter, f: CryptoFrame)
      requires Spec.Inv(s) && f.offset + |f.data| <= MAX_CRYPTO_STREAM_OFFSET
      ensures Spec.Push(s, f.data, f.offset, None).outcome in {Spec.Stored, Spec.Duplicate, Spec.TooManyGaps}
    {
    }

    method GetCryptoData() returns (data: Option<seq<byte>>)
      requires Spec.Inv(queue.State())
      modifies queue
      ensures var r := Runs.Pop(old(queue.State()));
        && queue.State() == r.sorter && Spec.Inv(queue.State())
        && data == (if r.entry.Some? then Some(r.entry.value.data) else None)
    {
      hide Spec.Inv;
      var _, d, _, _ := queue.Pop();
      data := d;
    }

    /** The encryption level may change only when everything received has been read. */
    method FinishReceiving() returns (err: Option<CryptoError>)
      modifies this`finished
      ensures err == None <==> queue.queue == map[]
      ensures finished == (old(finished) || err == None)
    {
      var more := queue.HasMoreData();
      if more { return Some(ProtocolViolation); }
      finished := true;
      return None;
    }

    // ---------------------------------------------------------- sending

    method HasData() returns (r: bool)
      requires Valid()
      ensures r == CryptoSpec.HasData(Model())
    {
      if scramble && writeOffset == 0 && cuts[0].start == INVALID_BYTE_COUNT { return false; }
      return |writeBuf| > 0;
    }

    method Write(p: seq<byte>) returns (failed: bool)
      requires Valid()
      modifies this`writeBuf, this`scramble, this`end, cuts
      ensures Valid()
      ensures Model() == CryptoSpec.Write(old(Model()), p).state && failed == CryptoSpec.Write(old(Model()), p).failed
    {
      hide Locate, Sane;
      WriteSane(Model(), p);
      writeBuf := writeBuf + p;
      if !scramble || cuts[0].start != INVALID_BYTE_COUNT { return false; }
      var loc := FindSNIAndECH(writeBuf);
      if loc == Incomplete { return false; }
      if loc == Malformed { return true; }
      if loc.sniPos == -1 && loc.echPos == -1 {
        scramble := false;
        return false;
      }
      end := |writeBuf|;
      cuts[0] := Cut(loc.sniPos + loc.sniLen / 2, loc.sniPos + loc.sniLen);
      if loc.echPos > 0 {
        var start := loc.echPos + 1;
        cuts[1] := Cut(start, Min(start + 16, end));
      }
      if !(cuts[1].start == INVALID_BYTE_COUNT || cuts[1].start > cuts[0].start) {
        cuts[0], cuts[1] := cuts[1], cuts[0];
      }
      return false;
    }

    method PopCryptoFrame(maxLen: nat) returns (f: Option<CryptoFrame>)
      requires Valid()
      modifies this`writeOffset, this`writeBuf, this`scramble, this`end, cuts
      ensures Valid()
      ensures Popped(Model(), f) == CryptoSpec.Pop(old(Model()), maxLen)
      ensures f.Some? && maxLen <= MAX_PACKET_BUFFER_SIZE ==> CryptoFrameLength(f.value) <= maxLen
      ensures old(if scramble then CutsOk(Model()) else |writeBuf| > 0) ==>
        && (f == None <==> CryptoLengthWith(old(NextOffset(Model())), 1) > maxLen)
        && (f.Some? ==> f.value.offset == old(NextOffset(Model())))
        && (f.Some? ==>
              || EndsPiece(old(Model()), f.value.offset + |f.value.data|)
              || CryptoLengthWith(f.value.offset, |f.value.data| + 1) > maxLen)
    {
      hide PopCut, PopBetween, CutsOk, EndsPiece, NextOffset, CryptoLengthWith;
      if if scramble then CutsOk(Model()) else |writeBuf| > 0 { PopLongest(Model(), maxLen); }
      PopSane(Model(), maxLen);
      if !scramble {
        f := PopBase(maxLen);
      } else if writeOffset == end {
        f := PopFromCut(maxLen);
      } else {
        f := PopFromBetween(maxLen);
      }
    }

    method PopBase(maxLen: nat) returns (f: Option<CryptoFrame>)
      requires Valid() && !scramble
      modifies this`writeOffset, this`writeBuf
      ensures Popped(Model(), f) == PopPlain(old(Model()), maxLen)
      ensures f.Some? && maxLen <= MAX_PACKET_BUFFER_SIZE ==> CryptoFrameLength(f.value) <= maxLen
    {
      var n := Min(CryptoMaxDataLen(writeOffset, maxLen), |writeBuf|);
      if n <= 0 { return None; }
      f := Some(CryptoFrame(writeOffset, writeBuf[..n]));
      writeBuf := writeBuf[n..];
      writeOffset := writeOffset + n;
    }

    /** Sends the beginning of a cut; nothing happens if not even one byte fits. */
    method PopPiece(i: nat, maxLen: nat) returns (f: Option<CryptoFrame>)
      requires cuts.Length == 2 && i < 2 && 0 <= cuts[i].start <= cuts[i].end <= |writeBuf|
      modifies cuts
      ensures cuts[1 - i] == old(cuts[1 - i])
      ensures var c := old(cuts[i]); var n := Limit(c.start, c.end - c.start, maxLen);
        && (n <= 0 ==> f == None && cuts[i] == c)
        && (n > 0 ==> f == Some(CryptoFrame(c.start, writeBuf[c.start..c.start + n])) && cuts[i] == Shorten(c, n))
      ensures f.Some? && maxLen <= MAX_PACKET_BUFFER_SIZE ==> CryptoFrameLength(f.value) <= maxLen
    {
      var c := cuts[i];
      var n := Min(CryptoMaxDataLen(c.start, maxLen), c.end - c.start);
      if n <= 0 { return None; }
      f := Some(CryptoFrame(c.start, writeBuf[c.start..c.start + n]));
      cuts[i] := Cut(c.start + n, c.end);
      if cuts[i].start == c.end { cuts[i] := NO_CUT; }
    }

    /** The loop over the cuts sends a piece of the first one left and looks whether any remains. */
    method PopFromCut(maxLen: nat) returns (f: Option<CryptoFrame>)
      requires Valid() && scramble && writeOffset == end
      modifies this`writeBuf, this`scramble, this`end, cuts
      ensures Popped(Model(), f) == PopCut(old(Model()), maxLen)
      ensures f.Some? && maxLen <= MAX_PACKET_BUFFER_SIZE ==> CryptoFrameLength(f.value) <= maxLen
    {
      hide Limit, CryptoFrameLength, Shorten;
      var foundCuts := false;
      f := None;
      ghost var c0, c1 := cuts[0], cuts[1];
      for i := 0 to 2
        invariant writeBuf == old(writeBuf) && scramble && end == old(end)
        invariant f.Some? && maxLen <= MAX_PACKET_BUFFER_SIZE ==> CryptoFrameLength(f.value) <= maxLen
        invariant i == 0 || (i == 1 && c0.start == INVALID_BYTE_COUNT) ==>
          f == None && !foundCuts && cuts[0] == c0 && cuts[1] == c1
        invariant i >= 1 && c0.start != INVALID_BYTE_COUNT ==>
          cuts[1] == c1 && PieceSent(c0, cuts[0], f, maxLen, foundCuts) && (i == 2 ==> c1.start == INVALID_BYTE_COUNT)
        invariant i == 2 && c0.start == INVALID_BYTE_COUNT && c1.start == INVALID_BYTE_COUNT ==>
          f == None && !foundCuts && cuts[0] == c0 && cuts[1] == c1
        invariant i == 2 && c0.start == INVALID_BYTE_COUNT && c1.start != INVALID_BYTE_COUNT ==>
          cuts[0] == c0 && PieceSent(c1, cuts[1], f, maxLen, foundCuts)
      {
        if cuts[i].start == INVALID_BYTE_COUNT { continue; }
        if f.Some? {
          foundCuts := true;
          break;
        }
        f := PopPiece(i, maxLen);
        if f == None { return None; }
        ShortenedIsOver(if i == 0 then c0 else c1, maxLen);
        foundCuts := cuts[i].start != INVALID_BYTE_COUNT;
      }
      if !foundCuts {
        writeBuf := writeBuf[end..];
        end := INVALID_BYTE_COUNT;
        scramble := false;
      }
    }

    static lemma ShortenedIsOver(c: Cut, maxLen: nat)
      requires 0 <= c.start <= c.end && Limit(c.start, c.end - c.start, maxLen) > 0
      ensures var n := Limit(c.start, c.end - c.start, maxLen);
        n <= c.end - c.start && (Shorten(c, n).start == INVALID_BYTE_COUNT <==> Shorten(c, n) == NO_CUT)
    {
    }

    /** A frame with the beginning of cut c was made, and left remains of it. */
    ghost predicate PieceSent(c: Cut, left: Cut, f: Option<CryptoFrame>, maxLen: nat, foundCuts: bool)
      reads this`writeBuf
    {
      && 0 <= c.start
      && var n := Limit(c.start, c.end - c.start, maxLen);
      && 0 < n && c.start + n <= |writeBuf|
      && f == Some(CryptoFrame(c.start, writeBuf[c.start..c.start + n]))
      && left == Shorten(c, n)
      && (foundCuts <==> left != NO_CUT)
    }

    method PopFromBetween(maxLen: nat) returns (f: Option<CryptoFrame>)
      requires Valid() && scramble
      modifies this`writeOffset
      ensures Popped(Model(), f) == PopBetween(old(Model()), maxLen)
      ensures f.Some? && maxLen <= MAX_PACKET_BUFFER_SIZE ==> CryptoFrameLength(f.value) <= maxLen
    {
      var nextCut := NO_CUT;
      for i := 0 to 2
        invariant nextCut == NO_CUT
        invariant forall k :: 0 <= k < i ==> cuts[k].start == INVALID_BYTE_COUNT || cuts[k].start <= writeOffset
      {
        var c := cuts[i];
        if c.start == INVALID_BYTE_COUNT { continue; }
        if c.start > writeOffset {
          nextCut := c;
          break;
        }
      }
      assert nextCut == NextCut(Model());
      var maxOffset := nextCut.start;
      if maxOffset == INVALID_BYTE_COUNT { maxOffset := end; }
      var n := Min(CryptoMaxDataLen(writeOffset, maxLen), maxOffset - writeOffset);
      if n <= 0 { return None; }
      f := Some(CryptoFrame(writeOffset, writeBuf[writeOffset..writeOffset + n]));
      writeOffset := writeOffset + n;
      if writeOffset == nextCut.start { writeOffset := nextCut.end; }
    }
  }
}
