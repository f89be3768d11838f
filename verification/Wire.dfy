/** The length arithmetic of STREAM frames (internal/wire/stream_frame.go, quicvarint). */
module Wire {
  import opened Protocol

  datatype StreamFrame = StreamFrame(offset: nat, data: seq<byte>, fin: bool)

  datatype ResetFrame = ResetFrame(finalSize: nat, errorCode: nat, reliableSize: nat)

  function FrameEnd(f: StreamFrame): nat { f.offset + |f.data| }

  function VarintLen(i: nat): (n: nat)
    ensures n in {1, 2, 4, 8}
  {
    if i <= 63 then 1 else if i <= 16383 then 2 else if i <= 1073741823 then 4 else 8
  }

  function HeaderLen(id: nat, offset: nat): nat {
    1 + VarintLen(id) + if offset != 0 then VarintLen(offset) else 0
  }

  /** The length of a frame with n bytes of data. */
  function LengthWith(id: nat, offset: nat, n: nat): nat {
    HeaderLen(id, offset) + VarintLen(n) + n
  }

  function FrameLength(id: nat, f: StreamFrame): nat {
    LengthWith(id, f.offset, |f.data|)
  }

  /** How much data fits into maxSize bytes together with the frame header. */
  function MaxDataLen(id: nat, offset: nat, maxSize: nat): nat {
    var header := HeaderLen(id, offset) + 1;
    if header > maxSize then 0
    else
      var n := maxSize - header;
      if VarintLen(n) != 1 then n - 1 else n
  }

  /**
   Frames with at most MaxDataLen bytes fit their budget, as long as that length has a varint of one or two
   bytes. From 16385 bytes available on, a frame of exactly that length overruns it by two bytes, or by six.
   */
  lemma MaxDataLenFits(id: nat, offset: nat, maxSize: nat)
    requires MaxDataLen(id, offset, maxSize) > 0
    ensures (forall f: StreamFrame :: f.offset == offset && |f.data| <= MaxDataLen(id, offset, maxSize) ==>
              FrameLength(id, f) <= maxSize)
            <==> maxSize - HeaderLen(id, offset) - 1 < 16385
    ensures var n := MaxDataLen(id, offset, maxSize);
      n >= 16384 ==>
      forall f: StreamFrame :: f.offset == offset && |f.data| == n ==>
        FrameLength(id, f) - maxSize == if n <= 1073741823 then 2 else 6
    ensures MaxDataLen(id, offset, maxSize) >= 16384 <==> maxSize - HeaderLen(id, offset) - 1 >= 16385
  {
    var n := MaxDataLen(id, offset, maxSize);
    if maxSize - HeaderLen(id, offset) - 1 >= 16385 {
      var f := StreamFrame(offset, seq(n, _ => 0), false);
      assert |f.data| == n && FrameLength(id, f) > maxSize;
    }
  }

  /** Not one byte more fits; and a byte fits if and only if there is room for a frame with one. */
  lemma MaxDataLenMaximal(id: nat, offset: nat, maxSize: nat)
    ensures LengthWith(id, offset, MaxDataLen(id, offset, maxSize) + 1) > maxSize
    ensures MaxDataLen(id, offset, maxSize) > 0 <==> LengthWith(id, offset, 1) <= maxSize
  {
  }

  /** The prefix of f that fits, if f is too long for maxSize (None: not even one byte fits). */
  function SplitOff(id: nat, f: StreamFrame, maxSize: nat): (r: (Option<StreamFrame>, StreamFrame))
    requires maxSize < FrameLength(id, f) && |f.data| <= MAX_PACKET_BUFFER_SIZE
    ensures r.0 == None ==> r.1 == f && LengthWith(id, f.offset, 1) > maxSize
    ensures r.0.Some? ==>
      && r.0.value.offset == f.offset && !r.0.value.fin
      && r.1.fin == f.fin && FrameEnd(r.0.value) == r.1.offset
      && 0 < |r.0.value.data| && 0 < |r.1.data|
      && |r.0.value.data| < |f.data|
      && r.0.value.data == f.data[..|r.0.value.data|] && r.1.data == f.data[|r.0.value.data|..]
      && LengthWith(id, f.offset, 1) <= FrameLength(id, r.0.value) <= maxSize
      && maxSize < LengthWith(id, f.offset, |r.0.value.data| + 1)
  {
    MaxDataLenMaximal(id, f.offset, maxSize);
    var n := MaxDataLen(id, f.offset, maxSize);
    if n == 0 then (None, f)
    else (Some(StreamFrame(f.offset, f.data[..n], false)), StreamFrame(f.offset + n, f.data[n..], f.fin))
  }

  // internal/wire/crypto_frame.go

  datatype CryptoFrame = CryptoFrame(offset: nat, data: seq<byte>)

  function CryptoLengthWith(offset: nat, n: nat): nat {
    1 + VarintLen(offset) + VarintLen(n) + n
  }

  function CryptoFrameLength(f: CryptoFrame): nat {
    CryptoLengthWith(f.offset, |f.data|)
  }

  function CryptoMaxDataLen(offset: nat, maxSize: nat): nat {
    var header := 1 + VarintLen(offset) + 1;
    if header > maxSize then 0
    else
      var n := maxSize - header;
      if VarintLen(n) != 1 then n - 1 else n
  }

  /** Not one byte more fits; and a byte fits if and only if there is room for a frame with one. */
  lemma CryptoMaxDataLenMaximal(offset: nat, maxSize: nat)
    ensures CryptoLengthWith(offset, CryptoMaxDataLen(offset, maxSize) + 1) > maxSize
    ensures CryptoMaxDataLen(offset, maxSize) > 0 <==> CryptoLengthWith(offset, 1) <= maxSize
  {
  }
}
