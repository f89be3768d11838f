/**
 Two Initial crypto streams (deps/quic-go/crypto_stream.go) and a network that delays, reorders and
 repeats CRYPTO frames: the ClientHello that one takes apart is put together by the other.
 */
module CryptoEndToEnd {
  import opened Protocol
  import opened Wire
  import opened Sni
  import opened CryptoSpec
  import opened CryptoRuns
  import opened CryptoStreamObject
  import opened FrameSorterObject
  import Spec = SorterSpec
  import Runs = SorterRuns

  /** An order in which n frames are delivered: each at least once. */
  ghost predicate Complete(order: seq<nat>, n: nat) {
    (forall j :: 0 <= j < |order| ==> order[j] < n) && (forall i: nat :: i < n ==> i in order)
  }

  /** One frame adds at most one gap. */
  lemma PushGapCount(s: Spec.Sorter, f: CryptoFrame)
    requires Spec.Inv(s) && f.offset + |f.data| < MAX_BYTE_COUNT
    ensures var r := Spec.Push(s, f.data, f.offset, None);
      && r.outcome in {Spec.Stored, Spec.Duplicate, Spec.TooManyGaps}
      && |r.sorter.gaps| <= |s.gaps| + 1
      && (r.outcome == Spec.TooManyGaps ==> |s.gaps| == MAX_SORTER_GAPS)
  {
    hide Spec.Push, Spec.Placed, Spec.Subtract;
    Spec.PushCases(s, f.data, f.offset, None);
    Runs.FrameAtMaximumPanics(s, f.data, f.offset, None);
    var r := Spec.Push(s, f.data, f.offset, None);
    if r.outcome in {Spec.Stored, Spec.TooManyGaps} {
      var p := Spec.Placed(s, f.offset, |f.data|);
      Spec.SubtractLength(s.gaps, p.first, p.last);
    }
    Spec.PushHitsGapLimit(s, f.data, f.offset, None);
  }

  lemma RunNext(scramble: bool, ops: seq<Op>, op: Op)
    ensures CryptoRuns.Run(scramble, ops + [op]) == Step(CryptoRuns.Run(scramble, ops), op)
    ensures var h := CryptoRuns.Run(scramble, ops);
      && Fair(scramble, ops)
      && (op.WriteOp? ==> !Rearms(h, op.p) && (Waiting(h) ==> Splittable(Locate(h.written + op.p))))
      <==> Fair(scramble, ops + [op])
  {
    hide Locate, Waiting, Rearms, Step, Splittable;
    assert (ops + [op])[..|ops + [op]| - 1] == ops;
  }

  /** A frame that is taken, and a read, as the next step of the receiver's sorter. */
  lemma PushNext(arrivals: seq<Runs.Op>, f: CryptoFrame)
    requires Runs.Run(arrivals).status == Runs.Running
    ensures var t, r := Runs.Run(arrivals), Spec.Push(Runs.Run(arrivals).sorter, f.data, f.offset, None);
      r.outcome in {Spec.Stored, Spec.Duplicate} ==>
      Runs.Run(arrivals + [Runs.PushOp(f.data, f.offset, None)]) == t.(sorter := r.sorter)
  {
    hide Spec.Push, Spec.Inv;
    var ops := arrivals + [Runs.PushOp(f.data, f.offset, None)];
    assert ops[..|ops| - 1] == arrivals;
  }

  lemma PopNext(arrivals: seq<Runs.Op>)
    requires Runs.Run(arrivals).status == Runs.Running
    ensures var t, r := Runs.Run(arrivals), Runs.Pop(Runs.Run(arrivals).sorter);
      Runs.Run(arrivals + [Runs.PopOp]) ==
      Runs.Trace(r.sorter, t.delivered + (if r.entry.Some? then r.entry.value.data else []), Runs.Running)
  {
    hide Spec.Inv;
    var ops := arrivals + [Runs.PopOp];
    assert ops[..|ops| - 1] == arrivals;
    Runs.PopKeepsInv(Runs.Run(arrivals).sorter);
  }

  class CryptoPair {
    const sender: InitialCryptoStream
    const receiver: InitialCryptoStream
    var sent: seq<CryptoFrame>
    var got: seq<byte>
    ghost const scrambled: bool
    ghost var ops: seq<Op>
    ghost var arrivals: seq<Runs.Op>

    ghost function Sending(): History
      reads this
    {
      CryptoRuns.Run(scrambled, ops)
    }

    ghost function Written(): seq<byte>
      reads this
    {
      Sending().written
    }

    ghost predicate SenderOk()
      reads this, sender, sender.cuts
    {
      && sender.Valid()
      && Fair(scrambled, ops)
      && sender.Model() == Sending().state
      && sent == Sending().sent
    }

    ghost predicate ReceiverOk()
      reads this, receiver, receiver.queue
    {
      && Spec.Inv(receiver.queue.State())
      && Runs.Run(arrivals).status == Runs.Running
      && receiver.queue.State() == Runs.Run(arrivals).sorter
      && got == Runs.Run(arrivals).delivered
    }

    ghost predicate Valid()
      reads this, sender, sender.cuts, receiver, receiver.queue
    {
      sender != receiver && SenderOk() && ReceiverOk() && Network(sent, arrivals)
    }

    constructor (scramble: bool)
      ensures Valid() && scrambled == scramble && !receiver.finished
      ensures Written() == [] && sent == [] && got == []
      ensures fresh(sender) && fresh(receiver) && fresh(sender.cuts) && fresh(receiver.queue)
    {
      sender := new InitialCryptoStream(scramble);
      receiver := new InitialCryptoStream(false);
      sent, got := [], [];
      scrambled, ops, arrivals := scramble, [], [];
    }

    /** What was read is always the beginning of what was written. */
    lemma GotIsPrefix()
      requires Valid()
      ensures got <= Written()
      ensures |got| == receiver.queue.readPos
    {
      hide CryptoRuns.Run, Runs.Run, Fair, Spec.Inv;
      NetworkAgrees(scrambled, ops, arrivals);
      Runs.DeliversPrefix(arrivals, Written());
      Runs.FirstGap(receiver.queue.State());
    }

    // ---------------------------------------------------------- the sending side

    ghost predicate FairWrite(p: seq<byte>)
      reads this
    {
      !Rearms(Sending(), p) && (Waiting(Sending()) ==> Splittable(Locate(Written() + p)))
    }

    method Write(p: seq<byte>) returns (failed: bool)
      requires Valid() && FairWrite(p)
      modifies this`ops, sender, sender.cuts
      ensures Valid() && Written() == old(Written()) + p && sent == old(sent)
    {
      hide Spec.Inv, Runs.Run, CryptoRuns.Run, Fair, Locate, Waiting, Rearms, Sane, CryptoSpec.Write, Network;
      RunNext(scrambled, ops, WriteOp(p));
      failed := sender.Write(p);
      ops := ops + [WriteOp(p)];
    }

    /** A frame of at most maxLen bytes, if there is data. */
    method Send(maxLen: nat) returns (had: bool)
      requires Valid()
      modifies this`ops, this`sent, sender, sender.cuts
      ensures Valid() && Written() == old(Written()) && old(sent) <= sent
      ensures had == CryptoSpec.HasData(old(Sending()).state)
      ensures had <==> !Waiting(old(Sending())) && BytesMissing(old(Sending()))
      ensures ops == old(ops) + [PopOp(maxLen)] && Sending() == CryptoRuns.Step(old(Sending()), PopOp(maxLen))
    {
      hide Spec.Inv, Runs.Run, CryptoRuns.Run, Fair, Waiting, Rearms, Sane, CryptoSpec.Pop, HasData, BytesMissing;
      RunNext(scrambled, ops, PopOp(maxLen));
      HasDataMeansOwed(scrambled, ops);
      had := sender.HasData();
      if had {
        var f := sender.PopCryptoFrame(maxLen);
        if f.Some? { sent := sent + [f.value]; }
      }
      ops := ops + [PopOp(maxLen)];
    }

    /** One more frame leaves less to send; without data nothing changes, and nothing is left once begun. */
    lemma SendsOne(h: History, maxLen: nat)
      requires CryptoRuns.Inv(h) && Sane(h.state) && maxLen >= 11
      ensures var g := CryptoRuns.Step(h, PopOp(maxLen));
        && Sane(g.state)
        && (HasData(h.state) ==> !Waiting(h) && !Waiting(g) && Left(g.state) < Left(h.state))
        && (!HasData(h.state) ==> g == h && (Waiting(h) || Drained(h)))
    {
      hide Left, Drained, CryptoSpec.Pop, Sane, SplitsOk, CryptoRuns.Sending, Plain, Balanced, Separate, AllAgree;
      StepSane(h, PopOp(maxLen));
      if HasData(h.state) {
        PopStep(h, maxLen);
        PopCloser(h, maxLen);
        StaysBegun(h, maxLen);
      } else if !Waiting(h) {
        LeftIsOwed(h);
      }
    }

    /** Sends until no data is announced; that is everything, unless the ClientHello is not complete yet. */
    method Flush(budgets: nat -> nat)
      requires Valid() && forall i :: budgets(i) >= 11
      modifies this`ops, this`sent, sender, sender.cuts
      ensures Valid() && Written() == old(Written()) && old(sent) <= sent
      ensures if Waiting(old(Sending())) then sent == old(sent) else Drained(Sending())
    {
      hide CryptoRuns.Run, Fair, Spec.Inv, Runs.Run, Waiting, Left, Sane, CryptoRuns.Step, HasData, Drained,
        CryptoRuns.Inv, Network, BytesMissing;
      var i, had := 0, true;
      while had
        invariant Valid() && Written() == old(Written()) && old(sent) <= sent
        invariant Waiting(old(Sending())) ==> Sending() == old(Sending())
        invariant !Waiting(old(Sending())) ==> !Waiting(Sending())
        invariant !had ==> Waiting(Sending()) || Drained(Sending())
        decreases Left(Sending().state), had
      {
        RunInv(scrambled, ops);
        SendsOne(Sending(), budgets(i));
        had := Send(budgets(i));
        i := i + 1;
      }
    }

    // ---------------------------------------------------------- the receiving side

    /**
     A frame arrives, again or for the first time. It is refused if and only if it ends beyond 16 KiB or
     brings new data after the end, and otherwise fails only with too many gaps.
     */
    method Deliver(i: nat) returns (err: Option<CryptoError>)
      requires Valid() && i < |sent|
      modifies this`arrivals, receiver`highestOffset, receiver.queue
      ensures err == None ==> Valid() && got == old(got)
      ensures err == Some(CryptoBufferExceeded) <==> sent[i].offset + |sent[i].data| > MAX_CRYPTO_STREAM_OFFSET
      ensures err == Some(ProtocolViolation) ==> receiver.finished
      ensures arrivals == old(arrivals) + if err == None &&
        !receiver.finished then [Runs.PushOp(sent[i].data, sent[i].offset, None)] else []
      ensures err == None ==> |receiver.queue.gaps| <= old(|receiver.queue.gaps|) + 1
      ensures err == Some(TooManyGaps) ==> old(|receiver.queue.gaps|) == MAX_SORTER_GAPS
    {
      hide Spec.Inv, Spec.Push, CryptoRuns.Run, Fair, Runs.Run, Sane, Max;
      ghost var s := receiver.queue.State();
      if sent[i].offset + |sent[i].data| <= MAX_CRYPTO_STREAM_OFFSET { PushGapCount(s, sent[i]); }
      err := receiver.HandleCryptoFrame(sent[i]);
      if err == None && !receiver.finished {
        PushNext(arrivals, sent[i]);
        arrivals := arrivals + [Runs.PushOp(sent[i].data, sent[i].offset, None)];
      }
    }

    /** The next piece in order; there is none if and only if the next byte has not arrived. */
    method Read() returns (data: Option<seq<byte>>)
      requires Valid()
      modifies this`arrivals, this`got, receiver.queue
      ensures Valid() && arrivals == old(arrivals) + [Runs.PopOp]
      ensures got == old(got) + if data.Some? then data.value else []
      ensures data == None <==> !Runs.Carried(old(arrivals), |old(got)|)
      ensures |receiver.queue.gaps| == old(|receiver.queue.gaps|)
      ensures if data == None then receiver.queue.State() == old(receiver.queue.State())
              else |receiver.queue.queue| < old(|receiver.queue.queue|)
    {
      hide Spec.Inv, CryptoRuns.Run, Fair, Runs.Run, Runs.Pop, Runs.Carried;
      GotIsPrefix();
      Runs.EmptyReadMeansMissing(arrivals);
      ghost var s := receiver.queue.State();
      PopSmaller(s);
      data := receiver.GetCryptoData();
      got := got + if data.Some? then data.value else [];
      PopNext(arrivals);
      arrivals := arrivals + [Runs.PopOp];
    }

    static lemma PopSmaller(s: Spec.Sorter)
      requires Spec.Inv(s)
      ensures var r := Runs.Pop(s);
        && !r.panic && r.sorter.gaps == s.gaps
        && if r.entry == None then r.sorter == s else |r.sorter.queue| < |s.queue|
    {
      Runs.PopKeepsInv(s);
      if s.readPos in s.queue {
        assert Runs.Pop(s).sorter.queue.Keys == s.queue.Keys - {s.readPos};
      }
    }

    /** The level is finished only when everything that arrived has been read. */
    method Finish() returns (err: Option<CryptoError>)
      requires Valid()
      modifies receiver`finished
      ensures Valid() && receiver.finished == (old(receiver.finished) || err == None)
      ensures err == None ==> forall x :: 0 <= x < MAX_BYTE_COUNT && Runs.Carried(arrivals, x) ==> x < |got|
    {
      hide CryptoRuns.Run, Fair, Runs.Run, Spec.Inv;
      err := receiver.FinishReceiving();
      if err == None {
        GotIsPrefix();
        forall x | 0 <= x < MAX_BYTE_COUNT && Runs.Carried(arrivals, x)
          ensures x < |got|
        {
          Runs.GapsAreMissingBytes(arrivals, x);
          if x >= receiver.queue.readPos { Runs.Tiling(receiver.queue.State(), x); }
        }
      }
    }

    /** Reads until the next byte has not arrived. */
    method ReadAll()
      requires Valid()
      modifies this`arrivals, this`got, receiver.queue
      ensures Valid() && old(got) <= got
      ensures !Runs.Carried(old(arrivals), |got|)
    {
      hide CryptoRuns.Run, Fair, Runs.Run, Spec.Inv, Network, Runs.Carried;
      var more := true;
      while more
        invariant Valid() && old(got) <= got
        invariant forall x :: Runs.Carried(old(arrivals), x) ==> Runs.Carried(arrivals, x)
        invariant !more ==> !Runs.Carried(arrivals, |got|)
        decreases |receiver.queue.queue|, more
      {
        ghost var before := arrivals;
        var data := Read();
        forall x ensures Runs.Carried(arrivals, x) <==> Runs.Carried(before, x) {
          assert arrivals[..|arrivals| - 1] == before;
          Runs.CarriedLast(arrivals, x);
        }
        more := data.Some?;
      }
    }

    /** Delivers the frames in any order and any number of times, each at least once. */
    method DeliverAll(order: seq<nat>) returns (err: Option<CryptoError>)
      requires Valid() && !receiver.finished && Complete(order, |sent|)
      modifies this`arrivals, receiver`highestOffset, receiver.queue
      ensures err == None ==> Valid() && AllArrive(sent, arrivals) && got == old(got)
      ensures err == None ==> forall f :: f in sent ==> f.offset + |f.data| <= MAX_CRYPTO_STREAM_OFFSET
      ensures err.Some? ==> err.value.CryptoBufferExceeded? || err.value.TooManyGaps?
      ensures err == Some(CryptoBufferExceeded) ==>
        exists f :: f in sent && f.offset + |f.data| > MAX_CRYPTO_STREAM_OFFSET
      ensures old(|receiver.queue.gaps|) + |order| <= MAX_SORTER_GAPS ==> err != Some(TooManyGaps)
    {
      hide CryptoRuns.Run, Fair, Runs.Run, Spec.Inv;
      for k := 0 to |order|
        invariant Valid() && got == old(got) && !receiver.finished
        invariant |receiver.queue.gaps| <= old(|receiver.queue.gaps|) + k
        invariant forall j :: 0 <= j < k ==> Arrived(sent[order[j]], arrivals)
        invariant forall j :: 0 <= j < k ==> sent[order[j]].offset + |sent[order[j]].data| <= MAX_CRYPTO_STREAM_OFFSET
      {
        ghost var before := arrivals;
        err := Deliver(order[k]);
        if err.Some? { return; }
        forall j | 0 <= j < k ensures Arrived(sent[order[j]],
                                              arrivals) { StillArrived(sent[order[j]], before, arrivals); }
        ArrivedNow(sent[order[k]], before);
      }
      forall f | f in sent
        ensures Arrived(f, arrivals) && f.offset + |f.data| <= MAX_CRYPTO_STREAM_OFFSET
      {
        var i :| 0 <= i < |sent| && sent[i] == f;
        assert i in order;
        var j :| 0 <= j < |order| && order[j] == i;
      }
      err := None;
    }

    /**
     The round trip. Everything written is sent in frames of any sizes, delivered in any order and read:
     unless the sorter runs out of gaps, which takes at least a thousand frames, the receiver has read exactly
     what was written if and only if that is at most 16 KiB, and refuses a frame otherwise.
     */
    method Transfer(budgets: nat -> nat, order: nat -> seq<nat>) returns (err: Option<CryptoError>, frames: nat)
      requires Valid() && !receiver.finished && !Waiting(Sending())
      requires (forall i :: budgets(i) >= 11) && (forall n :: Complete(order(n), n))
      modifies this`ops, this`sent, this`arrivals, this`got, sender, sender.cuts, receiver`highestOffset, receiver.queue
      ensures Written() == old(Written()) && frames == |sent|
      ensures err != Some(TooManyGaps) ==> (err == None <==> |Written()| <= MAX_CRYPTO_STREAM_OFFSET)
      ensures err == None ==> Valid() && got == Written()
      ensures err.Some? ==> err.value.CryptoBufferExceeded? || err.value.TooManyGaps?
      ensures old(|receiver.queue.gaps|) + |order(frames)| <= MAX_SORTER_GAPS ==> err != Some(TooManyGaps)
    {
      hide CryptoRuns.Run, Fair, Runs.Run, Spec.Inv, Network, Waiting, Drained, AllArrive, Runs.Carried;
      Flush(budgets);
      frames := |sent|;
      FitsIff();
      err := DeliverAll(order(frames));
      if err.Some? { return; }
      ghost var arrived := arrivals;
      ReadAll();
      GotIsPrefix();
      if |got| < |Written()| { AllCarried(scrambled, ops, arrived, |got|); }
    }

    /** All frames end within 16 KiB if and only if all that was written does. */
    lemma FitsIff()
      requires SenderOk() && Drained(Sending())
      ensures (forall f :: f in sent ==> f.offset + |f.data| <= MAX_CRYPTO_STREAM_OFFSET) <==>
        |Written()| <= MAX_CRYPTO_STREAM_OFFSET
    {
      hide CryptoRuns.Run, Fair, Drained, Phase, SplitsOk, Separate, Balanced;
      RunInv(scrambled, ops);
      if |Written()| > MAX_CRYPTO_STREAM_OFFSET {
        var f := SentSomewhere(scrambled, ops, |Written()| - 1);
      }
    }
  }

  ghost predicate Arrived(f: CryptoFrame, arrivals: seq<Runs.Op>) {
    exists a :: a in arrivals && a.PushOp? && a.offset == f.offset && a.data == f.data
  }

  lemma StillArrived(f: CryptoFrame, before: seq<Runs.Op>, after: seq<Runs.Op>)
    requires Arrived(f, before) && before <= after
    ensures Arrived(f, after)
  {
    var a :| a in before && a.PushOp? && a.offset == f.offset && a.data == f.data;
    assert a in after;
  }

  lemma ArrivedNow(f: CryptoFrame, before: seq<Runs.Op>)
    ensures Arrived(f, before + [Runs.PushOp(f.data, f.offset, None)])
  {
    assert Runs.PushOp(f.data, f.offset, None) in before + [Runs.PushOp(f.data, f.offset, None)];
  }
}
