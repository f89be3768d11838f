/**
 Every run of writes and pops on the Initial crypto stream (deps/quic-go/crypto_stream.go):
 how often each byte is sent and with which content, when the stream stalls, and why the
 receiver's frame sorter rebuilds the ClientHello from the scrambled frames.
 */
module CryptoRuns {
  import opened Protocol
  import opened Wire
  import opened Sni
  import opened CryptoSpec
  import Spec = SorterSpec
  import Runs = SorterRuns

  datatype Op = WriteOp(p: seq<byte>) | PopOp(maxLen: nat)

  /**
   twice: the cut whose bytes are sent twice. splits: the offsets at which the ClientHello is taken apart.
   */
  datatype History = History(state: State, written: seq<byte>, sent: seq<CryptoFrame>, twice: Cut, splits: set<int>)

  function Overlapping(s: State): Cut {
    if s.second.start != INVALID_BYTE_COUNT && s.second.start <= s.first.end then s.second else NO_CUT
  }

  /**
   The cut whose bytes are sent twice: one at the very beginning, which comes from a name of two or
   three bytes that is no host name and is never skipped, or else the overlapping one.
   */
  function Twice(s: State): Cut {
    if s.first.start == 0 then s.first else Overlapping(s)
  }

  function SplitsOf(s: State): set<int> {
    {s.first.start} + if Overlapping(s) == NO_CUT && s.second != NO_CUT then {s.second.start} else {}
  }

  /** Frames are popped only when there is data to send. */
  function Step(h: History, op: Op): History
    requires Sane(h.state)
  {
    match op
    case WriteOp(p) =>
      var s := Write(h.state, p).state;
      var armed := h.state.first == h.state.second == NO_CUT && s.first.start != INVALID_BYTE_COUNT;
      History(s, h.written + p, h.sent, if armed then Twice(s) else h.twice,
              if armed then SplitsOf(s) else h.splits)
    case PopOp(maxLen) =>
      if !HasData(h.state) then h
      else
        var r := Pop(h.state, maxLen);
        h.(state := r.state, sent := h.sent + if r.frame.Some? then [r.frame.value] else [])
  }

  lemma StepSane(h: History, op: Op)
    requires Sane(h.state)
    ensures Sane(Step(h, op).state)
  {
    hide Write, CryptoSpec.Pop;
    match op
    case WriteOp(p) => WriteSane(h.state, p);
    case PopOp(maxLen) => PopSane(h.state, maxLen);
  }

  /** Every run, and in particular one in which no slice is ever out of range. */
  function Run(scramble: bool, ops: seq<Op>): (h: History)
    ensures Sane(h.state)
  {
    if ops == [] then History(Fresh(scramble), [], [], NO_CUT, {})
    else
      var h := Run(scramble, ops[..|ops| - 1]);
      var op := ops[|ops| - 1];
      StepSane(h, op);
      Step(h, op)
  }

  /** Nothing is left to send. */
  predicate Drained(h: History) {
    !h.state.scramble && h.state.buf == []
  }

  /** How many of the frames carry byte x. */
  function Times(frames: seq<CryptoFrame>, x: int): nat {
    if frames == [] then 0
    else Times(frames[..|frames| - 1], x) + One(Covers(Some(frames[|frames| - 1]), x))
  }

  predicate Agrees(f: CryptoFrame, stream: seq<byte>) {
    f.offset + |f.data| <= |stream| && f.data == stream[f.offset..f.offset + |f.data|]
  }

  ghost predicate AllAgree(frames: seq<CryptoFrame>, stream: seq<byte>) {
    forall f :: f in frames ==> Agrees(f, stream)
  }

  /** There is something to hide, so the stream cuts the ClientHello apart. */
  predicate Hides(loc: Location) {
    loc.Found? && !(loc.sniPos == -1 && loc.echPos == -1)
  }

  /**
   A ClientHello that the stream can take apart and send: its host name is not empty. Without a host
   name, the last name of another type counts instead and has to have two bytes.
   */
  predicate Splittable(loc: Location) {
    Hides(loc) ==> if loc.sniPos != -1 then loc.sniLen > 0 else loc.sniLen > 1
  }

  // ------------------------------------------------------------ the invariant

  predicate Waiting(h: History) {
    && h.state == Fresh(true).(buf := h.written)
    && h.sent == []
  }

  predicate Underway(h: History) {
    && h.state.scramble
    && h.state.buf == h.written
    && CutsOk(h.state)
    && h.state.end <= |h.written|
    && Hides(Locate(h.written[..h.state.end]))
  }

  /** The ClientHello is complete and not yet sent; the cuts are what is left of those made then. */
  predicate Sending(h: History) {
    Underway(h) && RestOf(h.state, Armed(h.written[..h.state.end]))
  }

  /** The state right after the ClientHello was complete. */
  function Armed(hello: seq<byte>): State
    requires Locate(hello).Found?
  {
    Arm(Fresh(true).(buf := hello), Locate(hello))
  }

  predicate RestOfCut(c: Cut, whole: Cut) {
    c == NO_CUT || (0 <= whole.start <= c.start && c.end == whole.end)
  }

  predicate RestOf(s: State, armed: State) {
    && 0 <= armed.first.start < armed.first.end
    && RestOfCut(s.first, armed.first) && RestOfCut(s.second, armed.second)
  }

  /** An empty write between the two cuts, which makes the stream cut the ClientHello apart once more. */
  predicate Rearms(h: History, p: seq<byte>) {
    Sending(h) && h.state.first == NO_CUT && h.state.end == |h.written| && p == []
  }

  predicate Plain(h: History) {
    && !h.state.scramble
    && h.state.writeOffset <= |h.written|
    && h.state.buf == h.written[h.state.writeOffset..]
    && h.state.first == h.state.second == NO_CUT
  }

  /** Every byte is sent once in the end, and those in the overlapping cut a second time. */
  ghost predicate Balanced(h: History) {
    forall x :: 0 <= x < |h.written| ==> Times(h.sent, x) + Owed(h.state, x) == 1 + One(InCut(h.twice, x))
  }

  predicate Inside(k: int, from: int, to: int) { from < k < to }

  /** No frame spans a split. */
  ghost predicate Separate(sent: seq<CryptoFrame>, splits: set<int>) {
    forall f, k :: f in sent && k in splits ==> !Inside(k, f.offset, f.offset + |f.data|)
  }

  /** A split ahead of the write offset is the start of a cut; none is inside a cut. */
  predicate SplitAt(s: State, k: int) {
    && (k <= s.writeOffset || (s.scramble && (k == s.first.start || k == s.second.start)))
    && !Inside(k, s.first.start, s.first.end) && !Inside(k, s.second.start, s.second.end)
  }

  ghost predicate SplitsOk(h: History) {
    forall k :: k in h.splits ==> SplitAt(h.state, k)
  }

  predicate Phase(h: History) {
    && (Waiting(h) || Sending(h) || Plain(h))
    && (Waiting(h) ==> h.twice == NO_CUT && h.splits == {})
    && (h.twice == NO_CUT || CutOk(h.twice, |h.written|))
  }

  ghost predicate Inv(h: History) {
    && Phase(h)
    && SplitsOk(h) && Separate(h.sent, h.splits)
    && AllAgree(h.sent, h.written)
    && Balanced(h)
    && (forall x :: Times(h.sent, x) > 0 ==> 0 <= x < |h.written|)
  }

  // ------------------------------------------------------------ one write

  /** Cuts from a found server name can be worked with; with two of them, they are in order. */
  lemma ArmedCutsOk(s: State, loc: Location)
    requires s.scramble && s.writeOffset == 0 && s.second == NO_CUT
    requires Locate(s.buf) == loc && Hides(loc) && Splittable(loc)
    ensures CutsOk(Arm(s, loc)) && Arm(s, loc).first.start >= 0
    ensures |s.buf| > 0 && Arm(s, loc).buf == s.buf
  {
  }

  lemma ArmedOwed(s: State, x: int)
    requires CutsOk(s) && s.writeOffset == 0 && x >= 0
    ensures Owed(s, x) == 1 + One(InCut(Twice(s), x))
  {
  }

  lemma WriteStep(h: History, p: seq<byte>)
    requires Phase(h) && SplitsOk(h) && Sane(h.state) && !Rearms(h, p)
    requires Waiting(h) ==> Splittable(Locate(h.written + p))
    ensures var g := Step(h, WriteOp(p));
      && Phase(g) && SplitsOk(g)
      && (g.splits == h.splits || h.sent == [])
      && forall x :: 0 <= x ==> Owed(g.state, x) + One(InCut(h.twice, x)) == Owed(h.state, x) + One(InCut(g.twice, x))
  {
    hide Locate, Times;
    var g := Step(h, WriteOp(p));
    var loc := Locate(h.written + p);
    if Waiting(h) {
      if Hides(loc) {
        var t := h.state.(buf := h.written + p);
        ArmedCutsOk(t, loc);
        assert g.state == Arm(t, loc);
        assert (h.written + p)[..g.state.end] == h.written + p;
        forall x | x >= 0 ensures Owed(g.state, x) == 1 + One(InCut(Twice(g.state), x)) { ArmedOwed(g.state, x); }
      }
    } else if Sending(h) {
      assert (h.written + p)[..h.state.end] == h.written[..h.state.end];
      if h.state.end < |h.written + p| { LongerIsIncomplete(h.written + p, h.state.end); }
    } else {
      assert (h.written + p)[h.state.writeOffset..] == h.written[h.state.writeOffset..] + p;
    }
  }

  lemma WriteKeepsInv(h: History, p: seq<byte>)
    requires Inv(h) && Sane(h.state) && !Rearms(h, p)
    requires Waiting(h) ==> Splittable(Locate(h.written + p))
    ensures Inv(Step(h, WriteOp(p)))
  {
    hide Locate, Times, Owed, Phase, SplitsOk, Write;
    WriteStep(h, p);
    NewBytesOwed(h);
    var g := Step(h, WriteOp(p));
    forall f | f in g.sent
      ensures Agrees(f, g.written)
    {
      assert g.written[f.offset..f.offset + |f.data|] == h.written[f.offset..f.offset + |f.data|];
    }
  }

  lemma NewBytesOwed(h: History)
    requires Phase(h)
    ensures forall x :: x >= |h.written| ==> Owed(h.state, x) == 1 && !InCut(h.twice, x)
  {
  }

  // ------------------------------------------------------------ one pop

  /** The frame carries what was written and spans no split; the splits stay where they may be. */
  ghost predicate PopFine(h: History, r: Popped) {
    && SplitsOk(h.(state := r.state))
    && (r.frame.Some? ==>
          && Agrees(r.frame.value, h.written) && |r.frame.value.data| > 0
          && forall k :: k in h.splits ==>
               !Inside(k, r.frame.value.offset, r.frame.value.offset + |r.frame.value.data|))
  }

  lemma PopPlainFine(h: History, maxLen: nat)
    requires Plain(h) && SplitsOk(h)
    ensures PopFine(h, PopPlain(h.state, maxLen)) && Plain(h.(state := PopPlain(h.state, maxLen).state))
  {
  }

  lemma PopCutFine(h: History, maxLen: nat)
    requires Underway(h) && SplitsOk(h) && Sane(h.state) && h.state.writeOffset == h.state.end
    ensures var r := PopCut(h.state, maxLen);
      PopFine(h, r) && (Underway(h.(state := r.state)) || Plain(h.(state := r.state)))
  {
    hide Locate, Owed;
    PopCutOwed(h.state, maxLen, 0);
  }

  lemma PopBetweenFine(h: History, maxLen: nat)
    requires Underway(h) && SplitsOk(h) && Sane(h.state) && h.state.writeOffset < h.state.end
    ensures var r := PopBetween(h.state, maxLen); PopFine(h, r) && Underway(h.(state := r.state))
  {
    hide Locate;
  }

  /** Popping only shortens the cuts. */
  lemma PopLeavesRest(s: State, maxLen: nat, armed: State)
    requires Sane(s) && s.scramble && RestOf(s, armed)
    ensures RestOf(CryptoSpec.Pop(s, maxLen).state, armed)
    ensures CryptoSpec.Pop(s, maxLen).state.scramble ==> CryptoSpec.Pop(s, maxLen).state.end == s.end
  {
    hide CryptoMaxDataLen;
  }

  lemma PopStep(h: History, maxLen: nat)
    requires Phase(h) && SplitsOk(h) && Sane(h.state) && HasData(h.state)
    ensures var r := CryptoSpec.Pop(h.state, maxLen);
      !Waiting(h) && PopFine(h, r) && (Sending(h.(state := r.state)) || Plain(h.(state := r.state)))
  {
    hide Locate, Owed, PopFine, SplitsOk, PopPlain, PopCut, PopBetween, CutsOk, RestOf, Armed;
    if Sending(h) { PopLeavesRest(h.state, maxLen, Armed(h.written[..h.state.end])); }
    if Plain(h) {
      PopPlainFine(h, maxLen);
    } else if h.state.writeOffset == h.state.end {
      PopCutFine(h, maxLen);
    } else {
      WriteOffsetInside(h);
      PopBetweenFine(h, maxLen);
    }
  }

  lemma WriteOffsetInside(h: History)
    requires Sending(h)
    ensures h.state.writeOffset <= h.state.end
  {
  }

  lemma PopOwed(h: History, maxLen: nat, x: nat)
    requires Phase(h) && Sane(h.state) && HasData(h.state)
    ensures var r := CryptoSpec.Pop(h.state, maxLen);
      Owed(h.state, x) == Owed(r.state, x) + One(Covers(r.frame, x))
  {
    hide Locate;
    if Sending(h) {
      if h.state.writeOffset == h.state.end { PopCutOwed(h.state, maxLen, x); }
        else { PopBetweenOwed(h.state, maxLen, x); }
    }
  }

  lemma PopKeepsInv(h: History, maxLen: nat)
    requires Inv(h) && Sane(h.state)
    ensures Inv(Step(h, PopOp(maxLen)))
  {
    hide Locate, Owed, SplitsOk, Waiting, Sending, Plain, Sane, CryptoSpec.Pop;
    if HasData(h.state) {
      var r := CryptoSpec.Pop(h.state, maxLen);
      PopStep(h, maxLen);
      forall x: nat
        ensures Owed(h.state, x) == Owed(r.state, x) + One(Covers(r.frame, x))
      {
        PopOwed(h, maxLen, x);
      }
      var g := Step(h, PopOp(maxLen));
      HistoryPhase(h, g);
      if r.frame.Some? {
        assert g.sent[..|g.sent| - 1] == h.sent;
        assert forall x :: Times(g.sent, x) == Times(h.sent, x) + One(Covers(r.frame, x));
        assert forall f :: f in g.sent <==> f in h.sent || f == r.frame.value;
      } else {
        assert g.sent == h.sent;
      }
    }
  }

  lemma HistoryPhase(h: History, g: History)
    requires Phase(h) && !Waiting(h) && g == h.(state := g.state, sent := g.sent)
    requires Sending(h.(state := g.state)) || Plain(h.(state := g.state))
    requires SplitsOk(h.(state := g.state))
    ensures Phase(g) && SplitsOk(g)
  {
  }

  /** As long as there is data, every budget of 11 bytes or more is used. */
  lemma PopProgress(h: History, maxLen: nat)
    requires Phase(h) && Sane(h.state) && HasData(h.state) && maxLen >= 11
    ensures CryptoSpec.Pop(h.state, maxLen).frame.Some?
  {
    hide Locate;
  }

  // ------------------------------------------------------------ every run

  /** No empty write between the cuts, and a ClientHello that can be taken apart. */
  predicate Fair(scramble: bool, ops: seq<Op>) {
    ops == [] ||
      var h, op := Run(scramble, ops[..|ops| - 1]), ops[|ops| - 1];
      && Fair(scramble, ops[..|ops| - 1])
      && (op.WriteOp? ==> !Rearms(h, op.p) && (Waiting(h) ==> Splittable(Locate(h.written + op.p))))
  }

  lemma {:induction false} RunInv(scramble: bool, ops: seq<Op>)
    requires Fair(scramble, ops)
    ensures Inv(Run(scramble, ops))
  {
    hide Step;
    if ops == [] {
      FreshInv(scramble);
    } else {
      var init, op := ops[..|ops| - 1], ops[|ops| - 1];
      RunInv(scramble, init);
      match op
      case WriteOp(p) => WriteKeepsInv(Run(scramble, init), p);
      case PopOp(maxLen) => PopKeepsInv(Run(scramble, init), maxLen);
    }
  }

  lemma FreshInv(scramble: bool)
    ensures Inv(History(Fresh(scramble), [], [], NO_CUT, {}))
  {
  }

  /**
   Once nothing is left to send, the frames carry every byte written, with the right content:
   each exactly once if and only if the two cuts are apart from each other.
   */
  lemma SentExactlyOnce(scramble: bool, ops: seq<Op>)
    requires Fair(scramble, ops)
    requires Drained(Run(scramble, ops))
    ensures var h := Run(scramble, ops);
      && AllAgree(h.sent, h.written)
      && (forall x :: 0 <= x < |h.written| ==> Times(h.sent, x) == 1 + One(InCut(h.twice, x)))
      && (forall x :: !(0 <= x < |h.written|) ==> Times(h.sent, x) == 0)
      && ((forall x :: 0 <= x < |h.written| ==> Times(h.sent, x) == 1) <==> h.twice == NO_CUT)
  {
    hide Run, Fair, SplitsOk, Separate, AllAgree, Times, Locate;
    var h := Run(scramble, ops);
    RunInv(scramble, ops);
    if h.twice != NO_CUT {
      assert InCut(h.twice, h.twice.start);
      assert Times(h.sent, h.twice.start) == 2;
    }
  }

  /** No frame ever shows the bytes on both sides of a split, for every choice of budgets. */
  lemma NothingSpansASplit(scramble: bool, ops: seq<Op>, f: CryptoFrame, k: int)
    requires Fair(scramble, ops)
    requires f in Run(scramble, ops).sent && k in Run(scramble, ops).splits
    ensures !(f.offset <= k - 1 && k < f.offset + |f.data|)
  {
    hide Run, Fair, SplitsOk, AllAgree, Balanced, Times;
    RunInv(scramble, ops);
    assert !Inside(k, f.offset, f.offset + |f.data|);
  }

  // ------------------------------------------------------------ the receiver

  lemma {:induction false} CarriedBySome(frames: seq<CryptoFrame>, x: int) returns (f: CryptoFrame)
    requires Times(frames, x) > 0
    ensures f in frames && Covers(Some(f), x)
  {
    f := frames[|frames| - 1];
    if !Covers(Some(f), x) { f := CarriedBySome(frames[..|frames| - 1], x); }
  }

  /** arrivals pushes nothing but frames that were sent, in any order and any number of times. */
  ghost predicate Network(sent: seq<CryptoFrame>, arrivals: seq<Runs.Op>) {
    forall a :: a in arrivals && a.PushOp? ==> CryptoFrame(a.offset, a.data) in sent
  }

  ghost predicate AllArrive(sent: seq<CryptoFrame>, arrivals: seq<Runs.Op>) {
    forall f :: f in sent ==> exists a :: a in arrivals && a.PushOp? && a.offset == f.offset && a.data == f.data
  }

  /** What arrives from such a network agrees with what was written, and ends within it. */
  lemma NetworkAgrees(scramble: bool, ops: seq<Op>, arrivals: seq<Runs.Op>)
    requires Fair(scramble, ops) && Network(Run(scramble, ops).sent, arrivals)
    ensures Runs.AllAgree(arrivals, Run(scramble, ops).written)
  {
    hide Run, Fair, SplitsOk, Separate, Phase, Balanced, Times;
    RunInv(scramble, ops);
    forall a | a in arrivals && a.PushOp?
      ensures Runs.Agrees(a.data, a.offset, Run(scramble, ops).written)
    {
      assert Agrees(CryptoFrame(a.offset, a.data), Run(scramble, ops).written);
    }
  }

  /** If a drained stream's frames have all arrived, every byte written has. */
  lemma AllCarried(scramble: bool, ops: seq<Op>, arrivals: seq<Runs.Op>, x: nat)
    requires Fair(scramble, ops) && Drained(Run(scramble, ops)) && AllArrive(Run(scramble, ops).sent, arrivals)
    requires x < |Run(scramble, ops).written|
    ensures Runs.Carried(arrivals, x)
  {
    hide Run, Fair;
    var f := SentSomewhere(scramble, ops, x);
    var a :| a in arrivals && a.PushOp? && a.offset == f.offset && a.data == f.data;
  }

  lemma SentSomewhere(scramble: bool, ops: seq<Op>, x: nat) returns (f: CryptoFrame)
    requires Fair(scramble, ops) && Drained(Run(scramble, ops)) && x < |Run(scramble, ops).written|
    ensures f in Run(scramble, ops).sent && Covers(Some(f), x)
  {
    hide Run, Fair, InCut;
    SentExactlyOnce(scramble, ops);
    f := CarriedBySome(Run(scramble, ops).sent, x);
  }

  // ------------------------------------------------------------ which ClientHellos are split cleanly

  /**
   Which ClientHellos have bytes that are sent twice. With a host name: those in which the ECH
   extension comes first and is nearly empty. Without one, the length of a name of another type is
   taken for a position, and anything can happen.
   */
  lemma TwiceIff(s: State, loc: Location)
    requires s.writeOffset == 0 && s.second == NO_CUT
    requires Locate(s.buf) == loc && Hides(loc) && Splittable(loc)
    ensures Twice(Arm(s, loc)) == NO_CUT <==>
      if loc.sniPos != -1 then
        loc.echPos == -1 || loc.sniPos + loc.sniLen <= loc.echPos || loc.echPos + 17 < loc.sniPos + loc.sniLen / 2
      else
        loc.sniLen > 3 && (loc.sniLen < loc.echPos + 2 || loc.echPos + 18 < loc.sniLen / 2)
    ensures Twice(Arm(s, loc)) == NO_CUT && loc.sniPos != -1 ==> loc.sniPos + loc.sniLen / 2 in SplitsOf(Arm(s, loc))
  {
  }

  /** The ECH extension, if there is one, carries at least five bytes. */
  predicate EchLongEnough(es: seq<Extension>) {
    forall e :: e in es && e.EncryptedHello? ==> |e.payload| >= 5
  }

  /**
   Writing a well-formed ClientHello with a host name arms the stream: it is fair, no byte will be
   sent twice, and the host name is split in the middle.
   */
  lemma ClientHelloIsSplit(hello: ClientHello, i: nat)
    requires HelloOk(hello) && i < |hello.extensions|
    requires hello.extensions[i].ServerName? && |hello.extensions[i].host| > 0
    requires EchLongEnough(hello.extensions)
    ensures var ops := [WriteOp(Encode(hello))]; var host := hello.extensions[i].host;
      var h := Run(true, ops); var p := SniAt(hello.extensions, FirstExtension(hello), Host(-1, 0)).pos;
      && Fair(true, ops) && HasData(h.state) && h.twice == NO_CUT
      && 0 <= p && Holds(h.written, p, host) && p + |host| / 2 in h.splits
  {
    hide Locate, Encode, SniAt, EchAt, EncodeExtensions, AtMostOne, Run, Fair, HasData;
    var data, es, start := Encode(hello), hello.extensions, FirstExtension(hello);
    var host, ech := SniAt(es, start, Host(-1, 0)), EchAt(es, start, -1);
    LocateEncoded(hello);
    EncodedParts(hello);
    HostIsThere(data, start, es, i);
    assert es[i] in es;
    if ech != -1 {
      var k := EchIndex(es, start);
      assert es[k] in es;
      ExtensionsApart(es, start, k);
    }
    NameIsSplit(data);
  }

  /** The same for any complete ClientHello, in terms of what was found in it. */
  lemma NameIsSplit(data: seq<byte>)
    requires Locate(data).Found? && Locate(data).sniPos != -1 && Locate(data).sniLen > 0
    requires var loc := Locate(data);
      loc.echPos == -1 || loc.sniPos + loc.sniLen <= loc.echPos || loc.echPos + 17 < loc.sniPos + loc.sniLen / 2
    ensures var loc, h := Locate(data), Run(true, [WriteOp(data)]);
      && Fair(true, [WriteOp(data)]) && HasData(h.state) && h.twice == NO_CUT && h.written == data
      && loc.sniPos + loc.sniLen / 2 in h.splits
  {
    hide Locate, Run, Fair, Arm, Twice, SplitsOf, CutsOk;
    var s := Fresh(true).(buf := data);
    ArmedCutsOk(s, Locate(data));
    TwiceIff(s, Locate(data));
    FirstWrite(data);
  }

  lemma {:induction false} EchIndex(es: seq<Extension>, pos: nat) returns (k: nat)
    requires EchAt(es, pos, -1) != -1
    ensures k < |es| && es[k].EncryptedHello?
    decreases |es|
  {
    if es[0].EncryptedHello? {
      k := 0;
    } else {
      k := EchIndex(es[1..], pos + 4 + BodyLen(es[0]));
      k := k + 1;
    }
  }

  /** What the first write does. */
  lemma FirstWrite(data: seq<byte>)
    requires Hides(Locate(data))
    ensures var h := Run(true, [WriteOp(data)]); var s := Arm(Fresh(true).(buf := data), Locate(data));
      && h.state == s && h.written == data && h.sent == []
      && (s.first.start != -1 ==> h.twice == Twice(s) && h.splits == SplitsOf(s))
      && (Fair(true, [WriteOp(data)]) <==> Splittable(Locate(data)))
  {
    hide Locate;
    var ops := [WriteOp(data)];
    assert ops[..0] == [] && [] + data == data;
    assert Run(true, []) == History(Fresh(true), [], [], NO_CUT, {});
    assert Run(true, ops) == Step(Run(true, []), WriteOp(data));
    assert Fair(true, []);
  }

  // ------------------------------------------------------------ everything is sent

  function CutLen(c: Cut): nat { if c.start == INVALID_BYTE_COUNT then 0 else Max(0, c.end - c.start) }

  /** How many bytes are still to be handled: a bound on the number of frames to come. */
  function Left(s: State): nat
    requires Sane(s)
  {
    if s.scramble then |s.buf| - s.writeOffset + CutLen(s.first) + CutLen(s.second) else |s.buf|
  }

  lemma LeftIsOwed(h: History)
    requires Phase(h) && Sane(h.state) && !Waiting(h)
    ensures HasData(h.state) <==> !Drained(h)
    ensures Left(h.state) == 0 <==> Drained(h)
    ensures Left(h.state) <= 3 * |h.written|
  {
    hide Locate, RestOf;
  }

  lemma PopCloser(h: History, maxLen: nat)
    requires Phase(h) && Sane(h.state) && HasData(h.state) && maxLen >= 11
    ensures Sane(CryptoSpec.Pop(h.state, maxLen).state)
    ensures Left(CryptoSpec.Pop(h.state, maxLen).state) < Left(h.state)
  {
    hide Locate, RestOf;
    PopSane(h.state, maxLen);
    PopProgress(h, maxLen);
  }

  ghost predicate Pops(ops: seq<Op>) {
    forall op :: op in ops ==> op.PopOp? && op.maxLen >= 11
  }

  lemma {:induction false} PopsDrain(scramble: bool, ops: seq<Op>, more: seq<Op>)
    requires Fair(scramble, ops) && Pops(more) && !Waiting(Run(scramble, ops))
    ensures Fair(scramble, ops + more) && !Waiting(Run(scramble, ops + more))
    ensures Run(scramble, ops + more).written == Run(scramble, ops).written
    ensures Left(Run(scramble, ops + more).state) <= Max(0, Left(Run(scramble, ops).state) - |more|)
  {
    hide Waiting, Sending, Plain, Left, Balanced, Separate, AllAgree, SplitsOk, HasData, CryptoSpec.Pop, Sane;
    if more == [] {
      assert ops + more == ops;
    } else {
      var init, op := more[..|more| - 1], more[|more| - 1];
      PopsDrain(scramble, ops, init);
      assert (ops + more)[..|ops + more| - 1] == ops + init && (ops + more)[|ops + more| - 1] == op;
      assert op in more;
      var h := Run(scramble, ops + init);
      RunInv(scramble, ops + init);
      LeftIsOwed(h);
      if HasData(h.state) {
        PopStep(h, op.maxLen);
        PopCloser(h, op.maxLen);
      }
      StaysBegun(h, op.maxLen);
    }
  }

  lemma StaysBegun(h: History, maxLen: nat)
    requires Phase(h) && SplitsOk(h) && Sane(h.state) && !Waiting(h)
    ensures !Waiting(Step(h, PopOp(maxLen)))
  {
    hide Locate, RestOf, SplitsOk, Owed;
    if HasData(h.state) && Sending(h) && h.state.writeOffset == h.state.end { PopCutOwed(h.state, maxLen, 0); }
  }

  /**
   Once the ClientHello is complete, everything written goes out: frames of any size from 11 bytes on,
   three for each byte at most, empty the stream.
   */
  lemma SendsEverything(scramble: bool, ops: seq<Op>, more: seq<Op>)
    requires Fair(scramble, ops) && !Waiting(Run(scramble, ops))
    requires Pops(more) && |more| >= 3 * |Run(scramble, ops).written|
    ensures Fair(scramble, ops + more) && Drained(Run(scramble, ops + more))
    ensures Run(scramble, ops + more).written == Run(scramble, ops).written
  {
    hide Run, Fair, Left, Drained, Sending, Plain, Waiting;
    RunInv(scramble, ops);
    LeftIsOwed(Run(scramble, ops));
    PopsDrain(scramble, ops, more);
    RunInv(scramble, ops + more);
    LeftIsOwed(Run(scramble, ops + more));
  }

  /** Some byte has not been sent as often as it is going to be. */
  ghost predicate BytesMissing(h: History) {
    exists x :: 0 <= x < |h.written| && Times(h.sent, x) < 1 + One(InCut(h.twice, x))
  }

  /** Data is announced if and only if the ClientHello is complete and some byte is still to be sent. */
  lemma HasDataMeansOwed(scramble: bool, ops: seq<Op>)
    requires Fair(scramble, ops)
    ensures var h := Run(scramble, ops); HasData(h.state) <==> !Waiting(h) && BytesMissing(h)
  {
    hide Run, Fair, SplitsOk, Separate, AllAgree, Times, Locate, RestOf;
    var h := Run(scramble, ops);
    RunInv(scramble, ops);
    if HasData(h.state) {
      var x := NextOwed(h);
      assert Times(h.sent, x) + Owed(h.state, x) == 1 + One(InCut(h.twice, x));
    } else if !Waiting(h) {
      LeftIsOwed(h);
      forall x | 0 <= x < |h.written|
        ensures Times(h.sent, x) == 1 + One(InCut(h.twice, x))
      {
        assert Owed(h.state, x) == 0;
      }
    }
  }

  lemma NextOwed(h: History) returns (x: nat)
    requires Phase(h) && HasData(h.state)
    ensures x < |h.written| && Owed(h.state, x) > 0
  {
    hide Locate, RestOf;
    var s := h.state;
    x := if s.scramble && s.writeOffset == s.end then if s.first != NO_CUT then s.first.start else s.second.start
      else s.writeOffset;
  }

  // ------------------------------------------------------------ an empty write in the wrong place

  /**
   A write keeps the books if and only if it is not an empty one between the two cuts: that one brings
   back the cuts of a ClientHello whose bytes have been sent already.
   */
  lemma WriteKeepsBooksIff(h: History, p: seq<byte>)
    requires Inv(h) && Sane(h.state)
    requires Waiting(h) ==> Splittable(Locate(h.written + p))
    ensures Balanced(Step(h, WriteOp(p))) <==> !Rearms(h, p)
  {
    hide Locate, Times, SplitsOk, Separate, AllAgree;
    if Rearms(h, p) {
      var g := Step(h, WriteOp(p));
      assert h.written + p == h.written && h.written[..h.state.end] == h.written;
      var x := Armed(h.written).first.start;
      RearmedOwed(h);
      assert Times(h.sent, x) + Owed(h.state, x) == 1 + One(InCut(h.twice, x));
      assert Times(g.sent, x) + Owed(g.state, x) > 1 + One(InCut(g.twice, x));
    } else {
      WriteKeepsInv(h, p);
    }
  }

  lemma RearmedOwed(h: History)
    requires Sane(h.state) && Rearms(h, [])
    ensures Locate(h.written).Found?
    ensures var x := Armed(h.written).first.start;
      0 <= x < |h.written| && Owed(Step(h, WriteOp([])).state, x) > Owed(h.state, x)
  {
    hide Locate;
    assert h.written + [] == h.written && h.written[..h.state.end] == h.written;
    assert h.state.(buf := h.state.buf + []) == h.state;
    LocateBounds(h.written);
    var loc := Locate(h.written);
    assert h.state.second != NO_CUT && loc.echPos > 0;
    assert Step(h, WriteOp([])).state == Arm(h.state, loc);
    var a := Armed(h.written);
    assert Arm(h.state, loc).first == a.first && Arm(h.state, loc).second == a.second;
    assert InCut(h.state.second, a.first.start) ==> InCut(a.second, a.first.start);
  }

  // ------------------------------------------------------------ where the stream stalls

  /** A run whose last write completed a ClientHello with something to hide. */
  ghost predicate Arms(ops: seq<Op>) {
    && ops != [] && ops[|ops| - 1].WriteOp?
    && Waiting(Run(true, ops[..|ops| - 1]))
    && Hides(Locate(Run(true, ops[..|ops| - 1]).written + ops[|ops| - 1].p))
  }

  lemma ArmsTo(ops: seq<Op>)
    requires Arms(ops)
    ensures var h := Run(true, ops); Hides(Locate(h.written)) && h.state == Armed(h.written) && h.sent == []
  {
    hide Locate;
  }

  /** While the stream waits, nothing was ever wrong. */
  lemma {:induction false} WaitingWasFair(ops: seq<Op>)
    requires Waiting(Run(true, ops))
    ensures Fair(true, ops)
  {
    hide Waiting;
    if ops != [] {
      var init, op := ops[..|ops| - 1], ops[|ops| - 1];
      WaitedBefore(Run(true, init), op);
      WaitingWasFair(init);
    }
  }

  lemma WaitedBefore(h: History, op: Op)
    requires Sane(h.state) && Waiting(Step(h, op))
    ensures Waiting(h) && !Sending(h)
    ensures op.WriteOp? ==> Splittable(Locate(h.written + op.p))
  {
    hide Locate;
    if op.WriteOp? {
      assert h.state.buf + op.p == h.written + op.p;
      assert h.state.buf == (h.state.buf + op.p)[..|h.state.buf|];
    }
  }

  /** Cut apart at an empty host name: that cut is never finished. */
  ghost predicate StuckOnEmptyName(h: History, hello: seq<byte>) {
    && Locate(hello).Found?
    && var s, loc := h.state, Locate(hello);
    && var empty := Cut(loc.sniPos, loc.sniPos);
    && loc.sniPos != -1
    && s.scramble && s.buf == h.written && hello <= s.buf && s.end == |hello| && s.writeOffset <= s.end
    && (s.first == empty || (s.second == empty && loc.echPos > 0))
    && (s.first.start == INVALID_BYTE_COUNT ==> s.writeOffset == s.end)
    && (forall f :: f in h.sent ==> f.offset + |f.data| <= |hello|)
  }

  /** Armed with the ECH extension only: the first cut is none, and nothing is announced. */
  ghost predicate StuckWithoutName(h: History, hello: seq<byte>) {
    && Locate(hello).Found?
    && Armed(hello).first.start == INVALID_BYTE_COUNT
    && h.state == Armed(hello).(buf := h.written)
    && hello <= h.written
    && h.sent == []
  }

  lemma StaysStuckOnEmptyName(h: History, hello: seq<byte>, op: Op)
    requires Sane(h.state) && StuckOnEmptyName(h, hello) && Locate(hello).sniLen == 0
    ensures StuckOnEmptyName(Step(h, op), hello)
  {
    hide Locate;
    LocateBounds(hello);
    if op.WriteOp? { LaterLocation(hello, h.written + op.p); }
  }

  lemma StaysStuckWithoutName(h: History, hello: seq<byte>, op: Op)
    requires Sane(h.state) && StuckWithoutName(h, hello) && Hides(Locate(hello))
    ensures StuckWithoutName(Step(h, op), hello)
  {
    hide Locate;
    LocateBounds(hello);
    if op.WriteOp? { LaterLocation(hello, h.written + op.p); }
  }

  lemma LaterLocation(hello: seq<byte>, longer: seq<byte>)
    requires hello <= longer && Locate(hello).Found?
    ensures longer == hello || Locate(longer) == Incomplete
  {
    hide Locate;
    assert longer[..|hello|] == hello;
    if |longer| > |hello| { LongerIsIncomplete(longer, |hello|); } else { assert longer == hello; }
  }

  /**
   A ClientHello that cannot be taken apart stalls the stream for good, whatever is written and popped
   later. With an empty host name it goes on announcing data, but no byte behind the ClientHello is ever
   sent; without a host name nothing is announced and nothing sent.
   */
  lemma {:induction false} Stalls(ops: seq<Op>, more: seq<Op>)
    requires Arms(ops) && !Splittable(Locate(Run(true, ops).written))
    ensures var hello, h := Run(true, ops).written, Run(true, ops + more);
      && Locate(hello).Found? && h.state.scramble
      && (if Locate(hello).sniPos != -1 then StuckOnEmptyName(h, hello) && HasData(h.state)
          else StuckWithoutName(h, hello) && !HasData(h.state))
  {
    hide Locate, Step, Write, Waiting, Armed, StuckOnEmptyName, StuckWithoutName, Arms;
    var hello := Run(true, ops).written;
    ArmsTo(ops);
    if more == [] {
      assert ops + more == ops;
      StuckFromTheStart(Run(true, ops));
    } else {
      var init, op := more[..|more| - 1], more[|more| - 1];
      assert (ops + more)[..|ops + more| - 1] == ops + init && (ops + more)[|ops + more| - 1] == op;
      Stalls(ops, init);
      if Locate(hello).sniPos != -1 {
        StaysStuckOnEmptyName(Run(true, ops + init), hello, op);
      } else {
        StaysStuckWithoutName(Run(true, ops + init), hello, op);
      }
    }
    StuckMeans(Run(true, ops + more), hello);
  }

  lemma StuckFromTheStart(h: History)
    requires Hides(Locate(h.written)) && !Splittable(Locate(h.written)) && h.state == Armed(h.written) && h.sent == []
    ensures if Locate(h.written).sniPos != -1 then StuckOnEmptyName(h, h.written) else StuckWithoutName(h, h.written)
  {
    hide Locate;
    LocateBounds(h.written);
  }

  lemma StuckMeans(h: History, hello: seq<byte>)
    ensures StuckOnEmptyName(h, hello) ==> h.state.scramble && HasData(h.state)
    ensures StuckWithoutName(h, hello) ==> h.state.scramble && !HasData(h.state)
  {
    hide Locate;
    if Locate(hello).Found? { LocateBounds(hello); }
  }

  /**
   Once a ClientHello with something to hide is complete, the stream can get past it if and only if it
   has a non-empty host name or, without one, a last name of another type with two bytes or more.
   */
  lemma GetsPastIff(ops: seq<Op>)
    requires Arms(ops)
    ensures (exists more :: !Run(true, ops + more).state.scramble) <==> Splittable(Locate(Run(true, ops).written))
  {
    hide Run, Fair, Locate, Hides, Waiting, Armed;
    var h := Run(true, ops);
    if Splittable(Locate(h.written)) {
      ArmedFair(ops);
      var more := seq(3 * |h.written|, _ => PopOp(11));
      SendsEverything(true, ops, more);
      assert !Run(true, ops + more).state.scramble;
    } else {
      forall more ensures Run(true, ops + more).state.scramble { Stalls(ops, more); }
    }
  }

  lemma ArmedFair(ops: seq<Op>)
    requires Arms(ops) && Splittable(Locate(Run(true, ops).written))
    ensures Fair(true, ops) && !Waiting(Run(true, ops))
  {
    hide Locate;
    WaitingWasFair(ops[..|ops| - 1]);
    ArmsTo(ops);
    LocateBounds(Run(true, ops).written);
  }

  // ------------------------------------------------------------ which ClientHellos stall

  /** Something to hide and no host name to cut: an empty one, or an ECH extension alone. */
  ghost predicate Unsendable(es: seq<Extension>) {
    ServerName([]) in es || (NoServerName(es) && !NoEncryptedHello(es))
  }

  /** A well-formed ClientHello can be sent if and only if it is not of that kind. */
  lemma SendableIff(hello: ClientHello)
    requires HelloOk(hello)
    ensures Splittable(Locate(Encode(hello))) <==> !Unsendable(hello.extensions)
    ensures Unsendable(hello.extensions) ==> Hides(Locate(Encode(hello)))
  {
    hide Locate, Encode, SniAt, EchAt, EncodeExtensions, AtMostOne, Prefix;
    var data, es, start := Encode(hello), hello.extensions, FirstExtension(hello);
    LocateEncoded(hello);
    EncodedParts(hello);
    AbsentAt(es, start, Host(-1, 0), -1);
    forall i: nat | i < |es|
      ensures es[i].ServerName? ==>
        var host := SniAt(es, start, Host(-1, 0)); host.pos >= 0 && host.len == |es[i].host|
      ensures es[i].EncryptedHello? ==> EchAt(es, start, -1) >= 0
    {
      HostIsThere(data, start, es, i);
    }
    if !NoServerName(es) {
      var i :| 0 <= i < |es| && es[i].ServerName?;
      OneServerName(es, i);
    }
  }

  lemma OneServerName(es: seq<Extension>, i: nat)
    requires AtMostOne(es) && i < |es| && es[i].ServerName?
    ensures ServerName([]) in es <==> es[i] == ServerName([])
  {
  }

  /** Such a ClientHello stalls the stream, whatever comes later. */
  lemma UnsendableStalls(hello: ClientHello, more: seq<Op>)
    requires HelloOk(hello) && Unsendable(hello.extensions)
    ensures var h := Run(true, [WriteOp(Encode(hello))] + more);
      h.state.scramble && (ServerName([]) !in hello.extensions ==> h.sent == [] && !HasData(h.state))
  {
    hide Locate, Encode, Splittable, Hides, Step, StuckOnEmptyName;
    var data := Encode(hello);
    SendableIff(hello);
    FirstWriteArms(data);
    Stalls([WriteOp(data)], more);
    if ServerName([]) !in hello.extensions {
      LocateEncoded(hello);
      AbsentAt(hello.extensions, FirstExtension(hello), Host(-1, 0), -1);
    }
  }

  lemma FirstWriteArms(data: seq<byte>)
    requires Hides(Locate(data))
    ensures Arms([WriteOp(data)]) && Run(true, [WriteOp(data)]).written == data
  {
    hide Locate;
    var ops := [WriteOp(data)];
    assert ops[..|ops| - 1] == [] && [] + data == data;
    assert Run(true, []) == History(Fresh(true), [], [], NO_CUT, {});
    FirstWrite(data);
  }

  /** There are such ClientHellos: this one has an empty host name and nothing else. */
  lemma EmptyNameHello(more: seq<Op>)
    ensures var hello := ClientHello(seq(2, _ => 3), seq(32, _ => 7), [], [], [], [ServerName([])]);
      HelloOk(hello) && Unsendable(hello.extensions) && Run(true, [WriteOp(Encode(hello))] + more).state.scramble
  {
    var hello := ClientHello(seq(2, _ => 3), seq(32, _ => 7), [], [], [], [ServerName([])]);
    assert hello.extensions[1..] == [] && ServerName([]) in hello.extensions;
    UnsendableStalls(hello, more);
  }

  // ------------------------------------------------------------ the order of the frames

  /** Which part of the ClientHello byte x is in: between the cuts, in the first, in the second, or behind it. */
  function PartOf(a: State, x: int): nat {
    if x >= a.end then 3 else if InCut(a.first, x) then 1 else if InCut(a.second, x) then 2 else 0
  }

  /** Held back until the rest was sent: the second half of the server name, and 16 bytes of the ECH extension. */
  lemma HiddenBytes(data: seq<byte>, x: nat)
    requires Hides(Locate(data)) && Splittable(Locate(data)) && x < |data|
    ensures var loc := Locate(data);
      PartOf(Armed(data), x) == 0 <==>
        && !(loc.sniPos + loc.sniLen / 2 <= x < loc.sniPos + loc.sniLen)
        && !(loc.echPos > 0 && loc.echPos < x <= loc.echPos + 16)
  {
    hide Locate;
    ArmedCutsOk(Fresh(true).(buf := data), Locate(data));
    LocateBounds(data);
  }

  /** f comes before g: what is between the cuts goes first, then the cuts, then the rest; each from front to back. */
  predicate Earlier(a: State, f: CryptoFrame, g: CryptoFrame) {
    || PartOf(a, f.offset) < PartOf(a, g.offset)
    || (PartOf(a, f.offset) == PartOf(a, g.offset) && f.offset + |f.data| <= g.offset)
  }

  /** Frame f lies behind the place where the stream is now. */
  predicate SentBefore(s: State, a: State, f: CryptoFrame) {
    var part, e := PartOf(a, f.offset), f.offset + |f.data|;
    if !s.scramble then part < 3 || e <= s.writeOffset
    else if s.writeOffset < s.end then part == 0 && e <= s.writeOffset
    else
      || part == 0
      || (part == 1 && (s.first == NO_CUT || e <= s.first.start))
      || (part == 2 && s.first == NO_CUT && e <= s.second.start)
  }

  predicate Aligned(s: State, a: State) {
    && 0 < a.end && CutOk(a.first, a.end) &&
         (a.second == NO_CUT || (CutOk(a.second, a.end) && a.first.end < a.second.start))
    && (s.scramble ==>
          && s.end == a.end && CutsOk(s) && RestOf(s, a)
          && (s.writeOffset < s.end ==>
                s.first == a.first && s.second == a.second && PartOf(a, s.writeOffset) == 0))
    && (!s.scramble ==> s.writeOffset >= a.end)
  }

  ghost predicate InOrder(h: History, a: State) {
    && Aligned(h.state, a)
    && (forall f :: f in h.sent ==> SentBefore(h.state, a, f))
    && (forall i, j :: 0 <= i < j < |h.sent| ==> Earlier(a, h.sent[i], h.sent[j]))
  }

  /** The next frame comes after f, which was sent before, and the stream is behind both afterwards. */
  ghost predicate GoesOn(s: State, a: State, r: Popped, f: CryptoFrame) {
    && Aligned(r.state, a)
    && (SentBefore(s, a, f) ==> SentBefore(r.state, a, f))
    && (r.frame.Some? ==> SentBefore(r.state, a, r.frame.value))
    && (r.frame.Some? && SentBefore(s, a, f) ==> Earlier(a, f, r.frame.value))
  }

  lemma PlainGoesOn(s: State, a: State, maxLen: nat, f: CryptoFrame)
    requires Sane(s) && Aligned(s, a) && !s.scramble
    ensures GoesOn(s, a, PopPlain(s, maxLen), f)
  {
    hide CryptoMaxDataLen;
  }

  lemma BetweenGoesOn(s: State, a: State, maxLen: nat, f: CryptoFrame)
    requires Sane(s) && Aligned(s, a) && s.scramble && s.writeOffset < s.end
    ensures GoesOn(s, a, PopBetween(s, maxLen), f)
  {
    hide CryptoMaxDataLen;
    PopBetweenOwed(s, maxLen, 0);
  }

  lemma CutGoesOn(s: State, a: State, maxLen: nat, f: CryptoFrame)
    requires Sane(s) && Aligned(s, a) && s.scramble && s.writeOffset == s.end
    ensures GoesOn(s, a, PopCut(s, maxLen), f)
  {
    hide CryptoMaxDataLen;
    PopCutOwed(s, maxLen, 0);
  }

  lemma NextInOrder(s: State, a: State, maxLen: nat, f: CryptoFrame)
    requires Sane(s) && Aligned(s, a)
    ensures GoesOn(s, a, CryptoSpec.Pop(s, maxLen), f)
  {
    hide GoesOn, PopPlain, PopBetween, PopCut;
    if !s.scramble {
      PlainGoesOn(s, a, maxLen, f);
    } else if s.writeOffset == s.end {
      CutGoesOn(s, a, maxLen, f);
    } else {
      BetweenGoesOn(s, a, maxLen, f);
    }
  }

  /** Writing moves nothing. */
  lemma WriteInOrder(h: History, a: State, p: seq<byte>)
    requires Sane(h.state) && InOrder(h, a) && Phase(h) && !Waiting(h) && !Rearms(h, p)
    ensures InOrder(Step(h, WriteOp(p)), a)
  {
    hide Locate, Earlier;
    if Sending(h) {
      assert (h.written + p)[..h.state.end] == h.written[..h.state.end];
      if h.state.end < |h.written + p| { LongerIsIncomplete(h.written + p, h.state.end); }
    }
  }

  /**
   The frames of a ClientHello that is cut apart cleanly go out in one order, for every choice of budgets: first
   everything between the cuts, then the first cut, then the second, then what was written later.
   */
  lemma {:induction false} ScrambledOrder(ops: seq<Op>, more: seq<Op>)
    requires Arms(ops) && Fair(true, ops + more) && Splittable(Locate(Run(true, ops).written))
    requires Twice(Armed(Run(true, ops).written)) == NO_CUT
    ensures InOrder(Run(true, ops + more), Armed(Run(true, ops).written)) && !Waiting(Run(true, ops + more))
  {
    hide Locate, Arms, InOrder, Armed, Waiting, HasData, CryptoSpec.Pop, Write, Rearms;
    ArmsTo(ops);
    var a := Armed(Run(true, ops).written);
    if more == [] {
      assert ops + more == ops;
      OrderAtStart(Run(true, ops));
      ArmedFair(ops);
    } else {
      var init, op := more[..|more| - 1], more[|more| - 1];
      assert (ops + more)[..|ops + more| - 1] == ops + init && (ops + more)[|ops + more| - 1] == op;
      ScrambledOrder(ops, init);
      var h := Run(true, ops + init);
      RunInv(true, ops + init);
      match op {
        case WriteOp(p) =>
          WriteInOrder(h, a, p);
          StaysBegunWriting(h, p);
        case PopOp(maxLen) =>
          PopInOrder(h, a, maxLen);
          StaysBegun(h, maxLen);
      }
    }
  }

  lemma StaysBegunWriting(h: History, p: seq<byte>)
    requires Phase(h) && Sane(h.state) && !Waiting(h) && !Rearms(h, p)
    ensures !Waiting(Step(h, WriteOp(p)))
  {
    hide Locate;
    if Waiting(Step(h, WriteOp(p))) {
      WaitedBefore(h, WriteOp(p));
      assert false;
    }
  }

  lemma OrderAtStart(h: History)
    requires Hides(Locate(h.written)) && Splittable(Locate(h.written)) && h.state == Armed(h.written) && h.sent == []
    requires Twice(Armed(h.written)) == NO_CUT
    ensures InOrder(h, Armed(h.written))
  {
    hide Locate;
    ArmedCutsOk(Fresh(true).(buf := h.written), Locate(h.written));
    LocateBounds(h.written);
  }

  lemma PopInOrder(h: History, a: State, maxLen: nat)
    requires Sane(h.state) && InOrder(h, a)
    ensures InOrder(Step(h, PopOp(maxLen)), a)
  {
    hide CryptoSpec.Pop, HasData, Aligned, SentBefore, Earlier, Sane;
    if HasData(h.state) {
      var r, g := CryptoSpec.Pop(h.state, maxLen), Step(h, PopOp(maxLen));
      NextInOrder(h.state, a, maxLen, CryptoFrame(0, []));
      forall f | f in h.sent
        ensures SentBefore(r.state, a, f) && (r.frame.Some? ==> Earlier(a, f, r.frame.value))
      {
        NextInOrder(h.state, a, maxLen, f);
      }
      if r.frame.Some? {
        assert g.sent == h.sent + [r.frame.value];
      } else {
        assert g.sent == h.sent;
      }
    }
  }
}
