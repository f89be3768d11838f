/**
 deps/quic-go/crypto_stream.go: the sending side of the Initial crypto stream, which cuts a
 ClientHello apart and sends the pieces out of order. One call as a function on states; over
 every run, how often each byte is sent.
 */
module CryptoSpec {
  import opened Protocol
  import opened Wire
  import opened Sni

  datatype Cut = Cut(start: int, end: int)

  const NO_CUT: Cut := Cut(INVALID_BYTE_COUNT, INVALID_BYTE_COUNT)

  /** buf still holds everything from offset 0 on while scrambling, and only the unsent rest afterwards. */
  datatype State = State(writeOffset: nat, buf: seq<byte>, scramble: bool, end: int, first: Cut, second: Cut)

  function Fresh(scramble: bool): State {
    State(0, [], scramble, 0, NO_CUT, NO_CUT)
  }

  predicate HasData(s: State) {
    !(s.scramble && s.writeOffset == 0 && s.first.start == INVALID_BYTE_COUNT) && |s.buf| > 0
  }

  // ------------------------------------------------------------ writing

  /** The middle of the server name, to its end. */
  function SniCut(loc: Location): Cut
    requires loc.Found?
  {
    Cut(loc.sniPos + loc.sniLen / 2, loc.sniPos + loc.sniLen)
  }

  /** From the middle of the ECH extension's type, 16 bytes if there are that many. */
  function EchCut(loc: Location, n: nat): Cut
    requires loc.Found?
  {
    if loc.echPos > 0 then Cut(loc.echPos + 1, Min(loc.echPos + 17, n)) else NO_CUT
  }

  /** What sorting two cuts with the source's comparison does: it swaps them if the second is no later. */
  predicate Swaps(a: Cut, b: Cut) {
    b.start != INVALID_BYTE_COUNT && b.start <= a.start
  }

  function Arm(s: State, loc: Location): State
    requires loc.Found?
  {
    var a, b := SniCut(loc), if loc.echPos > 0 then EchCut(loc, |s.buf|) else s.second;
    s.(end := |s.buf|, first := if Swaps(a, b) then b else a, second := if Swaps(a, b) then a else b)
  }

  datatype Written = Written(state: State, failed: bool)

  function Write(s: State, p: seq<byte>): Written {
    var t := s.(buf := s.buf + p);
    if !s.scramble || s.first.start != INVALID_BYTE_COUNT then Written(t, false)
    else
      match Locate(t.buf)
      case Incomplete => Written(t, false)
      case Malformed => Written(t, true)
      case Found(sniPos, _, echPos) =>
        Written(if sniPos == -1 && echPos == -1 then t.(scramble := false) else Arm(t, Locate(t.buf)), false)
  }

  // ------------------------------------------------------------ popping

  predicate InsideBuffer(c: Cut, end: int) {
    c.start == INVALID_BYTE_COUNT || (0 <= c.start <= c.end <= end)
  }

  /** What keeps every slice in range. */
  predicate Sane(s: State) {
    s.scramble ==>
      && s.writeOffset <= s.end <= |s.buf|
      && InsideBuffer(s.first, s.end) && InsideBuffer(s.second, s.end)
  }

  datatype Popped = Popped(state: State, frame: Option<CryptoFrame>)

  /** The data buf[from..from + n] as a frame, with n limited by the budget. */
  function Limit(offset: nat, available: int, maxLen: nat): int {
    Min(CryptoMaxDataLen(offset, maxLen), available)
  }

  function PopPlain(s: State, maxLen: nat): Popped {
    var n := Limit(s.writeOffset, |s.buf|, maxLen);
    if n <= 0 then Popped(s, None)
    else Popped(s.(buf := s.buf[n..], writeOffset := s.writeOffset + n), Some(CryptoFrame(s.writeOffset, s.buf[..n])))
  }

  function Shorten(c: Cut, n: int): Cut {
    if c.start + n == c.end then NO_CUT else Cut(c.start + n, c.end)
  }

  /** Nothing is left of the ClientHello: from here on the buffer holds unsent data only. */
  function Finish(s: State): State
    requires Sane(s) && s.scramble
  {
    s.(buf := s.buf[s.end..], end := INVALID_BYTE_COUNT, scramble := false)
  }

  /** A piece of a cut, once everything between the cuts has been sent. */
  function PopCut(s: State, maxLen: nat): Popped
    requires Sane(s) && s.scramble
  {
    if s.first.start == INVALID_BYTE_COUNT && s.second.start == INVALID_BYTE_COUNT then Popped(Finish(s), None)
    else
      var fromFirst := s.first.start != INVALID_BYTE_COUNT;
      var c := if fromFirst then s.first else s.second;
      var n := Limit(c.start, c.end - c.start, maxLen);
      if n <= 0 then Popped(s, None)
      else
        var left := Shorten(c, n);
        var t := if fromFirst then s.(first := left) else s.(second := left);
        var last := left == NO_CUT && (!fromFirst || s.second.start == INVALID_BYTE_COUNT);
        Popped(if last then Finish(t) else t, Some(CryptoFrame(c.start, s.buf[c.start..c.start + n])))
  }

  /** The first cut that begins behind the write offset. */
  function NextCut(s: State): Cut {
    if s.first.start != INVALID_BYTE_COUNT && s.first.start > s.writeOffset then s.first
    else if s.second.start != INVALID_BYTE_COUNT && s.second.start > s.writeOffset then s.second
    else NO_CUT
  }

  /** A piece from between the cuts. */
  function PopBetween(s: State, maxLen: nat): Popped
    requires Sane(s) && s.scramble
  {
    var next := NextCut(s);
    var maxOffset := if next.start == INVALID_BYTE_COUNT then s.end else next.start;
    var n := Limit(s.writeOffset, maxOffset - s.writeOffset, maxLen);
    if n <= 0 then Popped(s, None)
    else
      var upto := s.writeOffset + n;
      Popped(s.(writeOffset := if upto == next.start then next.end else upto),
             Some(CryptoFrame(s.writeOffset, s.buf[s.writeOffset..upto])))
  }

  function Pop(s: State, maxLen: nat): Popped
    requires Sane(s)
  {
    if !s.scramble then PopPlain(s, maxLen)
    else if s.writeOffset == s.end then PopCut(s, maxLen)
    else PopBetween(s, maxLen)
  }

  lemma PopSane(s: State, maxLen: nat)
    requires Sane(s)
    ensures Sane(Pop(s, maxLen).state)
  {
  }

  /** No write leads to a slice out of range, whatever is written and when. */
  lemma WriteSane(s: State, p: seq<byte>)
    requires Sane(s)
    ensures Sane(Write(s, p).state)
  {
    hide Locate;
    var buf := s.buf + p;
    var loc := Locate(buf);
    if loc.Found? { LocateBounds(buf); }
  }

  lemma LocateBounds(data: seq<byte>)
    requires Locate(data).Found?
    ensures var loc := Locate(data);
      && loc.sniLen <= |data| && loc.sniPos >= -1 && loc.echPos >= -1 && loc.sniPos != 0 && loc.echPos != 0
      && (loc.sniPos != -1 ==> loc.sniPos + loc.sniLen <= |data|)
      && (loc.echPos != -1 ==> 38 < loc.echPos && loc.echPos + 4 <= |data|)
  {
  }

  // ------------------------------------------------------------ what is still owed

  predicate InCut(c: Cut, x: int) {
    c.start != INVALID_BYTE_COUNT && c.start <= x < c.end
  }

  function One(b: bool): nat { if b then 1 else 0 }

  /** Byte x is still to be sent in passing, not as part of a cut. */
  predicate Passed(s: State, x: int) {
    && x >= s.writeOffset
    && !(s.writeOffset < s.first.start && InCut(s.first, x))
    && !(s.second.start > (if s.writeOffset < s.first.start then s.first.end else s.writeOffset) && InCut(s.second, x))
  }

  /** How many more times byte x will be sent. */
  function Owed(s: State, x: int): nat {
    One(Passed(s, x)) + One(InCut(s.first, x)) + One(InCut(s.second, x))
  }

  predicate CutOk(c: Cut, end: int) {
    0 <= c.start < c.end <= end
  }

  /** The cuts as they stand while the ClientHello is being sent. */
  predicate CutsOk(s: State) {
    && 0 < s.end
    && s.writeOffset <= s.end
    && (s.first == NO_CUT || CutOk(s.first, s.end))
    && (s.second == NO_CUT || CutOk(s.second, s.end))
    && (s.writeOffset < s.end ==>
          && s.first != NO_CUT
          && (s.writeOffset < s.first.start || s.first.end <= s.writeOffset || s.first.start == 0)
          && (s.first.start == 0 ==> s.second == NO_CUT || s.first.end <= s.second.start)
          && (s.second == NO_CUT || s.first.start <= s.second.start))
    && (s.writeOffset == s.end ==> s.first != NO_CUT || s.second != NO_CUT)
  }

  predicate Covers(f: Option<CryptoFrame>, x: int) {
    f.Some? && f.value.offset <= x < f.value.offset + |f.value.data|
  }

  lemma PopBetweenOwed(s: State, maxLen: nat, x: int)
    requires Sane(s) && s.scramble && CutsOk(s) && s.writeOffset < s.end
    ensures var r := PopBetween(s, maxLen);
      CutsOk(r.state) && Owed(s, x) == Owed(r.state, x) + One(Covers(r.frame, x))
  {
  }

  lemma PopCutOwed(s: State, maxLen: nat, x: int)
    requires Sane(s) && s.scramble && CutsOk(s) && s.writeOffset == s.end
    ensures var r := PopCut(s, maxLen);
      && (if r.state.scramble then CutsOk(r.state) else r.state.first == r.state.second == NO_CUT)
      && (0 <= x ==> Owed(s, x) == Owed(r.state, x) + One(Covers(r.frame, x)))
  {
  }

  // ------------------------------------------------------------ how long a frame is

  /** The byte with which the next frame begins. */
  function NextOffset(s: State): int {
    if !s.scramble || s.writeOffset < s.end then s.writeOffset
    else if s.first.start != INVALID_BYTE_COUNT then s.first.start
    else s.second.start
  }

  /** A place where a frame has to end: the beginning or the end of a cut, or the end of what is to be sent. */
  predicate EndsPiece(s: State, e: int) {
    if s.scramble then e in {s.first.start, s.first.end, s.second.start, s.second.end, s.end}
    else e == s.writeOffset + |s.buf|
  }

  /** A frame is as long as it can be; there is none only if not even one byte fits. */
  lemma PopLongest(s: State, maxLen: nat)
    requires Sane(s) && (s.scramble ==> CutsOk(s)) && (!s.scramble ==> |s.buf| > 0)
    ensures var f := Pop(s, maxLen).frame;
      && NextOffset(s) >= 0
      && (f == None <==> CryptoLengthWith(NextOffset(s), 1) > maxLen)
      && (f.Some? ==>
            && f.value.offset == NextOffset(s)
            && (EndsPiece(s, f.value.offset + |f.value.data|) ||
                CryptoLengthWith(f.value.offset, |f.value.data| + 1) > maxLen))
  {
    hide CryptoLengthWith, CryptoMaxDataLen;
    CryptoMaxDataLenMaximal(NextOffset(s), maxLen);
  }
}
