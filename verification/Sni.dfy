/**
 deps/quic-go/sni.go: finding the server name and the Encrypted Client Hello extension in a
 ClientHello, and the proof that a well-formed ClientHello is searched correctly.
 */
module Sni {
  import opened Protocol

  const EXT_TYPE_SNI: int := 0
  const EXT_TYPE_ECH: int := 0xfe0d

  /** Positions are -1 for what is not there. */
  datatype Location = Incomplete | Malformed | Found(sniPos: int, sniLen: nat, echPos: int)

  datatype Host = Host(pos: int, len: nat)

  function U16(data: seq<byte>, i: nat): (r: nat)
    requires i + 2 <= |data|
    ensures r < 65536
  {
    data[i] as int * 256 + data[i + 1] as int
  }

  function U24(data: seq<byte>, i: nat): (r: nat)
    requires i + 3 <= |data|
  {
    data[i] as int * 65536 + data[i + 1] as int * 256 + data[i + 2] as int
  }

  /** The position after a vector whose length is written in the width bytes at pos. */
  function AfterVector(data: seq<byte>, pos: nat, width: nat): (r: Option<nat>)
    requires width in {1, 2}
    ensures r.Some? ==> pos + width <= r.value <= |data|
  {
    if pos + width > |data| then None
    else
      var n := if width == 1 then data[pos] as int else U16(data, pos);
      if pos + width + n > |data| then None else Some(pos + width + n)
  }

  /** Where the block of extensions begins, length included: after version, random and three vectors. */
  function ExtensionsPos(data: seq<byte>): (r: Option<nat>)
    ensures r.Some? ==> 38 <= r.value <= |data|
  {
    if 38 > |data| then None
    else
      var session := AfterVector(data, 38, 1);
      if session == None then None
      else
        var suites := AfterVector(data, session.value, 2);
        if suites == None then None else AfterVector(data, suites.value, 1)
  }

  function Locate(data: seq<byte>): (r: Location)
    ensures r.Found? && r.sniPos != -1 ==> 0 < r.sniPos && r.sniPos + r.sniLen <= |data|
    ensures r.Found? && r.echPos != -1 ==> 38 < r.echPos && r.echPos + 4 <= |data|
    ensures r.Found? && r.sniPos != -1 && r.echPos != -1 ==>
            r.sniPos + r.sniLen <= r.echPos || r.echPos + 13 <= r.sniPos
    ensures r.Found? ==> |data| >= 4 && |data| == 4 + U24(data, 1) && r.sniLen <= |data|
  {
    if |data| < 4 then Incomplete
    else if data[0] != 1 then Malformed
    else if |data| != 4 + U24(data, 1) then Incomplete
    else
      var p := ExtensionsPos(data);
      if p == None then Incomplete
      else
        var end := AfterVector(data, p.value, 2);
        if end == None then Incomplete else Scan(data, p.value + 2, end.value, -1, 0, -1)
  }

  /** A position pair that was found before pos. */
  predicate FoundBefore(pos: int, sniPos: int, sniLen: nat, echPos: int) {
    && sniLen <= pos
    && (sniPos != -1 ==> 0 < sniPos && sniPos + sniLen <= pos)
    && (echPos != -1 ==> 38 < echPos && echPos + 4 <= pos)
    && (sniPos != -1 && echPos != -1 ==> sniPos + sniLen <= echPos || echPos + 13 <= sniPos)
  }

  /** The extensions from pos on, given what was found before. */
  function Scan(data: seq<byte>, pos: nat, end: nat, sniPos: int, sniLen: nat, echPos: int): (r: Location)
    requires 38 < pos <= end <= |data| && FoundBefore(pos, sniPos, sniLen, echPos)
    ensures r.Found? ==> FoundBefore(end, r.sniPos, r.sniLen, r.echPos)
    decreases end - pos
  {
    if pos + 4 > end || (sniPos != -1 && echPos != -1) then Found(sniPos, sniLen, echPos)
    else
      var next := pos + 4 + U16(data, pos + 2);
      if next > end then Incomplete
      else if U16(data, pos) == EXT_TYPE_SNI then
        if sniPos != -1 then Malformed
        else
          var host := HostName(data, pos + 4, next, sniLen);
          if host == None then Incomplete else Scan(data, next, end, host.value.pos, host.value.len, echPos)
      else if U16(data, pos) == EXT_TYPE_ECH then
        if echPos != -1 then Malformed else Scan(data, next, end, sniPos, sniLen, pos)
      else Scan(data, next, end, sniPos, sniLen, echPos)
  }

  /** Position and length of the first host name in the server name list data[from..to]. */
  function HostName(data: seq<byte>, from: nat, to: nat, sniLen: nat): (r: Option<Host>)
    requires from <= to <= |data|
    ensures r.Some? && sniLen <= to ==> r.value.len <= to
    ensures r.Some? ==> r.value.pos == -1 || (from + 5 <= r.value.pos && r.value.pos + r.value.len <= to)
  {
    if to - from < 2 || to - from != 2 + U16(data, from) then None else Names(data, from + 2, to, sniLen)
  }

  function Names(data: seq<byte>, pos: nat, to: nat, sniLen: nat): (r: Option<Host>)
    requires pos <= to <= |data|
    ensures r.Some? && sniLen <= to ==> r.value.len <= to
    ensures r.Some? ==> r.value.pos == -1 || (pos + 3 <= r.value.pos && r.value.pos + r.value.len <= to)
    decreases |data| - pos
  {
    if pos + 3 > to then Some(Host(-1, sniLen))
    else
      var n := U16(data, pos + 1);
      if pos + 3 + n > to then None
      else if data[pos] == 0 then Some(Host(pos + 3, n))
      else Names(data, pos + 3 + n, to, n)
  }

  /** findSNIAndECH; no index ever leaves the data. */
  method FindSNIAndECH(data: seq<byte>) returns (r: Location)
    ensures r == Locate(data)
    ensures |data| >= 4 && data[0] != 1 ==> r == Malformed
  {
    if |data| < 4 { return Incomplete; }
    if data[0] != 1 { return Malformed; }
    var handshakeLen := U24(data, 1);
    if |data| != 4 + handshakeLen { return Incomplete; }
    var parsePos := 4;
    if parsePos + 2 > |data| { return Incomplete; }
    parsePos := parsePos + 2;
    if parsePos + 32 > |data| { return Incomplete; }
    parsePos := parsePos + 32;
    if parsePos + 1 > |data| { return Incomplete; }
    var sessionIDLen := data[parsePos] as int;
    parsePos := parsePos + 1;
    if parsePos + sessionIDLen > |data| { return Incomplete; }
    parsePos := parsePos + sessionIDLen;
    if parsePos + 2 > |data| { return Incomplete; }
    var cipherSuitesLen := U16(data, parsePos);
    parsePos := parsePos + 2;
    if parsePos + cipherSuitesLen > |data| { return Incomplete; }
    parsePos := parsePos + cipherSuitesLen;
    if parsePos + 1 > |data| { return Incomplete; }
    var compressionMethodsLen := data[parsePos] as int;
    parsePos := parsePos + 1;
    if parsePos + compressionMethodsLen > |data| { return Incomplete; }
    parsePos := parsePos + compressionMethodsLen;
    if parsePos + 2 > |data| { return Incomplete; }
    var extensionsLen := U16(data, parsePos);
    parsePos := parsePos + 2;
    if parsePos + extensionsLen > |data| { return Incomplete; }
    r := ScanExtensions(data, parsePos, extensionsLen);
  }

  /** The loop over the extensions, which begin at start. */
  method ScanExtensions(data: seq<byte>, start: nat, extensionsLen: nat) returns (r: Location)
    requires 38 < start && start + extensionsLen <= |data|
    ensures r == Scan(data, start, start + extensionsLen, -1, 0, -1)
  {
    var extPos, sniPos, sniLen, echPos := 0, -1, 0, -1;
    while extPos + 4 <= extensionsLen
      invariant 0 <= extPos <= extensionsLen && sniLen >= 0
      invariant FoundBefore(start + extPos, sniPos, sniLen, echPos)
      invariant Scan(data, start, start + extensionsLen, -1, 0, -1)
             == Scan(data, start + extPos, start + extensionsLen, sniPos, sniLen, echPos)
      decreases extensionsLen - extPos
    {
      if sniPos != -1 && echPos != -1 { break; }
      var extType, extLen := U16(data, start + extPos), U16(data, start + extPos + 2);
      if extPos + 4 + extLen > extensionsLen { return Incomplete; }
      if extType == EXT_TYPE_SNI {
        if sniPos != -1 { return Malformed; }
        var host := FindHostName(data, start + extPos + 4, start + extPos + 4 + extLen, sniLen);
        if host == None { return Incomplete; }
        sniPos, sniLen := host.value.pos, host.value.len;
      } else if extType == EXT_TYPE_ECH {
        if echPos != -1 { return Malformed; }
        echPos := start + extPos;
      }
      extPos := extPos + 4 + extLen;
    }
    return Found(sniPos, sniLen, echPos);
  }

  /** The loop over one server name list. */
  method FindHostName(data: seq<byte>, from: nat, to: nat, sniLen0: nat) returns (r: Option<Host>)
    requires from <= to <= |data|
    ensures r == HostName(data, from, to, sniLen0)
  {
    if to - from < 2 { return None; }
    var nameListLen := U16(data, from);
    if to - from != 2 + nameListLen { return None; }
    var listPos, sniLen := 2, sniLen0;
    while listPos + 3 <= nameListLen + 2
      invariant 2 <= listPos <= nameListLen + 2
      invariant sniLen >= 0
      invariant HostName(data, from, to, sniLen0) == Names(data, from + listPos, to, sniLen)
      decreases nameListLen + 2 - listPos
    {
      sniLen := U16(data, from + listPos + 1);
      if listPos + 3 + sniLen > to - from { return None; }
      if data[from + listPos] == 0 { return Some(Host(from + listPos + 3, sniLen)); }
      listPos := listPos + 3 + sniLen;
    }
    return Some(Host(-1, sniLen));
  }

  /** Once a ClientHello is complete, more data makes it look incomplete again. */
  lemma LongerIsIncomplete(data: seq<byte>, n: nat)
    requires n < |data| && Locate(data[..n]).Found?
    ensures Locate(data) == Incomplete
  {
    hide Scan, ExtensionsPos, AfterVector;
    assert data[..n][0] == data[0] && data[..n][1] == data[1] && data[..n][2] == data[2] && data[..n][3] == data[3];
  }

  // ------------------------------------------------------- well-formed ClientHellos

  datatype Extension =
    | ServerName(host: seq<byte>)
    | EncryptedHello(payload: seq<byte>)
    | Other(kind: nat, body: seq<byte>)

  datatype ClientHello = ClientHello(
    version: seq<byte>, random: seq<byte>, session: seq<byte>, suites: seq<byte>, compression: seq<byte>,
    extensions: seq<Extension>)

  function Put16(n: nat): (r: seq<byte>)
    requires n < 65536
    ensures |r| == 2 && U16(r, 0) == n
  {
    [(n / 256) as byte, (n % 256) as byte]
  }

  function Put24(n: nat): (r: seq<byte>)
    requires n < 65536 * 256
    ensures |r| == 3 && U24(r, 0) == n
  {
    [(n / 65536) as byte, (n / 256 % 256) as byte, (n % 256) as byte]
  }

  function Kind(e: Extension): nat {
    match e
    case ServerName(_) => EXT_TYPE_SNI
    case EncryptedHello(_) => EXT_TYPE_ECH
    case Other(kind, _) => kind
  }

  function BodyLen(e: Extension): nat {
    match e
    case ServerName(host) => 5 + |host|
    case EncryptedHello(payload) => |payload|
    case Other(_, body) => |body|
  }

  predicate ExtensionOk(e: Extension) {
    && BodyLen(e) < 65536
    && Kind(e) < 65536
    && (e.Other? ==> e.kind != EXT_TYPE_SNI && e.kind != EXT_TYPE_ECH)
  }

  function Body(e: Extension): (r: seq<byte>)
    requires ExtensionOk(e)
    ensures |r| == BodyLen(e)
  {
    match e
    case ServerName(host) => Put16(3 + |host|) + [0] + Put16(|host|) + host
    case EncryptedHello(payload) => payload
    case Other(_, body) => body
  }

  function EncodeExtension(e: Extension): (r: seq<byte>)
    requires ExtensionOk(e)
    ensures |r| == 4 + BodyLen(e)
  {
    Put16(Kind(e)) + Put16(BodyLen(e)) + Body(e)
  }

  predicate ExtensionsOk(es: seq<Extension>) {
    forall e :: e in es ==> ExtensionOk(e)
  }

  function EncodeExtensions(es: seq<Extension>): seq<byte>
    requires ExtensionsOk(es)
  {
    if es == [] then [] else EncodeExtension(es[0]) + EncodeExtensions(es[1..])
  }

  function Prefix(h: ClientHello): seq<byte>
    requires |h.session| < 256 && |h.suites| < 65536 && |h.compression| < 256
  {
    h.version + h.random + [|h.session| as byte] + h.session + Put16(|h.suites|) + h.suites
    + [|h.compression| as byte] + h.compression
  }

  /** It can be encoded. */
  predicate FormOk(h: ClientHello) {
    && |h.version| == 2 && |h.random| == 32
    && |h.session| < 256 && |h.suites| < 65536 && |h.compression| < 256
    && ExtensionsOk(h.extensions) && |EncodeExtensions(h.extensions)| < 65536
  }

  predicate HelloOk(h: ClientHello) { FormOk(h) && AtMostOne(h.extensions) }

  predicate AtMostOne(es: seq<Extension>) {
    && (forall i, j :: 0 <= i < j < |es| ==> !(es[i].ServerName? && es[j].ServerName?))
    && (forall i, j :: 0 <= i < j < |es| ==> !(es[i].EncryptedHello? && es[j].EncryptedHello?))
  }

  function Encode(h: ClientHello): seq<byte>
    requires FormOk(h)
  {
    var exts := EncodeExtensions(h.extensions);
    var body := Prefix(h) + Put16(|exts|) + exts;
    [1] + Put24(|body|) + body
  }

  /** data holds piece at position pos. */
  predicate Holds(data: seq<byte>, pos: nat, piece: seq<byte>) {
    pos + |piece| <= |data| && data[pos..pos + |piece|] == piece
  }

  lemma HoldsParts(data: seq<byte>, pos: nat, a: seq<byte>, b: seq<byte>)
    requires Holds(data, pos, a + b)
    ensures Holds(data, pos, a) && Holds(data, pos + |a|, b)
  {
    assert data[pos..pos + |a|] == (a + b)[..|a|] == a;
    assert data[pos + |a|..pos + |a| + |b|] == (a + b)[|a|..] == b;
  }

  lemma HoldsU16(data: seq<byte>, pos: nat, n: nat)
    requires n < 65536 && Holds(data, pos, Put16(n))
    ensures U16(data, pos) == n
  {
    assert data[pos] == Put16(n)[0] && data[pos + 1] == Put16(n)[1];
  }

  /** Where the first server name of es begins when es is encoded at pos. */
  function SniAt(es: seq<Extension>, pos: nat, otherwise: Host): Host {
    if es == [] then otherwise
    else if es[0].ServerName? then Host(pos + 9, |es[0].host|)
    else SniAt(es[1..], pos + 4 + BodyLen(es[0]), otherwise)
  }

  function EchAt(es: seq<Extension>, pos: nat, otherwise: int): int {
    if es == [] then otherwise
    else if es[0].EncryptedHello? then pos
    else EchAt(es[1..], pos + 4 + BodyLen(es[0]), otherwise)
  }

  predicate NoServerName(es: seq<Extension>) { forall e :: e in es ==> !e.ServerName? }

  predicate NoEncryptedHello(es: seq<Extension>) { forall e :: e in es ==> !e.EncryptedHello? }

  lemma {:induction false} AbsentAt(es: seq<Extension>, pos: nat, host: Host, ech: int)
    ensures NoServerName(es) ==> SniAt(es, pos, host) == host
    ensures NoEncryptedHello(es) ==> EchAt(es, pos, ech) == ech
  {
    if es != [] { AbsentAt(es[1..], pos + 4 + BodyLen(es[0]), host, ech); }
  }

  lemma ScanHead(data: seq<byte>, pos: nat, e: Extension)
    requires ExtensionOk(e) && Holds(data, pos, EncodeExtension(e))
    ensures U16(data, pos) == Kind(e) && U16(data, pos + 2) == BodyLen(e)
    ensures Holds(data, pos + 4, Body(e))
  {
    var a, b, c := Put16(Kind(e)), Put16(BodyLen(e)), Body(e);
    HoldsParts(data, pos, a + b, c);
    HoldsParts(data, pos, a, b);
    HoldsU16(data, pos, Kind(e));
    HoldsU16(data, pos + 2, BodyLen(e));
  }

  lemma HostNameEncoded(data: seq<byte>, pos: nat, e: Extension, sniLen: nat)
    requires ExtensionOk(e) && e.ServerName? && Holds(data, pos, Body(e))
    ensures HostName(data, pos, pos + BodyLen(e), sniLen) == Some(Host(pos + 5, |e.host|))
    ensures Holds(data, pos + 5, e.host)
  {
    var n := |e.host|;
    var a, b, c := Put16(3 + n), [0 as byte], Put16(n);
    HoldsParts(data, pos, a + b + c, e.host);
    HoldsParts(data, pos, a + b, c);
    HoldsParts(data, pos, a, b);
    HoldsU16(data, pos, 3 + n);
    HoldsU16(data, pos + 3, n);
    assert data[pos + 2..pos + 3][0] == 0;
  }

  lemma AtMostOneTail(es: seq<Extension>)
    requires es != [] && AtMostOne(es) && ExtensionsOk(es)
    ensures AtMostOne(es[1..]) && ExtensionsOk(es[1..]) && ExtensionOk(es[0])
    ensures es[0].ServerName? ==> NoServerName(es[1..])
    ensures es[0].EncryptedHello? ==> NoEncryptedHello(es[1..])
  {
    forall e | e in es[1..]
      ensures e in es && !(e.ServerName? && es[0].ServerName?) && !(e.EncryptedHello? && es[0].EncryptedHello?)
    {
      var j :| 0 <= j < |es| - 1 && es[1..][j] == e;
      assert es[j + 1] == e;
    }
    forall i, j | 0 <= i < j < |es| - 1
      ensures !(es[1..][i].ServerName? && es[1..][j].ServerName?)
      ensures !(es[1..][i].EncryptedHello? && es[1..][j].EncryptedHello?)
    {
      assert es[1..][i] == es[i + 1] && es[1..][j] == es[j + 1];
    }
  }

  lemma HoldsInside(data: seq<byte>, pos: nat, piece: seq<byte>)
    requires Holds(data, pos, piece)
    ensures pos + |piece| <= |data|
  {
  }

  lemma ScanStops(data: seq<byte>, pos: nat, end: nat, sniPos: int, sniLen: nat, echPos: int)
    requires 38 < pos <= end <= |data| && FoundBefore(pos, sniPos, sniLen, echPos)
    requires pos + 4 > end || (sniPos != -1 && echPos != -1)
    ensures Scan(data, pos, end, sniPos, sniLen, echPos) == Found(sniPos, sniLen, echPos)
  {
  }

  /** One extension of the scan. */
  lemma ScanOnce(data: seq<byte>, pos: nat, end: nat, e: Extension, sniPos: int, sniLen: nat, echPos: int)
    requires ExtensionOk(e) && 38 < pos && Holds(data, pos, EncodeExtension(e)) && pos + 4 + BodyLen(e) <= end <= |data|
    requires FoundBefore(pos, sniPos, sniLen, echPos) && !(sniPos != -1 && echPos != -1)
    requires (sniPos != -1 ==> !e.ServerName?) && (echPos != -1 ==> !e.EncryptedHello?)
    ensures Scan(data, pos, end, sniPos, sniLen, echPos) ==
      var next := pos + 4 + BodyLen(e);
      match e
      case ServerName(host) => Scan(data, next, end, pos + 9, |host|, echPos)
      case EncryptedHello(_) => Scan(data, next, end, sniPos, sniLen, pos)
      case Other(_, _) => Scan(data, next, end, sniPos, sniLen, echPos)
  {
    hide HostName, Names, Body, EncodeExtension;
    ScanHead(data, pos, e);
    if e.ServerName? { HostNameEncoded(data, pos + 4, e, sniLen); }
  }

  /** Extension j repeats an earlier one, and the other kind was not found before it. */
  predicate RepeatsAt(es: seq<Extension>, j: nat, sni: bool, ech: bool)
    requires j < |es|
  {
    var name, hello := sni || !NoServerName(es[..j]), ech || !NoEncryptedHello(es[..j]);
    (es[j].ServerName? && name && !hello) || (es[j].EncryptedHello? && hello && !name)
  }

  /** The scan meets a repeated extension before it has found both; sni and ech tell what was found before. */
  predicate Repeats(es: seq<Extension>, sni: bool, ech: bool) {
    exists j :: 0 <= j < |es| && RepeatsAt(es, j, sni, ech)
  }

  lemma RepeatsLater(es: seq<Extension>, j: nat, sni: bool, ech: bool)
    requires 0 < j < |es|
    ensures RepeatsAt(es, j, sni, ech) <==>
      RepeatsAt(es[1..], j - 1, sni || es[0].ServerName?, ech || es[0].EncryptedHello?)
  {
    assert es[..j] == [es[0]] + es[1..][..j - 1];
  }

  lemma RepeatsFrom(es: seq<Extension>, sni: bool, ech: bool)
    requires es != []
    ensures Repeats(es, sni, ech) <==>
      || RepeatsAt(es, 0, sni, ech)
      || Repeats(es[1..], sni || es[0].ServerName?, ech || es[0].EncryptedHello?)
  {
    hide RepeatsAt;
    forall j | 0 < j < |es|
      ensures RepeatsAt(es, j, sni, ech) <==>
        RepeatsAt(es[1..], j - 1, sni || es[0].ServerName?, ech || es[0].EncryptedHello?)
    {
      RepeatsLater(es, j, sni, ech);
    }
    var rest, name, hello := es[1..], sni || es[0].ServerName?, ech || es[0].EncryptedHello?;
    if Repeats(rest, name, hello) {
      var j :| 0 <= j < |rest| && RepeatsAt(rest, j, name, hello);
      assert RepeatsAt(es, j + 1, sni, ech);
    }
  }

  lemma NoRepeats(es: seq<Extension>)
    requires AtMostOne(es)
    ensures !Repeats(es, false, false)
  {
  }

  /** The result of scanning es, encoded at pos. */
  function Scanned(es: seq<Extension>, pos: nat, sniPos: int, sniLen: nat, echPos: int): Location {
    if Repeats(es, sniPos != -1, echPos != -1) then Malformed
    else
      var host := if sniPos != -1 then Host(sniPos, sniLen) else SniAt(es, pos, Host(-1, sniLen));
      Found(host.pos, host.len, if echPos != -1 then echPos else EchAt(es, pos, -1))
  }

  lemma ScannedFrom(es: seq<Extension>, pos: nat, sniPos: int, sniLen: nat, echPos: int)
    requires es != [] && !(sniPos != -1 && echPos != -1)
    requires (sniPos != -1 ==> !es[0].ServerName?) && (echPos != -1 ==> !es[0].EncryptedHello?)
    ensures Scanned(es, pos, sniPos, sniLen, echPos) ==
      var next := pos + 4 + BodyLen(es[0]);
      match es[0]
      case ServerName(host) => Scanned(es[1..], next, pos + 9, |host|, echPos)
      case EncryptedHello(_) => Scanned(es[1..], next, sniPos, sniLen, pos)
      case Other(_, _) => Scanned(es[1..], next, sniPos, sniLen, echPos)
  {
    hide Repeats;
    RepeatsFrom(es, sniPos != -1, echPos != -1);
  }

  lemma {:induction false} ScanEncoded(data: seq<byte>, pos: nat, es: seq<Extension>, sniPos: int, sniLen: nat,
                                       echPos: int)
    requires ExtensionsOk(es) && 38 < pos && Holds(data, pos, EncodeExtensions(es))
    requires FoundBefore(pos, sniPos, sniLen, echPos)
    ensures Scan(data, pos, pos + |EncodeExtensions(es)|, sniPos, sniLen, echPos) ==
      Scanned(es, pos, sniPos, sniLen, echPos)
    decreases |es|
  {
    hide Scan, EncodeExtension, Holds, Repeats, Scanned;
    assert pos + |EncodeExtensions(es)| <= |data| by { HoldsInside(data, pos, EncodeExtensions(es)); }
    if es == [] || (sniPos != -1 && echPos != -1) {
      ScanStops(data, pos, pos + |EncodeExtensions(es)|, sniPos, sniLen, echPos);
      ScannedNoMore(es, pos, sniPos, sniLen, echPos);
    } else {
      var e, rest := es[0], es[1..];
      assert ExtensionOk(e) && ExtensionsOk(rest);
      HoldsParts(data, pos, EncodeExtension(e), EncodeExtensions(rest));
      if (sniPos != -1 && e.ServerName?) || (echPos != -1 && e.EncryptedHello?) {
        ScanRepeated(data, pos, pos + |EncodeExtensions(es)|, e, sniPos, sniLen, echPos);
        ScannedRepeated(es, pos, sniPos, sniLen, echPos);
      } else {
        ScanOnce(data, pos, pos + |EncodeExtensions(es)|, e, sniPos, sniLen, echPos);
        ScannedFrom(es, pos, sniPos, sniLen, echPos);
        var next := pos + 4 + BodyLen(e);
        match e
        case ServerName(host) => ScanEncoded(data, next, rest, pos + 9, |host|, echPos);
        case EncryptedHello(_) => ScanEncoded(data, next, rest, sniPos, sniLen, pos);
        case Other(_, _) => ScanEncoded(data, next, rest, sniPos, sniLen, echPos);
      }
    }
  }

  lemma ScannedNoMore(es: seq<Extension>, pos: nat, sniPos: int, sniLen: nat, echPos: int)
    requires es == [] || (sniPos != -1 && echPos != -1)
    ensures Scanned(es, pos, sniPos, sniLen, echPos) == Found(sniPos, sniLen, echPos)
  {
  }

  lemma ScannedRepeated(es: seq<Extension>, pos: nat, sniPos: int, sniLen: nat, echPos: int)
    requires es != [] && !(sniPos != -1 && echPos != -1)
    requires (sniPos != -1 && es[0].ServerName?) || (echPos != -1 && es[0].EncryptedHello?)
    ensures Scanned(es, pos, sniPos, sniLen, echPos) == Malformed
  {
    assert RepeatsAt(es, 0, sniPos != -1, echPos != -1);
  }

  lemma ScanRepeated(data: seq<byte>, pos: nat, end: nat, e: Extension, sniPos: int, sniLen: nat, echPos: int)
    requires ExtensionOk(e) && 38 < pos && Holds(data, pos, EncodeExtension(e)) && pos + 4 + BodyLen(e) <= end <= |data|
    requires FoundBefore(pos, sniPos, sniLen, echPos) && !(sniPos != -1 && echPos != -1)
    requires (sniPos != -1 && e.ServerName?) || (echPos != -1 && e.EncryptedHello?)
    ensures Scan(data, pos, end, sniPos, sniLen, echPos) == Malformed
  {
    hide HostName, Names, Body, EncodeExtension;
    ScanHead(data, pos, e);
  }

  lemma VectorEncoded(data: seq<byte>, pos: nat, v: seq<byte>, width: nat)
    requires (width == 1 && |v| < 256 && Holds(data, pos, [|v| as byte] + v))
          || (width == 2 && |v| < 65536 && Holds(data, pos, Put16(|v|) + v))
    ensures AfterVector(data, pos, width) == Some(pos + width + |v|)
  {
    if width == 1 {
      HoldsParts(data, pos, [|v| as byte], v);
      assert data[pos..pos + 1][0] == |v| as byte;
    } else {
      HoldsParts(data, pos, Put16(|v|), v);
      HoldsU16(data, pos, |v|);
    }
  }

  lemma PrefixEncoded(data: seq<byte>, h: ClientHello)
    requires FormOk(h) && Holds(data, 4, Prefix(h))
    ensures ExtensionsPos(data) == Some(4 + |Prefix(h)|)
  {
    hide AfterVector, ExtensionsOk, AtMostOne, EncodeExtensions;
    var start := h.version + h.random;
    var session, suites := [|h.session| as byte] + h.session, Put16(|h.suites|) + h.suites;
    var compression := [|h.compression| as byte] + h.compression;
    assert Prefix(h) == start + session + suites + compression;
    HoldsParts(data, 4, start + session + suites, compression);
    HoldsParts(data, 4, start + session, suites);
    HoldsParts(data, 4, start, session);
    VectorEncoded(data, 38, h.session, 1);
    VectorEncoded(data, 38 + |session|, h.suites, 2);
    VectorEncoded(data, 38 + |session| + |suites|, h.compression, 1);
  }

  /** Where the first extension of an encoded ClientHello begins. */
  function FirstExtension(h: ClientHello): nat
    requires FormOk(h)
  {
    4 + |Prefix(h)| + 2
  }

  lemma EncodedParts(h: ClientHello)
    requires FormOk(h)
    ensures var d, exts := Encode(h), EncodeExtensions(h.extensions);
      && |d| == FirstExtension(h) + |exts| && d[0] == 1 && |d| == 4 + U24(d, 1)
      && Holds(d, 4, Prefix(h)) && Holds(d, 4 + |Prefix(h)|, Put16(|exts|) + exts)
      && Holds(d, FirstExtension(h), exts)
  {
    hide ExtensionsOk, AtMostOne, EncodeExtensions, Prefix;
    var d, exts := Encode(h), EncodeExtensions(h.extensions);
    PrefixLen(h);
    var body := Prefix(h) + Put16(|exts|) + exts;
    assert d == [1] + Put24(|body|) + body;
    var len := Put24(|body|);
    assert d[1] == len[0] && d[2] == len[1] && d[3] == len[2];
    assert Holds(d, 4, body);
    assert body == Prefix(h) + (Put16(|exts|) + exts);
    HoldsParts(d, 4, Prefix(h), Put16(|exts|) + exts);
    HoldsParts(d, 4 + |Prefix(h)|, Put16(|exts|), exts);
  }

  lemma PrefixLen(h: ClientHello)
    requires FormOk(h)
    ensures |Prefix(h)| < 66100
  {
  }

  /**
   Every ClientHello is searched completely and correctly: it is refused exactly when an extension is repeated
   before both are found, and else the first server name and the first ECH extension are reported.
   */
  lemma LocateForm(h: ClientHello)
    requires FormOk(h)
    ensures Locate(Encode(h)) ==
      if Repeats(h.extensions, false, false) then Malformed
      else
        var host := SniAt(h.extensions, FirstExtension(h), Host(-1, 0));
        Found(host.pos, host.len, EchAt(h.extensions, FirstExtension(h), -1))
  {
    hide AfterVector, ExtensionsPos, Scan, Prefix, ExtensionsOk, EncodeExtensions, Encode, Repeats;
    var d, exts := Encode(h), EncodeExtensions(h.extensions);
    EncodedParts(h);
    PrefixEncoded(d, h);
    VectorEncoded(d, 4 + |Prefix(h)|, exts, 2);
    ScanEncoded(d, FirstExtension(h), h.extensions, -1, 0, -1);
  }

  lemma LocateEncoded(h: ClientHello)
    requires HelloOk(h)
    ensures var host := SniAt(h.extensions, FirstExtension(h), Host(-1, 0));
      Locate(Encode(h)) == Found(host.pos, host.len, EchAt(h.extensions, FirstExtension(h), -1))
  {
    hide Locate, Encode, Repeats, AtMostOne;
    LocateForm(h);
    NoRepeats(h.extensions);
  }

  /** As long as bytes of a ClientHello are missing, the search asks for more. */
  lemma PrefixIsIncomplete(h: ClientHello, n: nat)
    requires FormOk(h) && n < |Encode(h)|
    ensures Locate(Encode(h)[..n]) == Incomplete
  {
    hide AfterVector, ExtensionsPos, Scan, Prefix, ExtensionsOk, EncodeExtensions, Encode;
    EncodedParts(h);
    var d := Encode(h);
    if n >= 4 { assert d[..n][0] == d[0] && d[..n][1] == d[1] && d[..n][2] == d[2] && d[..n][3] == d[3]; }
  }

  // ------------------------------------------------------- lists of names

  /** One entry of a server name list; a host name is of type 0. */
  datatype Name = Name(kind: byte, text: seq<byte>)

  predicate NamesOk(names: seq<Name>) { forall n :: n in names ==> |n.text| < 65536 }

  function EncodeNames(names: seq<Name>): seq<byte>
    requires NamesOk(names)
  {
    if names == [] then []
    else [names[0].kind] + Put16(|names[0].text|) + names[0].text + EncodeNames(names[1..])
  }

  /**
   The first host name of a list is found whatever is in front of it and behind it. Without one, the length of the
   last name remains, and no position.
   */
  lemma {:induction false} NamesEncoded(data: seq<byte>, pos: nat, names: seq<Name>, i: nat, sniLen: nat)
    requires NamesOk(names) && i <= |names| && Holds(data, pos, EncodeNames(names))
    requires forall k :: 0 <= k < i ==> names[k].kind != 0
    requires i < |names| ==> names[i].kind == 0
    ensures Names(data, pos, pos + |EncodeNames(names)|, sniLen) == Some(
      if i < |names| then Host(pos + |EncodeNames(names[..i])| + 3, |names[i].text|)
      else Host(-1, if names == [] then sniLen else |names[|names| - 1].text|))
    decreases |names|
  {
    hide Names, Holds, EncodeNames;
    if names == [] {
      NoMoreNames(data, pos, sniLen);
    } else {
      NameAtFront(data, pos, names);
      if i > 0 {
        NamesEncoded(data, pos + 3 + |names[0].text|, names[1..], i - 1, |names[0].text|);
        EncodedLen(names, i);
      } else {
        assert names[..0] == [];
        NoNamesLen();
      }
    }
  }

  lemma NoNamesLen()
    ensures EncodeNames([]) == []
  {
  }

  lemma EncodedLen(names: seq<Name>, i: nat)
    requires NamesOk(names) && 0 < i <= |names|
    ensures NamesOk(names[1..]) && NamesOk(names[..i]) && NamesOk(names[1..][..i - 1])
    ensures |EncodeNames(names[..i])| == 3 + |names[0].text| + |EncodeNames(names[1..][..i - 1])|
  {
    assert names[..i][0] == names[0] && names[..i][1..] == names[1..][..i - 1];
  }

  lemma NoMoreNames(data: seq<byte>, pos: nat, sniLen: nat)
    requires Holds(data, pos, EncodeNames([]))
    ensures pos <= |data| && EncodeNames([]) == [] && Names(data, pos, pos, sniLen) == Some(Host(-1, sniLen))
  {
  }

  lemma NameAtFront(data: seq<byte>, pos: nat, names: seq<Name>)
    requires NamesOk(names) && names != [] && Holds(data, pos, EncodeNames(names))
    ensures NamesOk(names[1..])
    ensures var name, rest := names[0], EncodeNames(names[1..]);
      var next, to := pos + 3 + |name.text|, pos + |EncodeNames(names)|;
      && to == next + |rest| <= |data| && Holds(data, next, rest)
      && forall sniLen ::
           Names(data, pos, to, sniLen) ==
             if name.kind == 0 then Some(Host(pos + 3, |name.text|)) else Names(data, next, to, |name.text|)
  {
    hide Holds, U16;
    assert names[0] in names;
    FirstNameBytes(data, pos, names[0], EncodeNames(names[1..]));
    var to := pos + |EncodeNames(names)|;
    assert to == pos + 3 + |names[0].text| + |EncodeNames(names[1..])|;
    forall sniLen: nat
      ensures Names(data, pos, to, sniLen) ==
        if names[0].kind == 0 then Some(Host(pos + 3, |names[0].text|))
        else Names(data, pos + 3 + |names[0].text|, to, |names[0].text|)
    {
    }
  }

  lemma FirstNameBytes(data: seq<byte>, pos: nat, name: Name, rest: seq<byte>)
    requires |name.text| < 65536 && Holds(data, pos, [name.kind] + Put16(|name.text|) + name.text + rest)
    ensures pos + 3 + |name.text| + |rest| <= |data| && Holds(data, pos + 3 + |name.text|, rest)
    ensures data[pos] == name.kind && U16(data, pos + 1) == |name.text|
  {
    hide U16;
    HoldsParts(data, pos, [name.kind] + Put16(|name.text|) + name.text, rest);
    HoldsParts(data, pos, [name.kind] + Put16(|name.text|), name.text);
    HoldsParts(data, pos, [name.kind], Put16(|name.text|));
    HoldsU16(data, pos + 1, |name.text|);
    assert data[pos..pos + 1][0] == name.kind;
  }

  /** The reported position is that of the host name itself: cutting there cuts the name. */
  lemma {:induction false} HostIsThere(data: seq<byte>, pos: nat, es: seq<Extension>, i: nat)
    requires ExtensionsOk(es) && AtMostOne(es) && Holds(data, pos, EncodeExtensions(es))
    requires i < |es|
    ensures ExtensionOk(es[i])
    ensures es[i].ServerName? ==>
      var host := SniAt(es, pos, Host(-1, 0));
        host.len == |es[i].host| && 0 <= host.pos && Holds(data, host.pos, es[i].host)
    ensures es[i].EncryptedHello? ==>
      var p := EchAt(es, pos, -1); 0 <= p && Holds(data, p, EncodeExtension(es[i]))
    decreases |es|
  {
    hide AtMostOne;
    var e, rest := es[0], es[1..];
    AtMostOneTail(es);
    HoldsParts(data, pos, EncodeExtension(e), EncodeExtensions(rest));
    if i == 0 {
      ScanHead(data, pos, e);
      if e.ServerName? { HostNameEncoded(data, pos + 4, e, 0); }
    } else {
      assert rest[i - 1] == es[i];
      HostIsThere(data, pos + 4 + BodyLen(e), rest, i - 1);
    }
  }

  /** In an encoded ClientHello the server name lies after the whole ECH extension, or before it. */
  lemma {:induction false} ExtensionsApart(es: seq<Extension>, pos: nat, i: nat)
    requires ExtensionsOk(es) && AtMostOne(es) && i < |es| && es[i].EncryptedHello?
    requires !NoServerName(es)
    ensures var host, ech := SniAt(es, pos, Host(-1, 0)), EchAt(es, pos, -1);
      pos <= ech && pos <= host.pos && (host.pos + host.len <= ech || ech + 4 + |es[i].payload| + 9 <= host.pos)
    decreases |es|
  {
    var e, rest := es[0], es[1..];
    AtMostOneTail(es);
    if i == 0 {
      SniLater(rest, pos + 4 + BodyLen(e));
    } else {
      assert rest[i - 1] == es[i];
      if e.ServerName? {
        EchLater(rest, pos + 4 + BodyLen(e), i - 1);
      } else {
        ExtensionsApart(rest, pos + 4 + BodyLen(e), i - 1);
      }
    }
  }

  lemma {:induction false} SniLater(es: seq<Extension>, pos: nat)
    requires !NoServerName(es)
    ensures SniAt(es, pos, Host(-1, 0)).pos >= pos + 9
    decreases |es|
  {
    if !es[0].ServerName? { SniLater(es[1..], pos + 4 + BodyLen(es[0])); }
  }

  lemma {:induction false} EchLater(es: seq<Extension>, pos: nat, i: nat)
    requires i < |es| && es[i].EncryptedHello?
    ensures EchAt(es, pos, -1) >= pos
    decreases |es|
  {
    if i > 0 && !es[0].EncryptedHello? { EchLater(es[1..], pos + 4 + BodyLen(es[0]), i - 1); }
  }
}
