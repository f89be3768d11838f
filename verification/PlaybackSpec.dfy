/**
 internal/sub/playback.go, the parts that compute from the pending units: which layers of a
 unit are complete, in which order units are looked at, and how much is buffered. A unit is one
 temporal unit of a scalable video, one object per spatial layer.
 */
module PlaybackSpec {
  import opened Protocol

  datatype Key = Key(group: nat, obj: nat)

  datatype Layer = Layer(timestamp: nat, independent: bool, bytes: nat)

  /** invalidFrom: the lowest layer for which different objects arrived. */
  datatype Unit = Unit(layers: map<nat, Layer>, invalidFrom: nat)

  // ------------------------------------------------------------ arrivals

  /** An object for layer i of a unit arrives. The first one is kept, a different one makes the layer invalid. */
  function Arrive(u: Unit, i: nat, layer: Layer): Unit {
    if i in u.layers then
      if u.layers[i] != layer && i < u.invalidFrom then u.(invalidFrom := i) else u
    else u.(layers := u.layers[i := layer])
  }

  datatype Arrival = Arrival(index: nat, layer: Layer)

  function ArriveAll(arrivals: seq<Arrival>, n: nat): Unit {
    if arrivals == [] then Unit(map[], n)
    else
      var last := arrivals[|arrivals| - 1];
      Arrive(ArriveAll(arrivals[..|arrivals| - 1], n), last.index, last.layer)
  }

  /** The layers 0..r are there, agree with layer 0, and are not invalid; -1 if there is none. */
  function CompletePrefix(u: Unit, n: nat): (r: int)
    ensures -1 <= r < n
  {
    if u.invalidFrom == 0 || 0 !in u.layers then -1 else PrefixFrom(u, n, 0)
  }

  predicate Agrees(u: Unit, i: nat)
    requires 0 in u.layers
  {
    i in u.layers && u.layers[i].timestamp == u.layers[0].timestamp &&
      u.layers[i].independent == u.layers[0].independent
  }

  function PrefixFrom(u: Unit, n: nat, i: nat): (r: int)
    requires 0 in u.layers
    ensures i - 1 <= r && (r < n || r == i - 1)
    decreases n - i
  {
    if i < n && i < u.invalidFrom && Agrees(u, i) then PrefixFrom(u, n, i + 1) else i - 1
  }

  function Independent(u: Unit): bool {
    u.invalidFrom != 0 && 0 in u.layers && u.layers[0].independent
  }

  /** What the prefix means: all its layers are complete, and it is the longest such prefix. */
  lemma {:induction false} PrefixMeaning(u: Unit, n: nat, i: nat, j: nat)
    requires 0 in u.layers && i <= j
    ensures j <= PrefixFrom(u, n, i) ==> j < n && j < u.invalidFrom && Agrees(u, j)
    ensures j == PrefixFrom(u, n, i) + 1 ==> !(j < n && j < u.invalidFrom && Agrees(u, j))
    decreases n - i
  {
    if i < n && i < u.invalidFrom && Agrees(u, i) && i < j { PrefixMeaning(u, n, i + 1, j); }
  }

  // ------------------------------------------------------------ the order of arrival does not matter

  ghost predicate Arrived(arrivals: seq<Arrival>, i: nat, layer: Layer) { Arrival(i, layer) in arrivals }

  /** Which layers are held and from where on they are invalid, said without the order of arrival. */
  ghost predicate Collected(u: Unit, arrivals: seq<Arrival>, n: nat) {
    && (forall i, l :: Arrived(arrivals, i, l) ==> i in u.layers)
    && (forall i :: i in u.layers ==> Arrived(arrivals, i, u.layers[i]))
    && (forall i: nat, l :: Arrived(arrivals, i, l) && i < u.invalidFrom ==> l == u.layers[i])
    && u.invalidFrom <= n
    && (u.invalidFrom < n ==>
         exists l, m :: Arrived(arrivals, u.invalidFrom, l) && Arrived(arrivals, u.invalidFrom, m) && l != m)
  }

  lemma {:induction false} AllCollected(arrivals: seq<Arrival>, n: nat)
    requires forall a :: a in arrivals ==> a.index < n
    ensures Collected(ArriveAll(arrivals, n), arrivals, n)
  {
    if arrivals != [] {
      var init, a := arrivals[..|arrivals| - 1], arrivals[|arrivals| - 1];
      assert arrivals == init + [a];
      AllCollected(init, n);
      CollectOne(ArriveAll(init, n), init, a, n);
    }
  }

  lemma CollectOne(u: Unit, init: seq<Arrival>, a: Arrival, n: nat)
    requires Collected(u, init, n) && a.index < n
    ensures Collected(Arrive(u, a.index, a.layer), init + [a], n)
  {
    assert forall i, l :: Arrived(init + [a], i, l) <==> Arrived(init, i, l) || a == Arrival(i, l);
    var v := Arrive(u, a.index, a.layer);
    if v.invalidFrom != u.invalidFrom {
      assert Arrived(init + [a], a.index, a.layer) && Arrived(init + [a], a.index, u.layers[a.index]);
    } else if u.invalidFrom < n {
      var l, m :| Arrived(init, u.invalidFrom, l) && Arrived(init, u.invalidFrom, m) && l != m;
      assert Arrived(init + [a], v.invalidFrom, l) && Arrived(init + [a], v.invalidFrom, m);
    }
  }

  /** Units that collected the same objects agree on everything that counts. */
  lemma SameCollection(u: Unit, v: Unit, a: seq<Arrival>, b: seq<Arrival>, n: nat)
    requires Collected(u, a, n) && Collected(v, b, n)
    requires forall x :: x in a <==> x in b
    ensures u.invalidFrom == v.invalidFrom && u.layers.Keys == v.layers.Keys
    ensures forall i :: i in u.layers && i < u.invalidFrom ==> u.layers[i] == v.layers[i]
  {
    assert forall i, l :: Arrived(a, i, l) <==> Arrived(b, i, l);
  }

  lemma {:induction false} SamePrefix(u: Unit, v: Unit, n: nat, i: nat)
    requires 0 in u.layers && 0 in v.layers && 0 < u.invalidFrom
    requires u.invalidFrom == v.invalidFrom && u.layers.Keys == v.layers.Keys
    requires forall i :: i in u.layers && i < u.invalidFrom ==> u.layers[i] == v.layers[i]
    ensures PrefixFrom(u, n, i) == PrefixFrom(v, n, i)
    decreases n - i
  {
    if i < n { SamePrefix(u, v, n, i + 1); }
  }

  /**
   Whatever the order in which the objects of a unit arrive, and however often, conflicting ones
   included, the complete prefix and its independence come out the same.
   */
  lemma ArrivalOrderIsIrrelevant(a: seq<Arrival>, b: seq<Arrival>, n: nat)
    requires (forall x :: x in a ==> x.index < n) && (forall x :: x in a <==> x in b)
    ensures var u, v := ArriveAll(a, n), ArriveAll(b, n);
      CompletePrefix(u, n) == CompletePrefix(v, n) && Independent(u) == Independent(v)
  {
    AllCollected(a, n);
    AllCollected(b, n);
    var u, v := ArriveAll(a, n), ArriveAll(b, n);
    SameCollection(u, v, a, b, n);
    if u.invalidFrom != 0 && 0 in u.layers { SamePrefix(u, v, n, 0); }
  }

  // ------------------------------------------------------------ timestamps and order

  predicate IsLowest(u: Unit, i: nat) {
    i in u.layers && forall j :: j in u.layers ==> i <= j
  }

  lemma {:induction false} LowestExists(u: Unit, i: nat) returns (k: nat)
    requires i in u.layers
    ensures IsLowest(u, k) && k <= i
  {
    if j :| j in u.layers && j < i { k := LowestExists(u, j); } else { k := i; }
  }

  ghost function Lowest(u: Unit): (k: nat)
    requires u.layers != map[]
    ensures IsLowest(u, k)
  {
    assert exists k :: IsLowest(u, k) by {
      var i :| i in u.layers;
      var k := LowestExists(u, i);
    }
    var k :| IsLowest(u, k); k
  }

  /** The timestamp of the lowest layer that is there. */
  ghost function Timestamp(u: Unit): nat
    requires u.layers != map[]
  {
    u.layers[Lowest(u)].timestamp
  }

  ghost predicate UnitsOk(pending: map<Key, Unit>) {
    forall k :: k in pending ==> pending[k].layers != map[]
  }

  ghost function TimestampAt(pending: map<Key, Unit>, k: Key): nat {
    if k in pending && pending[k].layers != map[] then Timestamp(pending[k]) else 0
  }

  predicate Smaller(ta: nat, a: Key, tb: nat, b: Key) {
    ta < tb || (ta == tb && (a.group < b.group || (a.group == b.group && a.obj < b.obj)))
  }

  /** Units are looked at in the order of timestamp, group and object. */
  ghost predicate Before(pending: map<Key, Unit>, a: Key, b: Key) {
    Smaller(TimestampAt(pending, a), a, TimestampAt(pending, b), b)
  }

  ghost predicate Ordered(pending: map<Key, Unit>, s: seq<Key>) {
    forall i, j :: 0 <= i < j < |s| ==> Before(pending, s[i], s[j])
  }

  ghost predicate IsOrder(pending: map<Key, Unit>, s: seq<Key>) {
    Ordered(pending, s) && forall k :: k in s <==> k in pending
  }

  /** There is only one way to put the pending units in order. */
  lemma OrderUnique(pending: map<Key, Unit>, s: seq<Key>, t: seq<Key>)
    requires IsOrder(pending, s) && IsOrder(pending, t)
    ensures s == t
  {
    if |s| <= |t| { SameOrder(pending, s, t); } else { SameOrder(pending, t, s); }
  }

  lemma {:induction false} SameOrder(pending: map<Key, Unit>, s: seq<Key>, t: seq<Key>)
    requires Ordered(pending, s) && Ordered(pending, t) && |s| <= |t| && forall k :: k in s <==> k in t
    ensures s == t
    decreases |s|
  {
    if t != [] {
      assert t[0] in t && t[0] in s;
      var j :| 0 <= j < |s| && s[j] == t[0];
      assert s[0] in s && s[0] in t;
      var i :| 0 <= i < |t| && t[i] == s[0];
      assert s[0] == t[0];
      forall k
        ensures k in s[1..] <==> k in t[1..]
      {
        SplitHead(pending, s, k);
        SplitHead(pending, t, k);
      }
      SameOrder(pending, s[1..], t[1..]);
    }
  }

  lemma SplitHead(pending: map<Key, Unit>, s: seq<Key>, k: Key)
    requires s != [] && Ordered(pending, s)
    ensures k in s[1..] <==> k in s && k != s[0]
  {
    if k in s[1..] {
      var i :| 0 <= i < |s[1..]| && s[1..][i] == k;
      assert Before(pending, s[0], s[i + 1]);
    }
    if k in s && k != s[0] {
      var i :| 0 <= i < |s| && s[i] == k;
      assert s[1..][i - 1] == k;
    }
  }

  lemma InsertOrdered(pending: map<Key, Unit>, s: seq<Key>, k: Key, i: nat)
    requires Ordered(pending, s) && i <= |s|
    requires forall j :: 0 <= j < i ==> Before(pending, s[j], k)
    requires forall j :: i <= j < |s| ==> Before(pending, k, s[j])
    ensures Ordered(pending, s[..i] + [k] + s[i..])
    ensures forall x :: x in s[..i] + [k] + s[i..] <==> x in s || x == k
  {
    hide Before;
    var t := s[..i] + [k] + s[i..];
    assert forall j :: 0 <= j < |t| ==> t[j] == if j < i then s[j] else if j == i then k else s[j - 1];
    assert s == s[..i] + s[i..];
  }

  /** Where k belongs in s. */
  lemma {:induction false} Place(pending: map<Key, Unit>, s: seq<Key>, k: Key, i: nat) returns (r: nat)
    requires Ordered(pending, s) && k !in s && i <= |s| && forall j :: 0 <= j < i ==> Before(pending, s[j], k)
    ensures r <= |s| && (forall j :: 0 <= j < r ==> Before(pending, s[j], k)) &&
      (forall j :: r <= j < |s| ==> Before(pending, k, s[j]))
    decreases |s| - i
  {
    r := i;
    if i < |s| && Before(pending, s[i], k) { r := Place(pending, s, k, i + 1); }
  }

  lemma {:induction false} KeysInOrder(pending: map<Key, Unit>, keys: set<Key>) returns (s: seq<Key>)
    ensures Ordered(pending, s) && forall k :: k in s <==> k in keys
  {
    if keys == {} {
      s := [];
    } else {
      var k :| k in keys;
      s := KeysInOrder(pending, keys - {k});
      var i := Place(pending, s, k, 0);
      InsertOrdered(pending, s, k, i);
      s := s[..i] + [k] + s[i..];
    }
  }

  /** The pending units in order. */
  ghost function Order(pending: map<Key, Unit>): (s: seq<Key>)
    ensures IsOrder(pending, s)
  {
    assert exists s :: IsOrder(pending, s) by {
      var s := KeysInOrder(pending, pending.Keys);
      assert IsOrder(pending, s);
    }
    var s :| IsOrder(pending, s); s
  }

  // ------------------------------------------------------------ what can be started with

  /** How far the run of units that are complete up to layer prefix reaches, from position i on. */
  ghost function RunEnd(pending: map<Key, Unit>, s: seq<Key>, n: nat, prefix: int, i: nat): nat
    requires i <= |s|
    decreases |s| - i
  {
    if i < |s| && s[i] in pending &&
      CompletePrefix(pending[s[i]], n) >= prefix then RunEnd(pending, s, n, prefix, i + 1) else i
  }

  /** Microseconds between unit i of the order and the last one of the complete run it begins. */
  ghost function Buffered(pending: map<Key, Unit>, s: seq<Key>, n: nat, prefix: int, i: nat): int
    requires i < |s|
  {
    var end := RunEnd(pending, s, n, prefix, i);
    if end <= i || end > |s| then 0 else TimestampAt(pending, s[end - 1]) - TimestampAt(pending, s[i])
  }

  /** Playback can start with unit i of the order. Durations are in nanoseconds, as in Go. */
  ghost predicate Startable(pending: map<Key, Unit>, s: seq<Key>, n: nat, minimalBuffer: int, i: nat)
    requires i < |s|
  {
    && s[i] in pending
    && var u := pending[s[i]];
    && Independent(u) && CompletePrefix(u, n) >= 0
    && Buffered(pending, s, n, CompletePrefix(u, n), i) * 1000 >= minimalBuffer
  }

  /** The first unit of the order playback can start with; |s| if there is none. */
  ghost function FirstStartable(pending: map<Key, Unit>, s: seq<Key>, n: nat, minimalBuffer: int, i: nat): (r: nat)
    requires i <= |s|
    ensures i <= r <= |s|
    decreases |s| - i
  {
    if i == |s| || Startable(pending, s, n, minimalBuffer, i) then i
    else FirstStartable(pending, s, n, minimalBuffer, i + 1)
  }

  /** The first unit of the order with a timestamp above last; |s| if there is none. */
  ghost function FirstNewer(pending: map<Key, Unit>, s: seq<Key>, last: int, i: nat): (r: nat)
    requires i <= |s|
    ensures i <= r <= |s|
    ensures r < |s| ==> TimestampAt(pending, s[r]) > last
    ensures forall j :: i <= j < r ==> TimestampAt(pending, s[j]) <= last
    decreases |s| - i
  {
    if i == |s| || TimestampAt(pending, s[i]) > last then i else FirstNewer(pending, s, last, i + 1)
  }

  /** Without the first j units, the others are in the same order. */
  lemma DropFirst(pending: map<Key, Unit>, rest: map<Key, Unit>, s: seq<Key>, j: nat)
    requires IsOrder(pending, s) && j <= |s|
    requires rest == map k | k in pending && k !in s[..j] :: pending[k]
    ensures IsOrder(rest, s[j..]) && Order(rest) == s[j..]
    ensures forall k :: k in rest ==> TimestampAt(rest, k) == TimestampAt(pending, k)
  {
    assert forall m :: 0 <= m < j ==> s[m] == s[..j][m] && s[m] in s[..j];
    forall k
      ensures k in s[j..] <==> k in rest
    {
      if k in s[j..] {
        var i :| 0 <= i < |s[j..]| && s[j..][i] == k;
        assert s[i + j] == k;
        forall m | 0 <= m < j
          ensures s[m] != k
        {
          assert Before(pending, s[m], s[i + j]);
        }
      }
      if k in rest {
        assert k in s;
        var i :| 0 <= i < |s| && s[i] == k;
        assert s[j..][i - j] == k;
      }
    }
    forall i, m | 0 <= i < m < |s[j..]|
      ensures Before(rest, s[j..][i], s[j..][m])
    {
      assert Before(pending, s[i + j], s[m + j]);
      assert s[j..][i] in rest && s[j..][m] in rest;
    }
    OrderUnique(rest, s[j..], Order(rest));
  }

  // ------------------------------------------------------------ the same without positions

  /** k or a unit behind it in the order, up to and including m. */
  ghost predicate Between(pending: map<Key, Unit>, k: Key, x: Key, m: Key) {
    x in pending && !Before(pending, x, k) && !Before(pending, m, x)
  }

  /** From k up to some m that is at least minimalBuffer later, all pending units have all layers of level. */
  ghost predicate BufferedUpTo(pending: map<Key, Unit>, n: nat, minimalBuffer: int, k: Key, level: int, m: Key) {
    && m in pending && !Before(pending, m, k)
    && 1000 * (TimestampAt(pending, m) - TimestampAt(pending, k)) >= minimalBuffer
    && forall x :: Between(pending, k, x, m) ==> CompletePrefix(pending[x], n) >= level
  }

  /** Playback can start with unit k: it is independent, has a base layer, and enough is buffered behind it. */
  ghost predicate CanStart(pending: map<Key, Unit>, n: nat, minimalBuffer: int, k: Key) {
    && k in pending && Independent(pending[k]) && CompletePrefix(pending[k], n) >= 0
    && exists m :: BufferedUpTo(pending, n, minimalBuffer, k, CompletePrefix(pending[k], n), m)
  }

  ghost predicate FirstStart(pending: map<Key, Unit>, n: nat, minimalBuffer: int, k: Key) {
    CanStart(pending, n, minimalBuffer, k) &&
    forall x :: CanStart(pending, n, minimalBuffer, x) ==> x == k || Before(pending, k, x)
  }

  /** The first pending unit that is newer than last. */
  ghost predicate NextInLine(pending: map<Key, Unit>, last: int, k: Key) {
    k in pending && TimestampAt(pending, k) > last &&
    forall x :: x in pending && TimestampAt(pending, x) > last ==> x == k || Before(pending, k, x)
  }

  lemma {:induction false} RunEndMeaning(pending: map<Key, Unit>, s: seq<Key>, n: nat, prefix: int, i: nat)
    requires i <= |s| && forall k :: k in s ==> k in pending
    ensures var e := RunEnd(pending, s, n, prefix, i);
      && i <= e <= |s|
      && (forall j :: i <= j < e ==> CompletePrefix(pending[s[j]], n) >= prefix)
      && (e < |s| ==> CompletePrefix(pending[s[e]], n) < prefix)
    decreases |s| - i
  {
    if i < |s| {
      assert s[i] in s;
      RunEndMeaning(pending, s, n, prefix, i + 1);
    }
  }

  /** Positions in the order and the order itself say the same. */
  lemma Positions(pending: map<Key, Unit>, i: nat, j: nat)
    requires i < |Order(pending)| && j < |Order(pending)|
    ensures Before(pending, Order(pending)[i], Order(pending)[j]) <==> i < j
    ensures Order(pending)[i] == Order(pending)[j] <==> i == j
    ensures i <= j ==> TimestampAt(pending, Order(pending)[i]) <= TimestampAt(pending, Order(pending)[j])
  {
    var s := Order(pending);
    hide Order, TimestampAt;
    if i < j { assert Before(pending, s[i], s[j]); }
    if j < i { assert Before(pending, s[j], s[i]); }
  }

  lemma PositionOf(pending: map<Key, Unit>, k: Key) returns (i: nat)
    requires k in pending
    ensures i < |Order(pending)| && Order(pending)[i] == k
  {
    assert k in Order(pending);
    i :| 0 <= i < |Order(pending)| && Order(pending)[i] == k;
  }

  /** The buffer condition on positions is the one on units. */
  lemma StartableIff(pending: map<Key, Unit>, n: nat, minimalBuffer: int, i: nat)
    requires i < |Order(pending)| && minimalBuffer >= 0
    ensures Startable(pending, Order(pending), n, minimalBuffer, i) <==>
      CanStart(pending, n, minimalBuffer, Order(pending)[i])
  {
    hide Order, IsOrder, TimestampAt, CompletePrefix, Independent, Before, RunEnd;
    var s := Order(pending);
    var k := s[i];
    KeysOfOrder(pending);
    var level := CompletePrefix(pending[k], n);
    if Independent(pending[k]) && level >= 0 {
      RunEndMeaning(pending, s, n, level, i);
      var e := RunEnd(pending, s, n, level, i);
      assert i < e;
      if Startable(pending, s, n, minimalBuffer, i) {
        var m := s[e - 1];
        Positions(pending, e - 1, i);
        forall x | Between(pending, k, x, m)
          ensures CompletePrefix(pending[x], n) >= level
        {
          var j := PositionOf(pending, x);
          Positions(pending, j, i);
          Positions(pending, e - 1, j);
        }
        assert BufferedUpTo(pending, n, minimalBuffer, k, level, m);
      } else {
        forall m | m in pending && !Before(pending, m, k) &&
                   (forall x :: Between(pending, k, x, m) ==> CompletePrefix(pending[x], n) >= level)
          ensures TimestampAt(pending, m) <= TimestampAt(pending, s[e - 1])
        {
          var j := PositionOf(pending, m);
          Positions(pending, j, i);
          if e < |s| {
            Positions(pending, e, i);
            Positions(pending, j, e);
            assert Between(pending, k, s[e], m) <==> e <= j;
          }
          Positions(pending, j, e - 1);
        }
      }
    }
  }

  lemma KeysOfOrder(pending: map<Key, Unit>)
    ensures forall k :: k in Order(pending) ==> k in pending
  {
  }

  lemma {:induction false} FirstStartableMeaning(pending: map<Key, Unit>, s: seq<Key>, n: nat, minimalBuffer: int,
      i: nat)
    requires i <= |s|
    ensures var j := FirstStartable(pending, s, n, minimalBuffer, i);
      && (forall k :: i <= k < j ==> !Startable(pending, s, n, minimalBuffer, k))
      && (j < |s| ==> Startable(pending, s, n, minimalBuffer, j))
    decreases |s| - i
  {
    hide Startable;
    if i < |s| { FirstStartableMeaning(pending, s, n, minimalBuffer, i + 1); }
  }

  lemma FirstStartIff(pending: map<Key, Unit>, n: nat, minimalBuffer: int)
    requires minimalBuffer >= 0
    ensures var s := Order(pending); var j := FirstStartable(pending, s, n, minimalBuffer, 0);
      && (j < |s| ==> FirstStart(pending, n, minimalBuffer, s[j]))
      && (j == |s| ==> forall k :: !CanStart(pending, n, minimalBuffer, k))
  {
    hide Order, IsOrder, TimestampAt, Startable, FirstStartable, BufferedUpTo, CompletePrefix, Independent, Before;
    var s := Order(pending);
    var j := FirstStartable(pending, s, n, minimalBuffer, 0);
    FirstStartableMeaning(pending, s, n, minimalBuffer, 0);
    if j < |s| { StartableIff(pending, n, minimalBuffer, j); }
    forall k | CanStart(pending, n, minimalBuffer, k)
      ensures j < |s| && (k == s[j] || Before(pending, s[j], k))
    {
      var i := PositionOf(pending, k);
      StartableIff(pending, n, minimalBuffer, i);
      Positions(pending, j, i);
    }
  }

  lemma NextInLineIff(pending: map<Key, Unit>, last: int)
    ensures var s := Order(pending); var j := FirstNewer(pending, s, last, 0);
      && (j < |s| ==> NextInLine(pending, last, s[j]))
      && (j == |s| ==> forall k :: k in pending ==> TimestampAt(pending, k) <= last)
  {
    hide Order, IsOrder, TimestampAt, Before;
    var s := Order(pending);
    var j := FirstNewer(pending, s, last, 0);
    KeysOfOrder(pending);
    forall k | k in pending && TimestampAt(pending, k) > last
      ensures j < |s| && (k == s[j] || Before(pending, s[j], k))
    {
      var i := PositionOf(pending, k);
      Positions(pending, j, i);
    }
  }

  // ------------------------------------------------------------ what is shown

  /** A unit that was presented at time at, with its layers 0..level, out of the units that were waiting then. */
  datatype Shown = Shown(unit: Unit, timestamp: nat, at: int, level: int, restart: bool, key: Key,
                         waiting: map<Key, Unit>)

  /** A time in nanoseconds. */
  function Micros(us: int): int { 1000 * us }

  /** A number as the source's 64-bit type holds it. */
  function ToInt64(x: int): int {
    (x + 0x8000_0000_0000_0000) % 0x1_0000_0000_0000_0000 - 0x8000_0000_0000_0000
  }

  /**
   The source computes with 64 bits: a timestamp is what it should be if and only if it is below 2^63
   microseconds, and a duration if and only if it is below 2^63 nanoseconds.
   */
  lemma TimesAreExactIff(us: nat)
    requires us < 0x1_0000_0000_0000_0000
    ensures ToInt64(us) == us <==> us < 0x8000_0000_0000_0000
    ensures ToInt64(Micros(ToInt64(us))) == Micros(us) <==> Micros(us) < 0x8000_0000_0000_0000
  {
  }

  /**
   Showing is safe on its own: every layer shown is complete, and it is not too early. A start is with the first
   unit behind which enough is buffered, and with all its layers.
   */
  ghost predicate ShownOk(x: Shown, n: nat, minimalBuffer: int, latency: int) {
    && 0 <= x.level <= CompletePrefix(x.unit, n)
    && 0 in x.unit.layers && x.unit.layers[0].timestamp == x.timestamp
    && x.at >= Micros(x.timestamp) + latency
    && x.key in x.waiting && x.waiting[x.key] == x.unit
    && (x.restart ==>
          && Independent(x.unit) && x.level == CompletePrefix(x.unit, n)
          && FirstStart(x.waiting, n, minimalBuffer, x.key))
  }

  /** The level for the next unit: all its layers if it is independent, otherwise no more than before. */
  function LevelFor(level: int, u: Unit, n: nat): int {
    if Independent(u) then CompletePrefix(u, n) else Min(level, CompletePrefix(u, n))
  }

  /**
   Within a run without restart, time and timestamps go forward, the next unit in line is shown, and new layers
   begin at independent units, at once.
   */
  ghost predicate Follows(x: Shown, y: Shown, n: nat) {
    !y.restart ==>
      && x.timestamp < y.timestamp
      && y.at >= x.at + Micros(y.timestamp - x.timestamp)
      && NextInLine(y.waiting, x.timestamp, y.key)
      && y.level == LevelFor(x.level, y.unit, n)
  }

  ghost predicate LogOk(log: seq<Shown>, n: nat, minimalBuffer: int, latency: int) {
    && (forall i :: 0 <= i < |log| ==> ShownOk(log[i], n, minimalBuffer, latency))
    && (forall i :: 0 < i < |log| ==> Follows(log[i - 1], log[i], n))
    && (log != [] ==> log[0].restart)
  }

  /**
   Decode safety of a whole run: each layer shown has all lower layers with its timestamp and
   independence flag, and can be traced back, shown in every unit in between, to an independent one.
   */
  lemma {:induction false} LayersAreDecodable(log: seq<Shown>, n: nat, minimalBuffer: int, latency: int, i: nat,
                                              layer: nat)
      returns (j: nat)
    requires LogOk(log, n, minimalBuffer, latency) && i < |log| && layer <= log[i].level
    ensures j <= i && Independent(log[j].unit)
    ensures forall k :: j <= k <= i ==>
      layer <= log[k].level && layer in log[k].unit.layers && Agrees(log[k].unit, layer)
    ensures forall k :: j < k <= i ==> !log[k].restart
  {
    assert ShownOk(log[i], n, minimalBuffer, latency);
    PrefixMeaning(log[i].unit, n, 0, layer);
    assert Agrees(log[i].unit, layer);
    if Independent(log[i].unit) {
      j := i;
    } else {
      assert !log[i].restart && i > 0;
      assert Follows(log[i - 1], log[i], n);
      j := LayersAreDecodable(log, n, minimalBuffer, latency, i - 1, layer);
    }
  }

  /** Pacing of a whole run: between restarts, units are never shown faster than real time. */
  lemma {:induction false} NeverFasterThanRealTime(log: seq<Shown>, n: nat, minimalBuffer: int, latency: int, i: nat,
                                                   j: nat)
    requires LogOk(log, n, minimalBuffer, latency) && i < j < |log| && forall k :: i < k <= j ==> !log[k].restart
    ensures log[i].timestamp < log[j].timestamp && log[j].at - log[i].at >= Micros(log[j].timestamp - log[i].timestamp)
    decreases j
  {
    assert Follows(log[j - 1], log[j], n);
    if i < j - 1 { NeverFasterThanRealTime(log, n, minimalBuffer, latency, i, j - 1); }
  }
}
