/**
 internal/sub/sub.go, dependencyOrder: a depth-first search that puts a track's transitive
 dependencies in front of it; and the catalogs of scalable video it is used on
 (internal/asset.go, genLOCSVCTracks).
 */
module Dependencies {
  import opened Protocol

  datatype Track = Track(name: string, dependencies: seq<string>)

  /** GetTrackByName: the first track of that name. */
  function Lookup(catalog: seq<Track>, name: string): (r: Option<Track>)
    ensures r.Some? <==> exists t :: t in catalog && t.name == name
    ensures r.Some? ==> r.value in catalog && r.value.name == name
  {
    if catalog == [] then None
    else if catalog[0].name == name then Some(catalog[0])
    else Lookup(catalog[1..], name)
  }

  method GetTrackByName(catalog: seq<Track>, name: string) returns (r: Option<Track>)
    ensures r == Lookup(catalog, name)
  {
    for i := 0 to |catalog|
      invariant Lookup(catalog, name) == Lookup(catalog[i..], name)
    {
      if catalog[i].name == name { return Some(catalog[i]); }
      assert catalog[i..][1..] == catalog[i + 1..];
    }
    return None;
  }

  function Names(catalog: seq<Track>): set<string> {
    set t | t in catalog :: t.name
  }

  // ------------------------------------------------------------ paths

  predicate Known(catalog: seq<Track>, name: string) { Lookup(catalog, name).Some? }

  /** b is a direct dependency of a. */
  predicate Depends(catalog: seq<Track>, a: string, b: string) {
    Known(catalog, a) && b in Lookup(catalog, a).value.dependencies
  }

  predicate Chain(catalog: seq<Track>, p: seq<string>) {
    p != [] && forall i :: 0 < i < |p| ==> Depends(catalog, p[i - 1], p[i])
  }

  predicate ChainTo(catalog: seq<Track>, p: seq<string>, a: string, b: string) {
    Chain(catalog, p) && p[0] == a && p[|p| - 1] == b
  }

  ghost predicate Reachable(catalog: seq<Track>, a: string, b: string) {
    exists p :: ChainTo(catalog, p, a, b)
  }

  /** Following dependencies from a leads to a name that no track has. */
  ghost predicate Missing(catalog: seq<Track>, a: string) {
    exists b :: Reachable(catalog, a, b) && !Known(catalog, b)
  }

  predicate Repeats(p: seq<string>) { exists i, j :: 0 <= i < j < |p| && p[i] == p[j] }

  /** Following dependencies from a leads in a circle. */
  ghost predicate Cyclic(catalog: seq<Track>, a: string) {
    exists p :: Chain(catalog, p) && p[0] == a && Repeats(p)
  }

  lemma ExtendChain(catalog: seq<Track>, p: seq<string>, name: string)
    requires Chain(catalog, p) && Depends(catalog, p[|p| - 1], name)
    ensures Chain(catalog, p + [name])
  {
    hide Depends;
  }

  // ------------------------------------------------------------ orders

  /** Every name occurs once, and after all its dependencies. */
  ghost predicate Topological(catalog: seq<Track>, r: seq<string>) {
    && (forall i, j :: 0 <= i < j < |r| ==> r[i] != r[j])
    && (forall i :: 0 <= i < |r| ==> Known(catalog, r[i]))
    && (forall i, d :: 0 <= i < |r| && Depends(catalog, r[i], d) ==> d in r[..i])
  }

  lemma AppendTopological(catalog: seq<Track>, r: seq<string>, name: string)
    requires Topological(catalog, r) && Known(catalog, name) && name !in r
    requires forall d :: Depends(catalog, name, d) ==> d in r
    ensures Topological(catalog, r + [name])
  {
    hide Depends, Known;
    var s := r + [name];
    assert forall i :: 0 <= i < |r| ==> s[..i] == r[..i];
    assert s[..|r|] == r;
  }

  /** Along a chain, positions in a topological order go down. */
  lemma {:induction false} ChainDescends(catalog: seq<Track>, r: seq<string>, p: seq<string>, at: nat)
      returns (positions: seq<nat>)
    requires Topological(catalog, r) && Chain(catalog, p) && at < |r| && r[at] == p[0]
    ensures |positions| == |p| && forall k :: 0 <= k < |p| ==> positions[k] < |r| && r[positions[k]] == p[k]
    ensures forall k, m :: 0 <= k < m < |p| ==> positions[m] < positions[k]
    decreases |p|
  {
    hide Depends, Known;
    if |p| == 1 {
      positions := [at];
    } else {
      assert Depends(catalog, p[0], p[1]) && p[1] in r[..at];
      var next :| 0 <= next < at && r[..at][next] == p[1];
      assert Chain(catalog, p[1..]) by {
        assert forall i :: 0 < i < |p[1..]| ==> p[1..][i - 1] == p[i] && p[1..][i] == p[i + 1];
      }
      var rest := ChainDescends(catalog, r, p[1..], next);
      positions := [at] + rest;
      FirstPosition(catalog, r, rest[0], next);
    }
  }

  lemma FirstPosition(catalog: seq<Track>, r: seq<string>, i: nat, j: nat)
    requires Topological(catalog, r) && i < |r| && j < |r| && r[i] == r[j]
    ensures i == j
  {
  }

  /** A topological order that contains a rules out cycles and missing names, and contains all that a needs. */
  lemma OrderIsProof(catalog: seq<Track>, r: seq<string>, a: string)
    requires Topological(catalog, r) && a in r
    ensures !Cyclic(catalog, a) && !Missing(catalog, a)
    ensures forall b :: Reachable(catalog, a, b) ==> b in r
  {
    hide Depends, Known;
    var at :| 0 <= at < |r| && r[at] == a;
    forall p | Chain(catalog, p) && p[0] == a
      ensures !Repeats(p) && Known(catalog, p[|p| - 1]) && p[|p| - 1] in r
    {
      var positions := ChainDescends(catalog, r, p, at);
      assert forall k, m :: 0 <= k < m < |p| ==>
        positions[m] < positions[k] && p[k] == r[positions[k]] && p[m] == r[positions[m]];
    }
  }

  // ------------------------------------------------------------ the search

  /** The names being visited form a chain from the target to the name that is next. */
  ghost predicate Stack(catalog: seq<Track>, target: string, stack: seq<string>, name: string) {
    if stack == [] then name == target
    else Chain(catalog, stack) && stack[0] == target && Depends(catalog, stack[|stack| - 1], name)
  }

  /** With the next name, the stack is a chain of names all of which the target needs. */
  lemma StackIsChain(catalog: seq<Track>, target: string, stack: seq<string>, name: string)
    requires Stack(catalog, target, stack, name)
    ensures ChainTo(catalog, stack + [name], target, name)
    ensures !Known(catalog, name) ==> Missing(catalog, target)
    ensures name in stack ==> Cyclic(catalog, target)
    ensures Reachable(catalog, target, name)
  {
    hide Depends, Known;
    if stack != [] { ExtendChain(catalog, stack, name); }
    var p := stack + [name];
    assert ChainTo(catalog, p, target, name);
    if name in stack {
      var i :| 0 <= i < |stack| && stack[i] == name;
      assert p[i] == p[|stack|];
    }
  }

  class Visitor {
    const catalog: seq<Track>
    ghost const target: string
    var visiting: set<string>
    var visited: set<string>
    var ordered: seq<string>

    constructor (catalog: seq<Track>, ghost target: string)
      ensures this.catalog == catalog && this.target == target && visiting == {} && visited == {} && ordered == []
    {
      this.catalog, this.target := catalog, target;
      visiting, visited, ordered := {}, {}, [];
    }

    ghost predicate Valid()
      reads this
    {
      && Topological(catalog, ordered)
      && (forall x :: x in ordered <==> x in visited)
      && (forall x :: x in ordered ==> Reachable(catalog, target, x))
      && visiting <= Names(catalog)
      && visiting !! visited
    }

    /** Visits a name unless it has been visited; fails exactly if it leads to a missing name or in a circle. */
    method Visit(name: string, ghost stack: seq<string>) returns (ok: bool)
      requires Valid() && Stack(catalog, target, stack, name) && (forall x :: x in stack <==> x in visiting)
      modifies this
      ensures ok ==> Valid() && visiting == old(visiting) && old(ordered) <= ordered && name in visited
      ensures ok && name !in old(visited) ==> ordered[|ordered| - 1] == name
      ensures !ok ==> Missing(catalog, target) || Cyclic(catalog, target)
      decreases Names(catalog) - visiting, 0
    {
      hide Topological, Reachable, Missing, Cyclic, Stack, Depends;
      StackIsChain(catalog, target, stack, name);
      if name in visited { return true; }
      if name in visiting { return false; }
      var track := GetTrackByName(catalog, name);
      if track == None { return false; }
      KnownName(catalog, name);
      visiting := visiting + {name};
      ok := VisitAll(name, track.value.dependencies, stack + [name]);
      if !ok { return false; }
      AppendTopological(catalog, ordered, name);
      visiting := visiting - {name};
      visited := visited + {name};
      ordered := ordered + [name];
    }

    static lemma KnownName(catalog: seq<Track>, name: string)
      requires Known(catalog, name)
      ensures name in Names(catalog)
    {
    }

    /** The loop over the dependencies of a name that is being visited. */
    method VisitAll(name: string, dependencies: seq<string>, ghost stack: seq<string>) returns (ok: bool)
      requires Valid() && Known(catalog, name) && dependencies == Lookup(catalog, name).value.dependencies
      requires name in visiting && ChainTo(catalog, stack, target, name) && (forall x :: x in stack <==> x in visiting)
      modifies this
      ensures ok ==> Valid() && visiting == old(visiting) && old(ordered) <= ordered
      ensures ok ==> forall d :: Depends(catalog, name, d) ==> d in ordered
      ensures !ok ==> Missing(catalog, target) || Cyclic(catalog, target)
      decreases Names(catalog) - visiting, 1
    {
      hide Topological, Reachable, Missing, Cyclic, Chain, Known, Lookup;
      for i := 0 to |dependencies|
        invariant Valid() && visiting == old(visiting) && old(ordered) <= ordered
        invariant forall k :: 0 <= k < i ==> dependencies[k] in ordered
      {
        assert Depends(catalog, name, dependencies[i]);
        ok := Visit(dependencies[i], stack);
        if !ok { return false; }
      }
      return true;
    }
  }

  /**
   Succeeds exactly if the target leads neither to a missing name nor in a circle; then the result
   holds each transitive dependency once, every one before its dependents, and the target last.
   */
  method DependencyOrder(catalog: seq<Track>, target: string) returns (r: Option<seq<string>>)
    ensures r.Some? <==> !Missing(catalog, target) && !Cyclic(catalog, target)
    ensures r.Some? ==> IsDependencyOrder(catalog, target, r.value)
  {
    hide Topological, Reachable, Missing, Cyclic, Depends;
    var v := new Visitor(catalog, target);
    EmptyTopological(catalog);
    var ok := v.Visit(target, []);
    if !ok { return None; }
    OrderIsProof(catalog, v.ordered, target);
    return Some(v.ordered);
  }

  lemma EmptyTopological(catalog: seq<Track>)
    ensures Topological(catalog, [])
  {
  }

  ghost predicate IsDependencyOrder(catalog: seq<Track>, target: string, r: seq<string>) {
    && Topological(catalog, r)
    && r != [] && r[|r| - 1] == target
    && (forall x :: x in r <==> Reachable(catalog, target, x))
  }

  // ------------------------------------------------------------ scalable video

  function Decimal(n: nat): (s: string)
    ensures s != []
  {
    if n < 10 then [Digit(n)] else Decimal(n / 10) + [Digit(n % 10)]
  }

  function Digit(n: nat): char
    requires n < 10
  {
    (n as char) + '0'
  }

  lemma DigitInjective(a: nat, b: nat)
    requires a < 10 && b < 10 && Digit(a) == Digit(b)
    ensures a == b
  {
  }

  lemma {:induction false} DecimalInjective(a: nat, b: nat)
    requires Decimal(a) == Decimal(b)
    ensures a == b
    decreases a
  {
    var s, t := Decimal(a), Decimal(b);
    assert s[|s| - 1] == Digit(a % 10) && t[|t| - 1] == Digit(b % 10);
    DigitInjective(a % 10, b % 10);
    if a >= 10 && b >= 10 {
      assert s[..|s| - 1] == Decimal(a / 10) && t[..|t| - 1] == Decimal(b / 10);
      DecimalInjective(a / 10, b / 10);
    } else {
      assert |s| == 1 || |t| == 1;
    }
  }

  function LayerName(base: string, i: nat): string {
    base + "/s" + Decimal(i)
  }

  lemma LayerNameInjective(base: string, i: nat, j: nat)
    requires LayerName(base, i) == LayerName(base, j)
    ensures i == j
  {
    var prefix := base + "/s";
    assert LayerName(base, i)[|prefix|..] == Decimal(i) && LayerName(base, j)[|prefix|..] == Decimal(j);
    DecimalInjective(i, j);
  }

  function LayerTrack(base: string, i: nat): Track {
    Track(LayerName(base, i), if i == 0 then [] else [LayerName(base, i - 1)])
  }

  /** genLOCSVCTracks: one track for each spatial layer, depending on the one below. */
  method GenLOCSVCTracks(base: string, layers: nat) returns (tracks: seq<Track>)
    ensures |tracks| == layers && forall i :: 0 <= i < layers ==> tracks[i] == LayerTrack(base, i)
  {
    tracks := [];
    for i := 0 to layers
      invariant |tracks| == i && forall k :: 0 <= k < i ==> tracks[k] == LayerTrack(base, k)
    {
      var dependencies := [];
      if i > 0 { dependencies := [LayerName(base, i - 1)]; }
      tracks := tracks + [Track(LayerName(base, i), dependencies)];
    }
  }

  /** The catalog has the tracks of n layers, perhaps among others. */
  ghost predicate HasLayers(catalog: seq<Track>, base: string, n: nat) {
    forall i: nat :: i < n ==> Lookup(catalog, LayerName(base, i)) == Some(LayerTrack(base, i))
  }

  lemma {:induction false} LayersFound(tracks: seq<Track>, base: string, from: nat, i: nat)
    requires forall k :: 0 <= k < |tracks| ==> tracks[k] == LayerTrack(base, from + k)
    requires from <= i < from + |tracks|
    ensures Lookup(tracks, LayerName(base, i)) == Some(LayerTrack(base, i))
    decreases |tracks|
  {
    if tracks[0].name == LayerName(base, i) {
      LayerNameInjective(base, from, i);
    } else {
      LayersFound(tracks[1..], base, from + 1, i);
    }
  }

  lemma LayerDepends(catalog: seq<Track>, base: string, n: nat, i: nat, d: string)
    requires HasLayers(catalog, base, n) && i < n
    ensures Known(catalog, LayerName(base, i))
    ensures Depends(catalog, LayerName(base, i), d) <==> i > 0 && d == LayerName(base, i - 1)
  {
    hide Lookup, LayerName;
  }

  lemma {:induction false} LayerChain(catalog: seq<Track>, base: string, n: nat, k: nat, p: seq<string>)
    requires HasLayers(catalog, base, n) && k < n && Chain(catalog, p) && p[0] == LayerName(base, k)
    ensures |p| <= k + 1 && p[|p| - 1] == LayerName(base, k + 1 - |p|)
    decreases |p|
  {
    hide Depends, LayerName, HasLayers;
    if |p| > 1 {
      var q := p[..|p| - 1];
      LayerChain(catalog, base, n, k, q);
      assert Depends(catalog, q[|q| - 1], p[|p| - 1]);
      LayerDepends(catalog, base, n, k + 1 - |q|, p[|p| - 1]);
    }
  }

  lemma {:induction false} LayerReachable(catalog: seq<Track>, base: string, n: nat, k: nat, i: nat)
    requires HasLayers(catalog, base, n) && i <= k < n
    ensures Reachable(catalog, LayerName(base, k), LayerName(base, i))
    decreases k - i
  {
    hide Depends, LayerName, HasLayers;
    var target, name := LayerName(base, k), LayerName(base, i);
    if i == k {
      assert ChainTo(catalog, [target], target, name);
    } else {
      LayerReachable(catalog, base, n, k, i + 1);
      var p :| ChainTo(catalog, p, target, LayerName(base, i + 1));
      LayerDepends(catalog, base, n, i + 1, name);
      ExtendChain(catalog, p, name);
      assert ChainTo(catalog, p + [name], target, name);
    }
  }

  /** What the target layer needs are the layers below it. */
  lemma LayersNeeded(catalog: seq<Track>, base: string, n: nat, k: nat, x: string)
    requires HasLayers(catalog, base, n) && k < n
    ensures Reachable(catalog, LayerName(base, k), x) <==> exists i: nat :: i <= k && x == LayerName(base, i)
  {
    hide Depends, LayerName, HasLayers;
    if Reachable(catalog, LayerName(base, k), x) {
      var p :| ChainTo(catalog, p, LayerName(base, k), x);
      LayerChain(catalog, base, n, k, p);
    }
    forall i: nat | i <= k && x == LayerName(base, i)
      ensures Reachable(catalog, LayerName(base, k), x)
    {
      LayerReachable(catalog, base, n, k, i);
    }
  }

  /** The element at position q of an order is one of the layers. */
  lemma LayerAt(catalog: seq<Track>, base: string, n: nat, k: nat, r: seq<string>, q: nat) returns (i: nat)
    requires HasLayers(catalog, base, n) && k < n && IsDependencyOrder(catalog, LayerName(base, k), r) && q < |r|
    ensures i <= k && r[q] == LayerName(base, i) && (i == k <==> q == |r| - 1)
  {
    hide Reachable, HasLayers, LayerName, Depends, Known;
    assert r[q] in r;
    LayersNeeded(catalog, base, n, k, r[q]);
    i :| i <= k && r[q] == LayerName(base, i);
    if q == |r| - 1 { LayerNameInjective(base, i, k); }
  }

  lemma PositionOf(catalog: seq<Track>, base: string, n: nat, k: nat, r: seq<string>, i: nat) returns (q: nat)
    requires HasLayers(catalog, base, n) && k < n && IsDependencyOrder(catalog, LayerName(base, k), r) && i <= k
    ensures q < |r| && r[q] == LayerName(base, i)
  {
    hide Reachable, HasLayers, LayerName, Topological;
    LayerReachable(catalog, base, n, k, i);
    assert LayerName(base, i) in r;
    q :| 0 <= q < |r| && r[q] == LayerName(base, i);
  }

  /** Right before the last layer comes the one below it. */
  lemma LastButOne(catalog: seq<Track>, base: string, n: nat, k: nat, r: seq<string>)
    requires HasLayers(catalog, base, n) && 0 < k < n && IsDependencyOrder(catalog, LayerName(base, k), r)
    ensures |r| >= 2 && r[|r| - 2] == LayerName(base, k - 1)
  {
    hide Reachable, LayerName, HasLayers, Depends, Known;
    var below := PositionOf(catalog, base, n, k, r, k - 1);
    if below == |r| - 1 { LayerNameInjective(base, k - 1, k); }
    var j := LayerAt(catalog, base, n, k, r, |r| - 2);
    if j < k - 1 { NotLastButOne(catalog, base, n, k, r, j); }
  }

  lemma NotLastButOne(catalog: seq<Track>, base: string, n: nat, k: nat, r: seq<string>, j: nat)
    requires HasLayers(catalog, base, n) && k < n && IsDependencyOrder(catalog, LayerName(base, k), r) && j < k - 1 &&
      |r| >= 2
    ensures r[|r| - 2] != LayerName(base, j)
  {
    hide Reachable, LayerName, HasLayers, Depends, Known;
    var q := PositionOf(catalog, base, n, k, r, j + 1);
    var i := LayerAt(catalog, base, n, k, r, q);
    LayerNameInjective(base, i, j + 1);
    LayerDepends(catalog, base, n, j + 1, LayerName(base, j));
    assert LayerName(base, j) in r[..q];
    var e :| 0 <= e < q && r[..q][e] == LayerName(base, j);
    assert r[e] != r[|r| - 2];
  }

  lemma PrefixOrder(catalog: seq<Track>, base: string, n: nat, k: nat, r: seq<string>)
    requires HasLayers(catalog, base, n) && 0 < k < n && IsDependencyOrder(catalog, LayerName(base, k), r)
    ensures |r| >= 2 && IsDependencyOrder(catalog, LayerName(base, k - 1), r[..|r| - 1])
  {
    hide Reachable, HasLayers, LayerName, Depends, Known;
    LastButOne(catalog, base, n, k, r);
    var init := r[..|r| - 1];
    assert forall i :: 0 <= i < |init| ==> init[i] == r[i] && init[..i] == r[..i];
    assert Topological(catalog, init);
    forall x
      ensures x in init <==> Reachable(catalog, LayerName(base, k - 1), x)
    {
      LayersNeeded(catalog, base, n, k - 1, x);
      if x in init {
        var q :| 0 <= q < |init| && init[q] == x;
        var i := LayerAt(catalog, base, n, k, r, q);
        assert i <= k - 1;
      }
      if exists i: nat :: i <= k - 1 && x == LayerName(base, i) {
        var i: nat :| i <= k - 1 && x == LayerName(base, i);
        var q := PositionOf(catalog, base, n, k, r, i);
        if q == |r| - 1 { LayerNameInjective(base, i, k); }
        assert init[q] == x;
      }
    }
  }

  /** In any dependency order of layer k, the layers come from the base up. */
  lemma {:induction false} LayersFromTheBase(catalog: seq<Track>, base: string, n: nat, k: nat, r: seq<string>)
    requires HasLayers(catalog, base, n) && k < n && IsDependencyOrder(catalog, LayerName(base, k), r)
    ensures r == seq(k + 1, i requires 0 <= i <= k => LayerName(base, i))
    decreases k
  {
    hide IsDependencyOrder, HasLayers, LayerName;
    if k == 0 {
      OrderNotEmpty(catalog, LayerName(base, k), r);
      var i := LayerAt(catalog, base, n, k, r, 0);
    } else {
      OrderNotEmpty(catalog, LayerName(base, k), r);
      PrefixOrder(catalog, base, n, k, r);
      LayersFromTheBase(catalog, base, n, k - 1, r[..|r| - 1]);
    }
  }

  lemma OrderNotEmpty(catalog: seq<Track>, target: string, r: seq<string>)
    requires IsDependencyOrder(catalog, target, r)
    ensures r != [] && r[|r| - 1] == target
  {
  }

  /** On a catalog from genLOCSVCTracks, the order of layer k is s0, s1, ..., sk. */
  method LayerOrder(base: string, layers: nat, k: nat) returns (r: Option<seq<string>>)
    requires k < layers
    ensures r == Some(seq(k + 1, i requires 0 <= i <= k => LayerName(base, i)))
  {
    hide IsDependencyOrder, Missing, Cyclic, HasLayers, LayerName, LayerTrack;
    var tracks := GenLOCSVCTracks(base, layers);
    AllLayersFound(tracks, base);
    r := DependencyOrder(tracks, LayerName(base, k));
    LayersAreFine(tracks, base, layers, k);
    LayersFromTheBase(tracks, base, layers, k, r.value);
  }

  lemma AllLayersFound(tracks: seq<Track>, base: string)
    requires forall i :: 0 <= i < |tracks| ==> tracks[i] == LayerTrack(base, i)
    ensures HasLayers(tracks, base, |tracks|)
  {
    hide LayerName, LayerTrack, Lookup;
    forall i: nat | i < |tracks|
      ensures Lookup(tracks, LayerName(base, i)) == Some(LayerTrack(base, i))
    {
      LayersFound(tracks, base, 0, i);
    }
  }

  lemma LayersAreFine(catalog: seq<Track>, base: string, n: nat, k: nat)
    requires HasLayers(catalog, base, n) && k < n
    ensures !Missing(catalog, LayerName(base, k)) && !Cyclic(catalog, LayerName(base, k))
  {
    hide LayerName, HasLayers, Depends, Known;
    var target := LayerName(base, k);
    forall b | Reachable(catalog, target, b)
      ensures Known(catalog, b)
    {
      LayersNeeded(catalog, base, n, k, b);
      var i: nat :| i <= k && b == LayerName(base, i);
      LayerDepends(catalog, base, n, i, b);
    }
    forall p | Chain(catalog, p) && p[0] == target
      ensures !Repeats(p)
    {
      forall i, j | 0 <= i < j < |p|
        ensures p[i] != p[j]
      {
        ChainPrefix(catalog, p, i);
        ChainPrefix(catalog, p, j);
        LayerChain(catalog, base, n, k, p[..i + 1]);
        LayerChain(catalog, base, n, k, p[..j + 1]);
        if p[i] == p[j] { LayerNameInjective(base, k - i, k - j); }
      }
    }
  }

  lemma ChainPrefix(catalog: seq<Track>, p: seq<string>, i: nat)
    requires Chain(catalog, p) && i < |p|
    ensures Chain(catalog, p[..i + 1]) && p[..i + 1][0] == p[0] && p[..i + 1][i] == p[i]
  {
    hide Depends;
  }
}
