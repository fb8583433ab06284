/** The publish order: waves of packages whose dependencies are all placed, sorted within a wave. */
module TopologicalOrder {
  import opened Wrappers
  import opened Names
  import opened Packages

  /** Each workspace package with the workspace packages it depends on. */
  type Graph = map<string, set<string>>

  function GraphOf(byName: map<string, Package>): Graph {
    map name | name in byName :: set d | d in InternalDependencies(byName[name]) && d in byName
  }

  ghost predicate Closed(g: Graph) {
    forall n | n in g :: g[n] <= g.Keys
  }

  /** The packages placed within the first k waves. */
  ghost function Placed(g: Graph, k: nat): set<string>
    decreases k, 0
  {
    if k == 0 then {} else Placed(g, k - 1) + Wave(g, k - 1)
  }

  /** Wave k: not placed before, and every dependency placed before. */
  ghost function Wave(g: Graph, k: nat): set<string>
    decreases k, 1
  {
    set n | n in g && n !in Placed(g, k) && g[n] <= Placed(g, k)
  }

  /** The first k waves in order, each one sorted. */
  ghost function Waves(g: Graph, k: nat): seq<string> {
    if k == 0 then [] else Waves(g, k - 1) + SortedNames(Wave(g, k - 1))
  }

  // ------------------------------------------------------------ chains, depth

  /** A chain of dependencies: each name depends on the next. */
  ghost predicate Chain(g: Graph, p: seq<string>) {
    && p != []
    && (forall i | 0 <= i < |p| :: p[i] in g)
    && (forall i | 0 <= i < |p| - 1 :: p[i + 1] in g[p[i]])
  }

  ghost predicate Cycle(g: Graph, p: seq<string>) {
    Chain(g, p) && |p| > 1 && p[0] == p[|p| - 1]
  }

  ghost predicate Cyclic(g: Graph) {
    exists p :: Cycle(g, p)
  }

  lemma {:induction false} PlacedGrows(g: Graph, k: nat, l: nat)
    requires k <= l
    ensures Placed(g, k) <= Placed(g, l) <= g.Keys
  {
    if l == 0 {
    } else if k < l {
      PlacedGrows(g, k, l - 1);
    } else {
      PlacedGrows(g, l - 1, l - 1);
    }
  }

  /** Placed within k + 1 waves means: every dependency placed within k. */
  lemma {:induction false} PlacedNext(g: Graph, k: nat, n: string)
    requires n in g
    ensures n in Placed(g, k + 1) <==> g[n] <= Placed(g, k)
  {
    if n in Placed(g, k) && k > 0 {
      PlacedNext(g, k - 1, n);
      PlacedGrows(g, k - 1, k);
    }
  }

  lemma ChainTail(g: Graph, p: seq<string>)
    requires Chain(g, p) && |p| > 1
    ensures Chain(g, p[1..]) && p[1] in g[p[0]]
  {
  }

  lemma ChainCons(g: Graph, n: string, p: seq<string>)
    requires n in g && Chain(g, p) && p[0] in g[n]
    ensures Chain(g, [n] + p)
  {
    var q := [n] + p;
    forall i | 0 <= i < |q| - 1 ensures q[i + 1] in g[q[i]] {
      if i > 0 { assert q[i] == p[i - 1] && q[i + 1] == p[i]; }
    }
  }

  /** A package placed within k waves starts no chain of more than k packages. */
  lemma {:induction false} PlacedBoundsChains(g: Graph, k: nat, p: seq<string>)
    requires Chain(g, p) && p[0] in Placed(g, k)
    ensures |p| <= k
  {
    if |p| > 1 {
      ChainTail(g, p);
      PlacedNext(g, k - 1, p[0]);
      PlacedBoundsChains(g, k - 1, p[1..]);
    }
  }

  /** A package not placed within k waves starts a chain of k + 1 packages. */
  lemma {:induction false} UnplacedStartsChain(g: Graph, k: nat, n: string) returns (p: seq<string>)
    requires Closed(g) && n in g && n !in Placed(g, k)
    ensures Chain(g, p) && p[0] == n && |p| == k + 1
  {
    hide Placed, Wave;
    if k == 0 {
      p := [n];
    } else {
      PlacedNext(g, k - 1, n);
      var d :| d in g[n] && d !in Placed(g, k - 1);
      assert d in g;
      hide Closed, Chain;
      var q := UnplacedStartsChain(g, k - 1, d);
      ChainCons(g, n, q);
      p := [n] + q;
    }
  }

  /** Every package is placed in the wave numbered by its longest dependency chain. */
  lemma {:induction false} WaveIsDepth(g: Graph, k: nat, n: string)
    requires Closed(g) && n in Wave(g, k)
    ensures exists p :: Chain(g, p) && p[0] == n && |p| == k + 1
    ensures forall p | Chain(g, p) && p[0] == n :: |p| <= k + 1
  {
    var p := UnplacedStartsChain(g, k, n);
    PlacedNext(g, k, n);
    forall p | Chain(g, p) && p[0] == n ensures |p| <= k + 1 {
      PlacedBoundsChains(g, k + 1, p);
    }
  }

  // ------------------------------------------------------------------ cycles

  /** Nothing on a cycle is ever placed. */
  lemma {:induction false} CycleNeverPlaced(g: Graph, p: seq<string>, k: nat, i: nat)
    requires Cycle(g, p) && i < |p|
    ensures p[i] !in Placed(g, k)
  {
    if k > 0 {
      var next := if i == |p| - 1 then 1 else i + 1;
      assert p[next] in g[p[i]];
      CycleNeverPlaced(g, p, k - 1, next);
      PlacedNext(g, k - 1, p[i]);
    }
  }

  lemma {:induction false} DistinctFit(p: seq<string>, s: set<string>)
    requires Distinct(p) && forall x | x in p :: x in s
    ensures |p| <= |s|
  {
    if p != [] {
      var n := |p| - 1;
      DistinctFit(p[..n], s - {p[n]});
    }
  }

  /** A chain longer than the graph has packages closes a cycle. */
  lemma LongChainClosesCycle(g: Graph, p: seq<string>)
    requires Chain(g, p) && |p| > |g.Keys|
    ensures Cyclic(g)
  {
    if Distinct(p) {
      DistinctFit(p, g.Keys);
    }
    var i, j :| 0 <= i < j < |p| && p[i] == p[j];
    var c := p[i..j + 1];
    assert forall k | 0 <= k < |c| :: c[k] == p[i + k];
    assert Cycle(g, c);
  }

  /** As many waves as there are packages place everything, exactly when there is no cycle. */
  lemma {:induction false} AllPlacedUnlessCyclic(g: Graph)
    requires Closed(g)
    ensures Placed(g, |g.Keys|) == g.Keys <==> !Cyclic(g)
  {
    PlacedGrows(g, 0, |g.Keys|);
    if Cyclic(g) {
      var p :| Cycle(g, p);
      CycleNeverPlaced(g, p, |g.Keys|, 0);
    } else if Placed(g, |g.Keys|) != g.Keys {
      var n :| n in g && n !in Placed(g, |g.Keys|);
      var p := UnplacedStartsChain(g, |g.Keys|, n);
      LongChainClosesCycle(g, p);
    }
  }

  lemma EmptyWaveStep(g: Graph, k: nat)
    requires Wave(g, k) == {}
    ensures Placed(g, k + 1) == Placed(g, k) && Waves(g, k + 1) == Waves(g, k) && Wave(g, k + 1) == {}
  {
    assert Placed(g, k + 1) == Placed(g, k);
    assert Waves(g, k + 1) == Waves(g, k) + [];
    assert Wave(g, k + 1) == Wave(g, k);
  }

  /** Once a wave is empty, nothing is placed any more. */
  lemma {:induction false} EmptyWaveStaysEmpty(g: Graph, k: nat, l: nat)
    requires Wave(g, k) == {} && k <= l
    ensures Wave(g, l) == {} && Placed(g, l) == Placed(g, k) && Waves(g, l) == Waves(g, k)
  {
    hide Wave, Placed, Waves;
    if k < l {
      EmptyWaveStaysEmpty(g, k, l - 1);
      EmptyWaveStep(g, l - 1);
    }
  }

  /** A nonempty wave places at least one package. */
  lemma {:induction false} WavesPlace(g: Graph, k: nat)
    ensures (k > 0 ==> Wave(g, k - 1) != {}) ==> |Placed(g, k)| >= k
  {
    if k > 0 && Wave(g, k - 1) != {} {
      if k > 1 && Wave(g, k - 2) == {} {
        EmptyWaveStaysEmpty(g, k - 2, k - 1);
      }
      WavesPlace(g, k - 1);
      var n :| n in Wave(g, k - 1);
      assert n !in Placed(g, k - 1) && n in Placed(g, k);
      CardinalityGrows(Placed(g, k - 1), Placed(g, k), n);
    }
  }

  lemma SubsetFits(s: set<string>, t: set<string>)
    requires s <= t
    ensures |s| <= |t|
  {
    var rest := t - s;
    assert t == s + rest;
  }

  lemma CardinalityGrows(s: set<string>, t: set<string>, n: string)
    requires s <= t && n !in s && n in t
    ensures |s| < |t|
  {
    SubsetFits(s + {n}, t);
  }

  // ------------------------------------------------------------ what the order is

  lemma DistinctJoin(a: seq<string>, b: seq<string>)
    requires Distinct(a) && Distinct(b) && forall x | x in a :: x !in b
    ensures Distinct(a + b)
  {
    forall i, j | 0 <= i < |a| && 0 <= j < |b| ensures a[i] != b[j] {
      assert a[i] in a && b[j] in b;
    }
  }

  lemma {:induction false} WavesHold(g: Graph, k: nat)
    ensures forall x :: x in Waves(g, k) <==> x in Placed(g, k)
    ensures Distinct(Waves(g, k))
  {
    if k > 0 {
      hide Distinct, SortedNames;
      WavesHold(g, k - 1);
      SortedNamesDistinct(Wave(g, k - 1));
      DistinctJoin(Waves(g, k - 1), SortedNames(Wave(g, k - 1)));
    } else {
      assert Waves(g, 0) == [];
    }
  }

  /** Every package comes after everything it depends on. */
  lemma {:induction false} DependenciesComeFirst(g: Graph, k: nat, j: nat, d: string)
    requires j < |Waves(g, k)| && Waves(g, k)[j] in g && d in g[Waves(g, k)[j]]
    ensures d in Waves(g, k)[..j]
  {
    hide SortedNames, Wave, Placed;
    var before, wave := Waves(g, k - 1), SortedNames(Wave(g, k - 1));
    assert Waves(g, k) == before + wave;
    if j < |before| {
      assert before[j] == Waves(g, k)[j];
      DependenciesComeFirst(g, k - 1, j, d);
      assert Waves(g, k)[..j] == before[..j];
    } else {
      assert Waves(g, k)[j] == wave[j - |before|] && wave[j - |before|] in wave;
      WaveDependsOnPlaced(g, k - 1, Waves(g, k)[j], d);
      WavesHold(g, k - 1);
      assert Waves(g, k)[..j] == before + wave[..j - |before|];
    }
  }

  lemma {:induction false} WaveDependsOnPlaced(g: Graph, k: nat, n: string, d: string)
    requires n in g && n in SortedNames(Wave(g, k)) && d in g[n]
    ensures d in Placed(g, k)
  {
  }

  /** The whole order: as many waves as there are packages are always enough. */
  ghost function Order(g: Graph): seq<string> {
    Waves(g, |g.Keys|)
  }

  // ------------------------------------------------------------------ the loop

  /** Throws with the names it could not place, in order, exactly when there is a cycle. */
  method TopologicalPublishOrder(packages: seq<Package>) returns (r: Result<seq<Package>, seq<string>>)
    ensures var g := GraphOf(ByName(packages));
            && (r.Ok? <==> !Cyclic(g))
            && (r.Ok? ==> Lists(ByName(packages), r.value, Order(g)))
            && (r.Err? ==> r.error == SortedNames(g.Keys - Placed(g, |g.Keys|)))
  {
    hide ByName, Placed, Wave, Waves, Order, Cyclic, Closed, Lists, SortedNames, Pending, Elements;
    var byName := ByName(packages);
    var g := GraphOf(byName);
    GraphIsClosed(byName);
    hide GraphOf;
    var pending := g;
    var ordered: seq<Package> := [];
    ghost var k := 0;
    NothingPlaced(byName, g);
    FreeIsWave(g, pending, 0);
    while |pending| > 0
      invariant Pending(g, pending, k)
      invariant Lists(byName, ordered, Waves(g, k))
      invariant |pending| > 0 <==> !(g.Keys <= Placed(g, k))
      decreases |pending|
    {
      var free := set n | n in pending && |pending[n]| == 0;
      var ready := SortedNames(free);
      FreeIsWave(g, pending, k);
      if |ready| == 0 {
        var stuck := SortedNames(pending.Keys);
        PendingKeys(g, pending, k);
        EmptyWaveSettles(g, k);
        AllPlacedUnlessCyclic(g);
        return Err(stuck);
      }
      ReadyIsKnown(byName, g, pending, ready, k);
      ghost var ordered0, pending0 := ordered, pending;
      ordered, pending := PlaceReady(byName, ordered, pending, ready);
      ElementsSorted(Wave(g, k));
      ListsMore(byName, Waves(g, k), ordered0, ready, ordered);
      PendingLess(g, pending0, pending, k);
      WavesMore(g, k);
      k := k + 1;
      FreeIsWave(g, pending, k);
    }
    AllPlacedSettles(g, k);
    AllPlacedUnlessCyclic(g);
    r := Ok(ordered);
  }

  ghost predicate Lists(byName: map<string, Package>, ordered: seq<Package>, names: seq<string>) {
    |ordered| == |names| && forall i | 0 <= i < |names| :: names[i] in byName && ordered[i] == byName[names[i]]
  }

  /** After k waves: who is still pending, and on what. */
  ghost predicate Pending(g: Graph, pending: Graph, k: nat) {
    && pending.Keys == g.Keys - Placed(g, k)
    && forall n | n in pending :: pending[n] == g[n] - Placed(g, k)
  }

  lemma {:induction false} NothingPlaced(byName: map<string, Package>, g: Graph)
    ensures Pending(g, g, 0) && Lists(byName, [], Waves(g, 0))
  {
  }

  lemma EmptyDifference(s: set<string>, t: set<string>)
    ensures |s - t| == 0 <==> s <= t
  {
    assert |s - t| == 0 <==> s - t == {};
    assert s - t == {} ==> forall x | x in s :: x !in s - t;
  }

  lemma {:induction false} FreeIsWave(g: Graph, pending: Graph, k: nat)
    requires Pending(g, pending, k)
    ensures (set n | n in pending && |pending[n]| == 0) == Wave(g, k)
    ensures |pending| > 0 <==> !(g.Keys <= Placed(g, k))
  {
    hide Placed;
    assert |pending| == |pending.Keys|;
    EmptyDifference(g.Keys, Placed(g, k));
    forall n | n in pending ensures |pending[n]| == 0 <==> g[n] <= Placed(g, k) {
      EmptyDifference(g[n], Placed(g, k));
    }
  }

  lemma {:induction false} PendingKeys(g: Graph, pending: Graph, k: nat)
    requires Pending(g, pending, k)
    ensures pending.Keys == g.Keys - Placed(g, k)
  {
  }

  lemma WavesMore(g: Graph, k: nat)
    ensures Waves(g, k + 1) == Waves(g, k) + SortedNames(Wave(g, k))
  {
  }

  lemma {:induction false} ReadyIsKnown(byName: map<string, Package>, g: Graph, pending: Graph, ready: seq<string>,
                                        k: nat)
    requires g.Keys == byName.Keys && Pending(g, pending, k) && ready == SortedNames(Wave(g, k))
    ensures forall x | x in ready :: x in pending && x in byName
  {
    hide Placed;
  }

  /** The package list grows with the name list. */
  lemma ListsMore(byName: map<string, Package>, names: seq<string>, ordered: seq<Package>,
                  ready: seq<string>, ordered': seq<Package>)
    requires Lists(byName, ordered, names) && forall x | x in ready :: x in byName
    requires |ordered'| == |ordered| + |ready| && ordered'[..|ordered|] == ordered
    requires forall i | 0 <= i < |ready| :: ordered'[|ordered| + i] == byName[ready[i]]
    ensures Lists(byName, ordered', names + ready)
  {
    forall i | 0 <= i < |names + ready|
      ensures (names + ready)[i] in byName && ordered'[i] == byName[(names + ready)[i]]
    {
      if i < |ordered| {
        assert ordered'[i] == ordered'[..|ordered|][i];
      } else {
        assert ordered'[i] == ordered'[|ordered| + (i - |ordered|)];
      }
    }
  }

  /** Taking a wave out of everything pending leaves what is pending after it. */
  lemma {:induction false} PendingLess(g: Graph, pending: Graph, pending': Graph, k: nat)
    requires Pending(g, pending, k)
    requires pending'.Keys == pending.Keys - Wave(g, k)
    requires forall n | n in pending' :: pending'[n] == pending[n] - Wave(g, k)
    ensures Pending(g, pending', k + 1)
  {
    hide Wave;
    assert Placed(g, k + 1) == Placed(g, k) + Wave(g, k);
  }

  function Elements(s: seq<string>): set<string> {
    set x | x in s
  }

  lemma NoElements()
    ensures Elements([]) == {}
  {
  }

  lemma FewerPending(pending: Graph, ready: seq<string>)
    requires ready != [] && forall x | x in ready :: x in pending
    ensures (pending - Elements(ready)).Keys == pending.Keys - Elements(ready)
    ensures |pending - Elements(ready)| < |pending|
  {
    var rest := pending - Elements(ready);
    assert ready[0] in ready;
    CardinalityGrows(rest.Keys, pending.Keys, ready[0]);
    assert |rest| == |rest.Keys| && |pending| == |pending.Keys|;
  }

  lemma ElementsSnoc(s: seq<string>, i: nat)
    requires i < |s|
    ensures Elements(s[..i + 1]) == Elements(s[..i]) + {s[i]}
  {
    assert s[..i + 1] == s[..i] + [s[i]];
  }

  lemma {:induction false} ElementsSorted(s: set<string>)
    ensures Elements(SortedNames(s)) == s
  {
  }

  /** Appends the ready packages and takes them out of everybody's pending dependencies. */
  method PlaceReady(byName: map<string, Package>, ordered: seq<Package>, pending: Graph, ready: seq<string>)
    returns (ordered': seq<Package>, pending': Graph)
    requires ready != [] && forall x | x in ready :: x in pending && x in byName
    ensures pending'.Keys == pending.Keys - Elements(ready) && |pending'| < |pending|
    ensures forall n | n in pending' :: pending'[n] == pending[n] - Elements(ready)
    ensures |ordered'| == |ordered| + |ready| && ordered'[..|ordered|] == ordered
    ensures forall i | 0 <= i < |ready| :: ordered'[|ordered| + i] == byName[ready[i]]
  {
    hide Elements;
    ordered', pending' := ordered, pending;
    NoElements();
    assert pending - {} == pending;
    for index := 0 to |ready|
      invariant |ordered'| == |ordered| + index && ordered'[..|ordered|] == ordered
      invariant forall i | 0 <= i < index :: ordered'[|ordered| + i] == byName[ready[i]]
      invariant pending' == pending - Elements(ready[..index])
    {
      var name := ready[index];
      ordered' := ordered' + [byName[name]];
      pending' := pending' - {name};
      ElementsSnoc(ready, index);
    }
    assert ready[..|ready|] == ready;
    FewerPending(pending, ready);
    pending' := DropDependencies(pending', ready);
  }

  /** Deletes the ready names from every pending set of dependencies. */
  method DropDependencies(pending: Graph, ready: seq<string>) returns (pending': Graph)
    ensures pending'.Keys == pending.Keys && |pending'| == |pending|
    ensures forall n | n in pending :: pending'[n] == pending[n] - Elements(ready)
  {
    pending' := pending;
    var todo := pending.Keys;
    while todo != {}
      invariant todo <= pending.Keys && pending'.Keys == pending.Keys
      invariant forall n | n in pending ::
                  pending'[n] == if n in todo then pending[n] else pending[n] - Elements(ready)
      decreases |todo|
    {
      var n :| n in todo;
      var dependencies := pending'[n];
      for index := 0 to |ready|
        invariant dependencies == pending[n] - Elements(ready[..index])
      {
        dependencies := dependencies - {ready[index]};
        ElementsSnoc(ready, index);
      }
      assert ready[..|ready|] == ready;
      pending' := pending'[n := dependencies];
      todo := todo - {n};
    }
    assert |pending'.Keys| == |pending.Keys|;
  }

  lemma {:induction false} EmptyWaveSettles(g: Graph, k: nat)
    requires Wave(g, k) == {} && Placed(g, k) != g.Keys
    ensures Placed(g, |g.Keys|) == Placed(g, k)
  {
    if k <= |g.Keys| {
      EmptyWaveStaysEmpty(g, k, |g.Keys|);
    } else {
      FullByThen(g, k);
    }
  }

  /** After as many waves as there are packages nothing is left to place. */
  lemma {:induction false} FullByThen(g: Graph, k: nat)
    requires |g.Keys| <= k
    ensures Placed(g, k) == Placed(g, |g.Keys|) && Waves(g, k) == Waves(g, |g.Keys|)
  {
    var n := |g.Keys|;
    if Wave(g, n) != {} {
      WavesPlace(g, n + 1);
      PlacedGrows(g, 0, n + 1);
      SubsetFits(Placed(g, n + 1), g.Keys);
    }
    EmptyWaveStaysEmpty(g, n, k);
  }

  lemma {:induction false} AllPlacedSettles(g: Graph, k: nat)
    requires g.Keys <= Placed(g, k)
    ensures Placed(g, |g.Keys|) == g.Keys && Waves(g, k) == Order(g)
  {
    PlacedGrows(g, 0, k);
    if k <= |g.Keys| {
      assert Wave(g, k) == {};
      EmptyWaveStaysEmpty(g, k, |g.Keys|);
    } else {
      FullByThen(g, k);
    }
  }

  // ---------------------------------------------------------------- the promise

  /**
    Without a cycle the order lists every package exactly once, each after everything it
    depends on.
   */
  lemma OrderIsTopological(g: Graph)
    requires Closed(g) && !Cyclic(g)
    ensures Distinct(Order(g)) && (forall x :: x in Order(g) <==> x in g)
    ensures forall j | 0 <= j < |Order(g)| && Order(g)[j] in g :: forall d | d in g[Order(g)[j]] :: d in Order(g)[..j]
  {
    AllPlacedUnlessCyclic(g);
    WavesHold(g, |g.Keys|);
    hide Waves, Placed, Closed, Cyclic, Distinct;
    forall j, d | 0 <= j < |Order(g)| && Order(g)[j] in g && d in g[Order(g)[j]] ensures d in Order(g)[..j] {
      DependenciesComeFirst(g, |g.Keys|, j, d);
    }
  }

  lemma GraphIsClosed(byName: map<string, Package>)
    ensures Closed(GraphOf(byName)) && GraphOf(byName).Keys == byName.Keys
  {
  }

  /** The order does not depend on the order in which the packages were found. */
  lemma {:induction false} OrderIgnoresInputOrder(packages: seq<Package>, shuffled: seq<Package>)
    requires DistinctNames(packages) && DistinctNames(shuffled)
    requires forall p :: p in packages <==> p in shuffled
    ensures GraphOf(ByName(packages)) == GraphOf(ByName(shuffled))
    ensures Order(GraphOf(ByName(packages))) == Order(GraphOf(ByName(shuffled)))
  {
    ByNameUnordered(packages, shuffled);
  }
}
