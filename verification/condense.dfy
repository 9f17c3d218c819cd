/**
 * Steps 1 and 2 of `process_modules`: map every file to its strongly
 * connected component, and build the provider-to-consumer graph between the
 * components together with the in-degree counters the Kahn loop starts from.
 *
 * The components are taken as a parameter satisfying `SccPartition`, the
 * facts proved about `find_sccs` in `SccCorrect.FindSccsCorrect`.
 */
module Condense {
  import opened Digraph
  import opened Sets
  import opened Kahn

  /** Every file is in exactly one component, and two files share one exactly when they reach each other. */
  ghost predicate SccPartition<N(!new)>(g: Graph<N>, sccs: set<set<N>>) {
    && Closed(g)
    && (forall c :: c in sccs ==> c <= g.Keys)
    && (forall x :: x in g ==> exists c :: c in sccs && x in c)
    && (forall c1, c2, x :: c1 in sccs && c2 in sccs && x in c1 && x in c2 ==> c1 == c2)
    && (forall x, y :: x in g ==> (MutReach(g, x, y) <==> exists c :: c in sccs && x in c && y in c))
  }

  /** Some component holds `f`. */
  ghost predicate Covered<N(!new)>(sccs: set<set<N>>, f: N) {
    exists c :: c in sccs && f in c
  }

  /** `comp_map[f]`: the component `f` was filed under, or the singleton `{f}` of the fallback loop. */
  ghost function CompMap<N(!new)>(sccs: set<set<N>>, f: N): set<N> {
    if Covered(sccs, f) then
      var c :| c in sccs && f in c; c
    else
      {f}
  }

  /** `all_comps`: the components, plus a singleton for every file no component holds. */
  ghost function AllComps<N(!new)>(g: Graph<N>, sccs: set<set<N>>): set<set<N>> {
    sccs + (set f | f in g && !Covered(sccs, f) :: {f})
  }

  /** Some file of component `c` imports some file of component `p`. */
  ghost predicate Links<N(!new)>(g: Graph<N>, sccs: set<set<N>>, c: set<N>, p: set<N>) {
    exists x, y :: x in g && y in g[x] && CompMap(sccs, x) == c && CompMap(sccs, y) == p
  }

  /** `comp_out`: for every import `x -> y` across components, `comp(x)` consumes `comp(y)`. */
  ghost function CompOut<N(!new)>(g: Graph<N>, sccs: set<set<N>>): Dag<set<N>> {
    map p | p in AllComps(g, sccs) :: set c | c in AllComps(g, sccs) && c != p && Links(g, sccs, c, p)
  }

  /** The imports of files of `c` from files of other components. */
  ghost function FileEdgesInto<N(!new)>(g: Graph<N>, sccs: set<set<N>>, c: set<N>): set<(N, N)> {
    set x, y | x in g && y in g[x] && CompMap(sccs, x) == c && CompMap(sccs, y) != c :: (x, y)
  }

  /** `indegree` as `process_modules` builds it: one per import across components. */
  ghost function FileInDegree<N(!new)>(g: Graph<N>, sccs: set<set<N>>): map<set<N>, int> {
    map c | c in AllComps(g, sccs) :: |FileEdgesInto(g, sccs, c)|
  }

  /** The intended in-degree: one per distinct providing component. */
  ghost function ProviderCount<N(!new)>(g: Graph<N>, sccs: set<set<N>>): (r: map<set<N>, int>)
    ensures CountsExact(CompOut(g, sccs), r)
  {
    map c | c in AllComps(g, sccs) :: |Prov(CompOut(g, sccs), c)|
  }

  // ---------------------------------------------------------------------------
  // Component map

  /** Each file of the graph maps to the one component that holds it. */
  lemma CompMapSpec<N(!new)>(g: Graph<N>, sccs: set<set<N>>, f: N)
    requires SccPartition(g, sccs) && f in g
    ensures CompMap(sccs, f) in sccs && f in CompMap(sccs, f)
    ensures forall c :: c in sccs && f in c ==> c == CompMap(sccs, f)
  {
  }

  /** The fallback loop adds nothing: every file already has its component. */
  lemma AllCompsAreSccs<N(!new)>(g: Graph<N>, sccs: set<set<N>>)
    requires SccPartition(g, sccs)
    ensures AllComps(g, sccs) == sccs
  {
    assert (set f | f in g && !Covered(sccs, f) :: {f}) == {};
  }

  /** Files of one component reach each other. */
  lemma SameCompReach<N(!new)>(g: Graph<N>, sccs: set<set<N>>, x: N, y: N)
    requires SccPartition(g, sccs) && x in g && y in g && CompMap(sccs, x) == CompMap(sccs, y)
    ensures Reach(g, x, y)
  {
    CompMapSpec(g, sccs, x);
    CompMapSpec(g, sccs, y);
    assert x in CompMap(sccs, x) && y in CompMap(sccs, x);
    assert MutReach(g, x, y);
  }

  /** Files that reach each other are in one component. */
  lemma MutReachSameComp<N(!new)>(g: Graph<N>, sccs: set<set<N>>, x: N, y: N)
    requires SccPartition(g, sccs) && x in g && y in g && MutReach(g, x, y)
    ensures CompMap(sccs, x) == CompMap(sccs, y)
  {
    var c :| c in sccs && x in c && y in c;
    CompMapSpec(g, sccs, x);
    CompMapSpec(g, sccs, y);
  }

  // ---------------------------------------------------------------------------
  // The component graph

  /** Every file's component is a node of the component graph. */
  lemma CompMapInAll<N(!new)>(g: Graph<N>, sccs: set<set<N>>, f: N)
    requires f in g
    ensures CompMap(sccs, f) in AllComps(g, sccs)
  {
    if !Covered(sccs, f) {
      assert CompMap(sccs, f) in (set f | f in g && !Covered(sccs, f) :: {f});
    }
  }

  /** The consumers of `p` are the components of the files that import files of `p` from elsewhere, as the loop adds them. */
  lemma CompOutByImports<N(!new)>(g: Graph<N>, sccs: set<set<N>>, p: set<N>)
    requires p in AllComps(g, sccs)
    ensures CompOut(g, sccs)[p] == set x, y | x in g && y in g[x] && CompMap(sccs, y) == p && CompMap(sccs, x) != p :: CompMap(sccs, x)
  {
    var lit := set x, y | x in g && y in g[x] && CompMap(sccs, y) == p && CompMap(sccs, x) != p :: CompMap(sccs, x);
    forall c | c in CompOut(g, sccs)[p]
      ensures c in lit
    {
      var x, y :| x in g && y in g[x] && CompMap(sccs, x) == c && CompMap(sccs, y) == p;
    }
    forall c | c in lit
      ensures c in CompOut(g, sccs)[p]
    {
      var x, y :| x in g && y in g[x] && CompMap(sccs, y) == p && CompMap(sccs, x) != p && CompMap(sccs, x) == c;
      CompMapInAll(g, sccs, x);
    }
  }

  /** `p` provides for `c` exactly when some file of `c` imports some file of `p` and the two differ. */
  lemma ProvSpec<N(!new)>(g: Graph<N>, sccs: set<set<N>>, c: set<N>, p: set<N>)
    ensures p in Prov(CompOut(g, sccs), c) <==> p in AllComps(g, sccs) && c in AllComps(g, sccs) && p != c && Links(g, sccs, c, p)
  {
  }

  /** The component graph names only components, and no component consumes itself. */
  lemma CompOutOk<N(!new)>(g: Graph<N>, sccs: set<set<N>>)
    ensures DagOk(CompOut(g, sccs))
  {
    forall p, c | Consumes(CompOut(g, sccs), p, c)
      ensures c in CompOut(g, sccs) && c != p
    {
    }
  }

  /** The component that provides through an import, as a function of the import. */
  ghost function ProviderOf<N(!new)>(sccs: set<set<N>>): ((N, N)) -> set<N> {
    (e: (N, N)) => CompMap(sccs, e.1)
  }

  /** The providing components of `c` are the components at the far end of its cross-component imports. */
  lemma ProvIsImage<N(!new)>(g: Graph<N>, sccs: set<set<N>>, c: set<N>)
    requires Closed(g) && c in AllComps(g, sccs)
    ensures Prov(CompOut(g, sccs), c) == Image(FileEdgesInto(g, sccs, c), ProviderOf(sccs))
  {
    forall p
      ensures p in Prov(CompOut(g, sccs), c) <==> p in Image(FileEdgesInto(g, sccs, c), ProviderOf(sccs))
    {
      ProvSpec(g, sccs, c, p);
      if p in Image(FileEdgesInto(g, sccs, c), ProviderOf(sccs)) {
        var e :| e in FileEdgesInto(g, sccs, c) && ProviderOf(sccs)(e) == p;
        var x, y :| x in g && y in g[x] && CompMap(sccs, x) == c && CompMap(sccs, y) != c && e == (x, y);
        CompMapInAll(g, sccs, y);
        assert CompMap(sccs, y) == p;
      }
      if p in Prov(CompOut(g, sccs), c) {
        var x, y :| x in g && y in g[x] && CompMap(sccs, x) == c && CompMap(sccs, y) == p;
        assert (x, y) in FileEdgesInto(g, sccs, c);
        assert ProviderOf(sccs)((x, y)) == p;
      }
    }
  }

  /** Counting imports never undercounts the providing components. */
  lemma FileInDegreeAtLeast<N(!new)>(g: Graph<N>, sccs: set<set<N>>)
    requires Closed(g)
    ensures CountsAtLeast(CompOut(g, sccs), FileInDegree(g, sccs))
  {
    forall c | c in CompOut(g, sccs)
      ensures FileInDegree(g, sccs)[c] >= |Prov(CompOut(g, sccs), c)|
    {
      ProvIsImage(g, sccs, c);
      ImageCard(FileEdgesInto(g, sccs, c), ProviderOf(sccs));
    }
  }

  /** The import count of `c` is exact exactly when no two imports into `c` come from the same component. */
  lemma FileInDegreeExactIff<N(!new)>(g: Graph<N>, sccs: set<set<N>>, c: set<N>)
    requires Closed(g) && c in AllComps(g, sccs)
    ensures FileInDegree(g, sccs)[c] == |Prov(CompOut(g, sccs), c)| <==> Injective(FileEdgesInto(g, sccs, c), ProviderOf(sccs))
  {
    ProvIsImage(g, sccs, c);
    ImageCard(FileEdgesInto(g, sccs, c), ProviderOf(sccs));
  }

  // ---------------------------------------------------------------------------
  // Acyclicity

  /** The components some file of `c` reaches. */
  ghost function Deps<N(!new)>(g: Graph<N>, sccs: set<set<N>>, c: set<N>): set<set<N>> {
    set d | d in AllComps(g, sccs) && exists x, y :: x in c && y in d && Reach(g, x, y)
  }

  /** An import from `x` to `y` that is reached back puts both in one component. */
  lemma BackReachSame<N(!new)>(g: Graph<N>, sccs: set<set<N>>, x: N, y: N, y': N, x': N)
    requires SccPartition(g, sccs) && x in g && y in g[x]
    requires y' in g && x' in g && CompMap(sccs, y') == CompMap(sccs, y) && CompMap(sccs, x') == CompMap(sccs, x)
    requires Reach(g, y', x')
    ensures CompMap(sccs, x) == CompMap(sccs, y)
  {
    assert y in g by { CompMapSpec(g, sccs, y'); }
    SameCompReach(g, sccs, y, y');
    SameCompReach(g, sccs, x', x);
    ReachTrans(g, y, y', x');
    ReachTrans(g, y, x', x);
    ReachEdge(g, x, y);
    MutReachSameComp(g, sccs, x, y);
  }

  /** What a provider reaches, its consumer reaches too. */
  lemma DepsGrow<N(!new)>(g: Graph<N>, sccs: set<set<N>>, x: N, y: N)
    requires SccPartition(g, sccs) && x in g && y in g[x]
    ensures Deps(g, sccs, CompMap(sccs, y)) <= Deps(g, sccs, CompMap(sccs, x))
  {
    CompMapSpec(g, sccs, x);
    CompMapSpec(g, sccs, y);
    forall d | d in Deps(g, sccs, CompMap(sccs, y))
      ensures d in Deps(g, sccs, CompMap(sccs, x))
    {
      var y', z :| y' in CompMap(sccs, y) && z in d && Reach(g, y', z);
      SameCompReach(g, sccs, y, y');
      ReachEdge(g, x, y);
      ReachTrans(g, x, y, y');
      ReachTrans(g, x, y', z);
    }
  }

  /** A provider does not reach back into a different consumer. */
  lemma NoReachBack<N(!new)>(g: Graph<N>, sccs: set<set<N>>, x: N, y: N)
    requires SccPartition(g, sccs) && x in g && y in g[x] && CompMap(sccs, x) != CompMap(sccs, y)
    ensures CompMap(sccs, x) !in Deps(g, sccs, CompMap(sccs, y))
  {
    forall y', x' | y' in CompMap(sccs, y) && x' in CompMap(sccs, x)
      ensures !Reach(g, y', x')
    {
      if Reach(g, y', x') {
        CompMapSpec(g, sccs, y);
        CompMapSpec(g, sccs, x);
        CompMapSpec(g, sccs, y');
        CompMapSpec(g, sccs, x');
        BackReachSame(g, sccs, x, y, y', x');
      }
    }
  }

  /** A provider reaches strictly fewer components than its consumer. */
  lemma DepsShrink<N(!new)>(g: Graph<N>, sccs: set<set<N>>, c: set<N>, p: set<N>)
    requires SccPartition(g, sccs) && p in Prov(CompOut(g, sccs), c)
    ensures |Deps(g, sccs, p)| < |Deps(g, sccs, c)|
  {
    ProvSpec(g, sccs, c, p);
    var x, y :| x in g && y in g[x] && CompMap(sccs, x) == c && CompMap(sccs, y) == p;
    CompMapSpec(g, sccs, x);
    ReachRefl(g, x);
    CompMapInAll(g, sccs, x);
    assert c in Deps(g, sccs, c);
    DepsGrow(g, sccs, x, y);
    NoReachBack(g, sccs, x, y);
    StrictSubsetCard(Deps(g, sccs, p), Deps(g, sccs, c), c);
  }

  /** The component graph has no cycle: the number of components a component reaches drops along every edge. */
  lemma CondensationAcyclic<N(!new)>(g: Graph<N>, sccs: set<set<N>>)
    requires SccPartition(g, sccs)
    ensures HasSources(CompOut(g, sccs))
  {
    DepsRanked(g, sccs);
    RankedHasSources(CompOut(g, sccs), map c | c in AllComps(g, sccs) :: |Deps(g, sccs, c)|);
  }

  /** The rank of `CondensationAcyclic`, with the partition as an antecedent only. */
  lemma DepsRanked<N(!new)>(g: Graph<N>, sccs: set<set<N>>)
    ensures SccPartition(g, sccs) ==>
              forall p, c {:trigger Consumes(CompOut(g, sccs), p, c)} :: Consumes(CompOut(g, sccs), p, c) ==>
                p in AllComps(g, sccs) && c in AllComps(g, sccs) && |Deps(g, sccs, p)| < |Deps(g, sccs, c)|
  {
    forall p, c | Consumes(CompOut(g, sccs), p, c)
      ensures SccPartition(g, sccs) ==> p in AllComps(g, sccs) && c in AllComps(g, sccs) && |Deps(g, sccs, p)| < |Deps(g, sccs, c)|
    {
      ProvSpec(g, sccs, c, p);
      if SccPartition(g, sccs) {
        DepsShrink(g, sccs, c, p);
      }
    }
  }
}
