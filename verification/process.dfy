/**
 * `process_modules`: collapse the import graph into its strongly connected
 * components, then emit the components so that every provider comes before
 * its consumers, taking among the ready components one whose critical path
 * is longest.
 *
 * `ProcessModulesAsWritten` starts the Kahn loop from one count per import
 * across components, as the source does; `ProcessModules` starts it from one
 * count per providing component, which is what the loop's decrements assume.
 */
module Process {
  import opened Digraph
  import opened Sets
  import opened Seqs
  import opened Scc
  import opened SccCorrect
  import opened Condense
  import opened Kahn
  import opened CriticalPath

  /** `find_sccs` partitions a closed graph into its components. */
  lemma FindSccsPartition<N(!new)>(g: Graph<N>)
    requires Closed(g)
    ensures SccPartition(g, FindSccs(g))
  {
    FindSccsCorrect(g);
  }

  /** Step 3: the critical-path length of every component, each weighing the total size of its files. */
  ghost function CpLengths<N(!new)>(g: Graph<N>, size: N -> nat): (cp: map<set<N>, int>)
    requires Closed(g)
    ensures cp.Keys == AllComps(g, FindSccs(g))
  {
    CompOutOk(g, FindSccs(g));
    ComputeCriticalPath(CompOut(g, FindSccs(g)), EstimateWeights(AllComps(g, FindSccs(g)), size))
  }

  /** `process_modules(graph)` as written: the Kahn loop starts from the number of imports across components. */
  ghost function ProcessModulesAsWritten<N(!new)>(g: Graph<N>, size: N -> nat): (r: seq<set<N>>)
    requires Closed(g)
    ensures Distinct(r) && forall i :: 0 <= i < |r| ==> r[i] in FindSccs(g)
  {
    CompOutOk(g, FindSccs(g));
    FileInDegreeAtLeast(g, FindSccs(g));
    FindSccsPartition(g);
    AllCompsAreSccs(g, FindSccs(g));
    Order(CompOut(g, FindSccs(g)), FileInDegree(g, FindSccs(g)), CpLengths(g, size))
  }

  /** `process_modules(graph)` with each counter starting at the number of distinct providing components. */
  ghost function ProcessModules<N(!new)>(g: Graph<N>, size: N -> nat): (r: seq<set<N>>)
    requires Closed(g)
    ensures Distinct(r) && forall i :: 0 <= i < |r| ==> r[i] in FindSccs(g)
  {
    CompOutOk(g, FindSccs(g));
    FindSccsPartition(g);
    AllCompsAreSccs(g, FindSccs(g));
    Order(CompOut(g, FindSccs(g)), ProviderCount(g, FindSccs(g)), CpLengths(g, size))
  }

  // ---------------------------------------------------------------------------
  // Both versions emit providers first

  /** The component of a file is the only component that holds it. */
  lemma OnlyComp<N(!new)>(g: Graph<N>, c: set<N>, x: N)
    requires Closed(g) && c in FindSccs(g) && x in c
    ensures x in g && c == CompMap(FindSccs(g), x)
  {
    FindSccsPartition(g);
    CompMapSpec(g, FindSccs(g), x);
  }

  /**
   * In an output whose components follow the component graph, the
   * component of every imported file comes before the component of the
   * file importing it.
   */
  lemma FilesFollowImports<N(!new)>(g: Graph<N>, r: seq<set<N>>)
    requires Closed(g) && Distinct(r) && forall i :: 0 <= i < |r| ==> r[i] in FindSccs(g)
    requires ProvidersFirst(CompOut(g, FindSccs(g)), r)
    ensures forall x, y, i, j :: 0 <= i < |r| && 0 <= j < |r| && x in r[j] && y in r[i] && x in g && y in g[x] && r[i] != r[j] ==> i < j
  {
    forall x, y, i, j | 0 <= i < |r| && 0 <= j < |r| && x in r[j] && y in r[i] && x in g && y in g[x] && r[i] != r[j]
      ensures i < j
    {
      OnlyComp(g, r[j], x);
      OnlyComp(g, r[i], y);
      FindSccsPartition(g);
      AllCompsAreSccs(g, FindSccs(g));
      ProvSpec(g, FindSccs(g), r[j], r[i]);
      assert r[i] in Prov(CompOut(g, FindSccs(g)), r[j]);
      var k :| 0 <= k < j && r[k] == r[i];
    }
  }

  /** `process_modules` as written never emits a file before a file it imports from another component. */
  lemma AsWrittenFollowsImports<N(!new)>(g: Graph<N>, size: N -> nat)
    requires Closed(g)
    ensures var r := ProcessModulesAsWritten(g, size);
      forall x, y, i, j :: 0 <= i < |r| && 0 <= j < |r| && x in r[j] && y in r[i] && x in g && y in g[x] && r[i] != r[j] ==> i < j
  {
    FilesFollowImports(g, ProcessModulesAsWritten(g, size));
  }

  /** The corrected `process_modules` never emits a file before a file it imports from another component. */
  lemma FollowsImports<N(!new)>(g: Graph<N>, size: N -> nat)
    requires Closed(g)
    ensures var r := ProcessModules(g, size);
      forall x, y, i, j :: 0 <= i < |r| && 0 <= j < |r| && x in r[j] && y in r[i] && x in g && y in g[x] && r[i] != r[j] ==> i < j
  {
    FilesFollowImports(g, ProcessModules(g, size));
  }

  // ---------------------------------------------------------------------------
  // The corrected version emits everything, greedily

  /** Every component, hence every file, is emitted exactly once. */
  lemma ProcessModulesComplete<N(!new)>(g: Graph<N>, size: N -> nat)
    requires Closed(g)
    ensures forall c :: c in FindSccs(g) ==> c in ProcessModules(g, size)
    ensures forall x :: x in g ==> exists i :: 0 <= i < |ProcessModules(g, size)| && x in ProcessModules(g, size)[i]
  {
    FindSccsPartition(g);
    AllCompsAreSccs(g, FindSccs(g));
    CompOutOk(g, FindSccs(g));
    CondensationAcyclic(g, FindSccs(g));
    OrderComplete(CompOut(g, FindSccs(g)), ProviderCount(g, FindSccs(g)), CpLengths(g, size));
    forall x | x in g
      ensures exists i :: 0 <= i < |ProcessModules(g, size)| && x in ProcessModules(g, size)[i]
    {
      CompMapSpec(g, FindSccs(g), x);
      var i :| 0 <= i < |ProcessModules(g, size)| && ProcessModules(g, size)[i] == CompMap(FindSccs(g), x);
    }
  }

  /**
   * Each emitted component has a critical path at least as long as that of
   * every component that was ready in its place: not yet emitted, with all
   * its providers emitted.
   */
  lemma ProcessModulesGreedy<N(!new)>(g: Graph<N>, size: N -> nat)
    requires Closed(g)
    ensures Greedy(CompOut(g, FindSccs(g)), CpLengths(g, size), ProcessModules(g, size))
  {
    CompOutOk(g, FindSccs(g));
    OrderGreedy(CompOut(g, FindSccs(g)), ProviderCount(g, FindSccs(g)), CpLengths(g, size));
  }

  /**
   * The critical-path length of a component is the heaviest chain of
   * consumers starting at it, each weighing the sizes of its files.
   */
  lemma CpLengthsHeaviest<N(!new)>(g: Graph<N>, size: N -> nat, c: set<N>)
    requires Closed(g) && c in FindSccs(g)
    ensures forall p :: DagPath(CompOut(g, FindSccs(g)), p) && p[0] == c ==>
                PathWeight(EstimateWeights(AllComps(g, FindSccs(g)), size), p) <= CpLengths(g, size)[c]
    ensures exists p :: (DagPath(CompOut(g, FindSccs(g)), p) && p[0] == c &&
                         PathWeight(EstimateWeights(AllComps(g, FindSccs(g)), size), p) == CpLengths(g, size)[c])
  {
    FindSccsPartition(g);
    AllCompsAreSccs(g, FindSccs(g));
    CompOutOk(g, FindSccs(g));
    CondensationAcyclic(g, FindSccs(g));
    CriticalPathIsHeaviestChain(CompOut(g, FindSccs(g)), EstimateWeights(AllComps(g, FindSccs(g)), size), c);
  }

  // ---------------------------------------------------------------------------
  // Where the version as written loses components

  /** A component two of whose imports come from one other component is never emitted by the version as written. */
  lemma AsWrittenDropsRepeatedProvider<N(!new)>(g: Graph<N>, size: N -> nat, c: set<N>)
    requires Closed(g) && c in FindSccs(g)
    requires !Injective(FileEdgesInto(g, FindSccs(g), c), ProviderOf(FindSccs(g)))
    ensures c !in ProcessModulesAsWritten(g, size)
  {
    FindSccsPartition(g);
    AllCompsAreSccs(g, FindSccs(g));
    CompOutOk(g, FindSccs(g));
    FileInDegreeAtLeast(g, FindSccs(g));
    FileInDegreeExactIff(g, FindSccs(g), c);
    OverCountedNeverOutput(CompOut(g, FindSccs(g)), FileInDegree(g, FindSccs(g)), CpLengths(g, size), c);
  }

  /** When no component takes two imports from one other component, the two versions agree. */
  lemma AsWrittenAgreesWithoutRepeats<N(!new)>(g: Graph<N>, size: N -> nat)
    requires Closed(g)
    requires forall c :: c in FindSccs(g) ==> Injective(FileEdgesInto(g, FindSccs(g), c), ProviderOf(FindSccs(g)))
    ensures ProcessModulesAsWritten(g, size) == ProcessModules(g, size)
  {
    CountsAgree(g);
  }

  lemma CountsAgree<N(!new)>(g: Graph<N>)
    requires Closed(g)
    requires forall c :: c in FindSccs(g) ==> Injective(FileEdgesInto(g, FindSccs(g), c), ProviderOf(FindSccs(g)))
    ensures FileInDegree(g, FindSccs(g)) == ProviderCount(g, FindSccs(g))
  {
    FindSccsPartition(g);
    AllCompsAreSccs(g, FindSccs(g));
    forall c | c in AllComps(g, FindSccs(g))
      ensures FileInDegree(g, FindSccs(g))[c] == ProviderCount(g, FindSccs(g))[c]
    {
      FileInDegreeExactIff(g, FindSccs(g), c);
    }
    MapExt(FileInDegree(g, FindSccs(g)), ProviderCount(g, FindSccs(g)));
  }

  // ---------------------------------------------------------------------------
  // A graph the version as written gets wrong

  /** Files 1 and 2 import each other, and file 3 imports both. */
  function TwoImportsGraph(): Graph<int> {
    map[1 := {2}, 2 := {1}, 3 := {1, 2}]
  }

  /** No file of that graph imports file 3. */
  lemma NothingImportsThree()
    ensures forall w :: w in TwoImportsGraph() ==> 3 !in TwoImportsGraph()[w]
  {
  }

  /** A file no other file imports is a component of its own. */
  lemma UnimportedAlone<N(!new)>(g: Graph<N>, sccs: set<set<N>>, z: N)
    requires SccPartition(g, sccs) && z in g
    requires forall w :: w in g ==> z !in g[w]
    ensures CompMap(sccs, z) == {z} && {z} in sccs
  {
    CompMapSpec(g, sccs, z);
    forall y | y in CompMap(sccs, z)
      ensures y == z
    {
      assert MutReach(g, z, y);
      NoEdgeInto(g, y, z);
    }
  }

  /** File 3 is a component of its own: nothing reaches it back. */
  lemma ThreeAlone()
    ensures Closed(TwoImportsGraph())
    ensures CompMap(FindSccs(TwoImportsGraph()), 3) == {3} && {3} in FindSccs(TwoImportsGraph())
  {
    assert Closed(TwoImportsGraph());
    FindSccsPartition(TwoImportsGraph());
    NothingImportsThree();
    UnimportedAlone(TwoImportsGraph(), FindSccs(TwoImportsGraph()), 3);
  }

  /** Files 1 and 2 import each other, so they share a component. */
  lemma OneTwoTogether()
    ensures Closed(TwoImportsGraph())
    ensures CompMap(FindSccs(TwoImportsGraph()), 1) == CompMap(FindSccs(TwoImportsGraph()), 2)
    ensures 1 in CompMap(FindSccs(TwoImportsGraph()), 1)
  {
    assert Closed(TwoImportsGraph());
    FindSccsPartition(TwoImportsGraph());
    ReachEdge(TwoImportsGraph(), 1, 2);
    ReachEdge(TwoImportsGraph(), 2, 1);
    MutReachSameComp(TwoImportsGraph(), FindSccs(TwoImportsGraph()), 1, 2);
    CompMapSpec(TwoImportsGraph(), FindSccs(TwoImportsGraph()), 1);
  }

  /** In that graph file 3 is a component of its own, and both its imports come from the component of 1 and 2. */
  lemma TwoImportsComps()
    ensures Closed(TwoImportsGraph())
    ensures {3} in FindSccs(TwoImportsGraph())
    ensures !Injective(FileEdgesInto(TwoImportsGraph(), FindSccs(TwoImportsGraph()), {3}), ProviderOf(FindSccs(TwoImportsGraph())))
  {
    ThreeAlone();
    OneTwoTogether();
    assert (3, 1) in FileEdgesInto(TwoImportsGraph(), FindSccs(TwoImportsGraph()), {3});
    assert (3, 2) in FileEdgesInto(TwoImportsGraph(), FindSccs(TwoImportsGraph()), {3});
    assert ProviderOf(FindSccs(TwoImportsGraph()))((3, 1)) == ProviderOf(FindSccs(TwoImportsGraph()))((3, 2));
  }

  /** The version as written never emits file 3 of that graph; the corrected version does. */
  lemma AsWrittenLosesFile(size: int -> nat)
    ensures Closed(TwoImportsGraph())
    ensures forall i :: 0 <= i < |ProcessModulesAsWritten(TwoImportsGraph(), size)| ==> 3 !in ProcessModulesAsWritten(TwoImportsGraph(), size)[i]
    ensures exists i :: 0 <= i < |ProcessModules(TwoImportsGraph(), size)| && 3 in ProcessModules(TwoImportsGraph(), size)[i]
  {
    TwoImportsComps();
    AsWrittenDropsRepeatedProvider(TwoImportsGraph(), size, {3});
    forall i | 0 <= i < |ProcessModulesAsWritten(TwoImportsGraph(), size)|
      ensures 3 !in ProcessModulesAsWritten(TwoImportsGraph(), size)[i]
    {
      if 3 in ProcessModulesAsWritten(TwoImportsGraph(), size)[i] {
        OnlyComp(TwoImportsGraph(), ProcessModulesAsWritten(TwoImportsGraph(), size)[i], 3);
        OnlyComp(TwoImportsGraph(), {3}, 3);
      }
    }
    ProcessModulesComplete(TwoImportsGraph(), size);
    assert 3 in TwoImportsGraph();
  }
}
