/**
 * `estimate_component_weights` and `compute_critical_path`: a component
 * weighs the total size of its files, and its critical path is the heaviest
 * chain of consumers that starts at it. The sizes come from the file system,
 * so they are a parameter; the weights, which the source keeps as floats, are
 * integers here.
 */
module CriticalPath {
  import opened Sets
  import opened Seqs
  import opened Kahn

  // ---------------------------------------------------------------------------
  // Weights

  /** `sum(f.stat().st_size for f in comp)`, adding the files in the set's iteration order. */
  ghost function SizeSum<N>(files: set<N>, size: N -> nat): nat {
    if files == {} then 0
    else
      var f := Pick(files);
      size(f) + SizeSum(files - {f}, size)
  }

  /** The sum does not depend on the order: any file can be taken out first. */
  lemma {:induction false} SizeSumRemove<N>(files: set<N>, size: N -> nat, f: N)
    requires f in files
    ensures SizeSum(files, size) == size(f) + SizeSum(files - {f}, size)
    decreases |files|
  {
    var h := Pick(files);
    if h != f {
      SizeSumRemove(files - {h}, size, f);
      SizeSumRemove(files - {f}, size, h);
      assert files - {h} - {f} == files - {f} - {h};
    }
  }

  /** `estimate_component_weights(comps)`. */
  ghost function EstimateWeights<N>(comps: set<set<N>>, size: N -> nat): (w: map<set<N>, int>)
    ensures w.Keys == comps
    ensures forall c, f :: c in comps && f in c ==> w[c] == size(f) + SizeSum(c - {f}, size)
  {
    var w := map c | c in comps :: SizeSum(c, size) as int;
    forall c, f | c in comps && f in c
      ensures w[c] == size(f) + SizeSum(c - {f}, size)
    {
      SizeSumRemove(c, size, f);
    }
    w
  }

  // ---------------------------------------------------------------------------
  // Critical paths

  /** `weight.get(n, 1.0)`. */
  function W<C>(weight: map<C, int>, n: C): int {
    if n in weight then weight[n] else 1
  }

  function Max(a: int, b: int): int {
    if a >= b then a else b
  }

  /** The counters `compute_critical_path` builds: one per node listing `c` among its consumers. */
  function InDegrees<C>(dag: Dag<C>): (r: map<C, int>)
    ensures CountsExact(dag, r)
  {
    map n | n in dag :: |Prov(dag, n)|
  }

  /** The topological order of `compute_critical_path`: the Kahn loop with every node equally urgent. */
  ghost function Topo<C(!new)>(dag: Dag<C>): seq<C>
    requires DagOk(dag)
  {
    Order(dag, InDegrees(dag), map n | n in dag :: 0)
  }

  /** The inner loop `for c in dag[n]: cp[n] = max(cp[n], w + cp[c])` over the consumers still to visit. */
  ghost function Relax<C>(cp: map<C, int>, n: C, w: int, todo: set<C>): (r: map<C, int>)
    requires n in cp && todo <= cp.Keys && n !in todo
    ensures r.Keys == cp.Keys
    ensures forall x :: x in cp && x != n ==> r[x] == cp[x]
    ensures r[n] >= cp[n] && forall c :: c in todo ==> r[n] >= w + cp[c]
    ensures r[n] == cp[n] || exists c :: c in todo && r[n] == w + cp[c]
  {
    if todo == {} then cp
    else
      var c := Pick(todo);
      Relax(cp[n := Max(cp[n], w + cp[c])], n, w, todo - {c})
  }

  /** The outer loop `for n in reversed(topo)`, over the prefix of `topo` still to visit. */
  ghost function Backward<C(!new)>(dag: Dag<C>, weight: map<C, int>, cp: map<C, int>, order: seq<C>): (r: map<C, int>)
    requires DagOk(dag) && cp.Keys == dag.Keys && forall i :: 0 <= i < |order| ==> order[i] in dag
    ensures r.Keys == cp.Keys
    decreases |order|
  {
    if order == [] then cp
    else
      var n := order[|order| - 1];
      assert Consumes(dag, n, n) ==> n != n;
      forall c | c in dag[n] ensures c in cp {
        assert Consumes(dag, n, c);
      }
      Backward(dag, weight, Relax(cp, n, W(weight, n), dag[n]), order[..|order| - 1])
  }

  /** `compute_critical_path(dag, weight)`. */
  ghost function ComputeCriticalPath<C(!new)>(dag: Dag<C>, weight: map<C, int>): (cp: map<C, int>)
    requires DagOk(dag)
    ensures cp.Keys == dag.Keys
  {
    Backward(dag, weight, map n | n in dag :: W(weight, n), Topo(dag))
  }

  // ---------------------------------------------------------------------------
  // The critical path is the heaviest chain

  /** A chain of consumers starting at `p[0]`. */
  ghost predicate DagPath<C(!new)>(dag: Dag<C>, p: seq<C>) {
    |p| >= 1 && p[0] in dag && forall i :: 0 <= i < |p| - 1 ==> Consumes(dag, p[i], p[i + 1])
  }

  /** The total weight of the nodes of a chain. */
  function PathWeight<C>(weight: map<C, int>, p: seq<C>): int {
    if p == [] then 0 else W(weight, p[0]) + PathWeight(weight, p[1..])
  }

  /** `n`'s value is its own weight, plus the value of its best consumer when it has one. */
  ghost predicate LocalOk<C(!new)>(dag: Dag<C>, weight: map<C, int>, cp: map<C, int>, n: C)
    requires n in dag && cp.Keys == dag.Keys && DagOk(dag)
  {
    && cp[n] >= W(weight, n)
    && (forall c {:trigger Consumes(dag, n, c)} :: Consumes(dag, n, c) ==> cp[n] >= W(weight, n) + cp[c])
    && (cp[n] == W(weight, n) || exists c :: Consumes(dag, n, c) && cp[n] == W(weight, n) + cp[c])
  }

  /** A complete topological order: each node once, each after its providers. */
  ghost predicate TopoOrder<C(!new)>(dag: Dag<C>, order: seq<C>) {
    && Distinct(order)
    && (forall i :: 0 <= i < |order| ==> order[i] in dag)
    && (forall c :: c in dag ==> c in order)
    && ProvidersFirst(dag, order)
  }

  /** In a topological order a consumer comes strictly after its provider. */
  lemma ConsumerLater<C(!new)>(dag: Dag<C>, order: seq<C>, i: nat, c: C) returns (j: nat)
    requires DagOk(dag) && TopoOrder(dag, order) && i < |order| && Consumes(dag, order[i], c)
    ensures i < j < |order| && order[j] == c
  {
    assert c in dag;
    j :| 0 <= j < |order| && order[j] == c;
    assert order[i] in Prov(dag, order[j]);
    var k :| 0 <= k < j && order[..j][k] == order[i];
    assert order[k] == order[i];
  }

  /** The state of `cp` once the nodes after position `k` of `order` have been visited. */
  ghost predicate Visited<C(!new)>(dag: Dag<C>, weight: map<C, int>, cp: map<C, int>, order: seq<C>, k: nat)
    requires DagOk(dag) && cp.Keys == dag.Keys && TopoOrder(dag, order) && k <= |order|
  {
    && (forall j :: k <= j < |order| ==> LocalOk(dag, weight, cp, order[j]))
    && (forall j :: 0 <= j < k ==> cp[order[j]] == W(weight, order[j]))
  }

  /** Changing only `n` leaves the equation of any other node whose consumers avoid `n` intact. */
  lemma Undisturbed<C(!new)>(dag: Dag<C>, weight: map<C, int>, cp: map<C, int>, r: map<C, int>, n: C, m: C)
    requires DagOk(dag) && cp.Keys == dag.Keys && r.Keys == dag.Keys && m in dag && m != n
    requires forall x :: x in cp && x != n ==> r[x] == cp[x]
    requires forall c :: Consumes(dag, m, c) ==> c != n
    requires LocalOk(dag, weight, cp, m)
    ensures LocalOk(dag, weight, r, m)
  {
    forall c | Consumes(dag, m, c)
      ensures r[m] >= W(weight, m) + r[c]
    {
    }
    if r[m] != W(weight, m) {
      var c :| Consumes(dag, m, c) && cp[m] == W(weight, m) + cp[c];
      assert r[m] == W(weight, m) + r[c];
    }
  }

  /** Relaxing a node that still holds its own weight settles its equation. */
  lemma Settled<C(!new)>(dag: Dag<C>, weight: map<C, int>, cp: map<C, int>, n: C)
    requires DagOk(dag) && cp.Keys == dag.Keys && n in dag && cp[n] == W(weight, n)
    requires n !in dag[n] && dag[n] <= cp.Keys
    ensures LocalOk(dag, weight, Relax(cp, n, W(weight, n), dag[n]), n)
  {
    forall c | Consumes(dag, n, c)
      ensures Relax(cp, n, W(weight, n), dag[n])[c] == cp[c]
    {
    }
  }

  /** A consumer of a node after position `k - 1` is not the node at `k - 1`. */
  lemma LaterConsumers<C(!new)>(dag: Dag<C>, order: seq<C>, k: nat, j: nat)
    requires DagOk(dag) && TopoOrder(dag, order) && 0 < k <= j < |order|
    ensures order[j] != order[k - 1]
    ensures forall c :: Consumes(dag, order[j], c) ==> c != order[k - 1]
  {
    forall c | Consumes(dag, order[j], c)
      ensures c != order[k - 1]
    {
      var i := ConsumerLater(dag, order, j, c);
    }
  }

  /** Visiting `order[k - 1]` settles it and disturbs no other node. */
  lemma VisitStep<C(!new)>(dag: Dag<C>, weight: map<C, int>, cp: map<C, int>, order: seq<C>, k: nat)
    requires DagOk(dag) && cp.Keys == dag.Keys && TopoOrder(dag, order) && 0 < k <= |order|
    requires Visited(dag, weight, cp, order, k)
    requires order[k - 1] !in dag[order[k - 1]] && dag[order[k - 1]] <= cp.Keys
    ensures Visited(dag, weight, Relax(cp, order[k - 1], W(weight, order[k - 1]), dag[order[k - 1]]), order, k - 1)
  {
    forall j | k <= j < |order|
      ensures LocalOk(dag, weight, Relax(cp, order[k - 1], W(weight, order[k - 1]), dag[order[k - 1]]), order[j])
    {
      LaterConsumers(dag, order, k, j);
      Undisturbed(dag, weight, cp, Relax(cp, order[k - 1], W(weight, order[k - 1]), dag[order[k - 1]]), order[k - 1], order[j]);
    }
    Settled(dag, weight, cp, order[k - 1]);
  }

  /** Once every position is visited, every node's equation holds. */
  lemma VisitedAll<C(!new)>(dag: Dag<C>, weight: map<C, int>, cp: map<C, int>, order: seq<C>)
    requires DagOk(dag) && cp.Keys == dag.Keys && TopoOrder(dag, order) && Visited(dag, weight, cp, order, 0)
    ensures forall n :: n in dag ==> LocalOk(dag, weight, cp, n)
  {
    forall n | n in dag
      ensures LocalOk(dag, weight, cp, n)
    {
      var j :| 0 <= j < |order| && order[j] == n;
    }
  }

  /** A node's consumers are nodes other than itself. */
  lemma ConsumersOk<C(!new)>(dag: Dag<C>, cp: map<C, int>, n: C)
    requires DagOk(dag) && cp.Keys == dag.Keys && n in dag
    ensures n !in dag[n] && dag[n] <= cp.Keys
  {
    assert Consumes(dag, n, n) ==> false;
    forall c | c in dag[n] ensures c in cp {
      assert Consumes(dag, n, c);
    }
  }

  /** One turn of the outer loop, unfolded. */
  lemma BackwardUnfold<C(!new)>(dag: Dag<C>, weight: map<C, int>, cp: map<C, int>, order: seq<C>, k: nat)
    requires DagOk(dag) && cp.Keys == dag.Keys && 0 < k <= |order| && forall i :: 0 <= i < |order| ==> order[i] in dag
    requires order[k - 1] !in dag[order[k - 1]] && dag[order[k - 1]] <= cp.Keys
    ensures Backward(dag, weight, cp, order[..k]) == Backward(dag, weight, Relax(cp, order[k - 1], W(weight, order[k - 1]), dag[order[k - 1]]), order[..k - 1])
  {
    assert order[..k][..k - 1] == order[..k - 1];
  }

  lemma {:induction false} BackwardSpec<C(!new)>(dag: Dag<C>, weight: map<C, int>, cp: map<C, int>, order: seq<C>, k: nat)
    requires DagOk(dag) && cp.Keys == dag.Keys && TopoOrder(dag, order) && k <= |order|
    requires Visited(dag, weight, cp, order, k)
    ensures forall n :: n in dag ==> LocalOk(dag, weight, Backward(dag, weight, cp, order[..k]), n)
    decreases k
  {
    if k == 0 {
      VisitedAll(dag, weight, cp, order);
    } else {
      ConsumersOk(dag, cp, order[k - 1]);
      VisitStep(dag, weight, cp, order, k);
      BackwardUnfold(dag, weight, cp, order, k);
      BackwardSpec(dag, weight, Relax(cp, order[k - 1], W(weight, order[k - 1]), dag[order[k - 1]]), order, k - 1);
    }
  }

  /** Before the loop every node holds its own weight. */
  lemma InitialVisited<C(!new)>(dag: Dag<C>, weight: map<C, int>, order: seq<C>)
    requires DagOk(dag) && TopoOrder(dag, order)
    ensures Visited(dag, weight, map n | n in dag :: W(weight, n), order, |order|)
    ensures order[..|order|] == order
  {
  }

  /** When the graph has no cycle, the order the Kahn loop produces is a complete topological order. */
  lemma TopoComplete<C(!new)>(dag: Dag<C>)
    requires DagOk(dag) && HasSources(dag)
    ensures TopoOrder(dag, Topo(dag))
  {
    OrderComplete(dag, InDegrees(dag), map n | n in dag :: 0);
  }

  /** When the graph has no cycle, every node's critical path is its weight plus its best consumer's. */
  lemma CriticalPathLocal<C(!new)>(dag: Dag<C>, weight: map<C, int>)
    requires DagOk(dag) && HasSources(dag)
    ensures forall n :: n in dag ==> LocalOk(dag, weight, ComputeCriticalPath(dag, weight), n)
  {
    TopoComplete(dag);
    InitialVisited(dag, weight, Topo(dag));
    BackwardSpec(dag, weight, map n | n in dag :: W(weight, n), Topo(dag), |Topo(dag)|);
  }

  /** No chain from `n` is heavier than `cp[n]`. */
  lemma {:induction false} PathBound<C(!new)>(dag: Dag<C>, weight: map<C, int>, cp: map<C, int>, p: seq<C>)
    requires DagOk(dag) && cp.Keys == dag.Keys && DagPath(dag, p)
    requires forall n :: n in dag ==> LocalOk(dag, weight, cp, n)
    ensures PathWeight(weight, p) <= cp[p[0]]
  {
    if |p| == 1 {
      assert p[1..] == [];
      assert LocalOk(dag, weight, cp, p[0]);
    } else {
      assert Consumes(dag, p[0], p[1]);
      assert DagPath(dag, p[1..]) by {
        forall i | 0 <= i < |p[1..]| - 1
          ensures Consumes(dag, p[1..][i], p[1..][i + 1])
        {
          assert Consumes(dag, p[i + 1], p[i + 2]);
        }
      }
      PathBound(dag, weight, cp, p[1..]);
      assert LocalOk(dag, weight, cp, p[0]);
    }
  }

  /** Some chain from `order[i]` weighs exactly its value. */
  lemma {:induction false} PathAttained<C(!new)>(dag: Dag<C>, weight: map<C, int>, cp: map<C, int>, order: seq<C>, i: nat)
    returns (p: seq<C>)
    requires DagOk(dag) && cp.Keys == dag.Keys && TopoOrder(dag, order) && i < |order|
    requires forall n :: n in dag ==> LocalOk(dag, weight, cp, n)
    ensures DagPath(dag, p) && p[0] == order[i] && PathWeight(weight, p) == cp[order[i]]
    decreases |order| - i
  {
    var n := order[i];
    assert LocalOk(dag, weight, cp, n);
    if cp[n] == W(weight, n) {
      p := [n];
      assert p[1..] == [];
    } else {
      var c :| Consumes(dag, n, c) && cp[n] == W(weight, n) + cp[c];
      var j := ConsumerLater(dag, order, i, c);
      var q := PathAttained(dag, weight, cp, order, j);
      p := [n] + q;
      assert p[1..] == q;
      forall k | 0 <= k < |p| - 1
        ensures Consumes(dag, p[k], p[k + 1])
      {
        if k > 0 {
          assert p[k] == q[k - 1] && p[k + 1] == q[k];
        }
      }
    }
  }

  /**
   * When the graph has no cycle, `compute_critical_path` gives every node the
   * weight of the heaviest chain of consumers that starts at it.
   */
  lemma CriticalPathIsHeaviestChain<C(!new)>(dag: Dag<C>, weight: map<C, int>, n: C)
    requires DagOk(dag) && HasSources(dag) && n in dag
    ensures forall p :: DagPath(dag, p) && p[0] == n ==> PathWeight(weight, p) <= ComputeCriticalPath(dag, weight)[n]
    ensures exists p :: DagPath(dag, p) && p[0] == n && PathWeight(weight, p) == ComputeCriticalPath(dag, weight)[n]
  {
    var cp := ComputeCriticalPath(dag, weight);
    CriticalPathLocal(dag, weight);
    forall p | DagPath(dag, p) && p[0] == n
      ensures PathWeight(weight, p) <= cp[n]
    {
      PathBound(dag, weight, cp, p);
    }
    var order := Topo(dag);
    TopoComplete(dag);
    var i :| 0 <= i < |order| && order[i] == n;
    var p := PathAttained(dag, weight, cp, order, i);
  }
}
