/**
 * Kahn's algorithm as `process_modules` runs it on the condensed graph: a
 * counter per node, a ready list of nodes whose counter is zero, and a loop
 * that takes the ready node with the longest critical path, appends it to the
 * output and decrements the counters of its consumers. The same loop, with
 * every priority equal, is the topological sort of `compute_critical_path`.
 *
 * The counters are an input: the loop is proved correct for any starting
 * counts no lower than the true number of providers, and complete when they
 * are exact.
 */
module Kahn {
  import opened Sets
  import opened Seqs

  /** Each node to the nodes that consume it (`comp_out`). */
  type Dag<C> = map<C, set<C>>

  /** Every consumer is a node of the graph, and no node consumes itself. */
  ghost predicate DagOk<C(!new)>(dag: Dag<C>) {
    forall p, c {:trigger Consumes(dag, p, c)} :: Consumes(dag, p, c) ==> c in dag && c != p
  }

  /** `c` is a consumer of `p`. */
  predicate Consumes<C>(dag: Dag<C>, p: C, c: C) {
    p in dag && c in dag[p]
  }

  /** The nodes `c` consumes directly: its providers. */
  function Prov<C>(dag: Dag<C>, c: C): set<C> {
    set p | p in dag && c in dag[p]
  }

  /** Every counter starts at least at the number of the node's providers. */
  predicate CountsAtLeast<C>(dag: Dag<C>, init: map<C, int>) {
    init.Keys == dag.Keys && forall c {:trigger init[c]} :: c in dag ==> init[c] >= |Prov(dag, c)|
  }

  /** Every counter starts at exactly the number of the node's providers. */
  predicate CountsExact<C>(dag: Dag<C>, init: map<C, int>) {
    init.Keys == dag.Keys && forall c {:trigger init[c]} :: c in dag ==> init[c] == |Prov(dag, c)|
  }

  /** No cycle: every non-empty set of nodes has a member none of whose providers is in the set. */
  ghost predicate HasSources<C(!new)>(dag: Dag<C>) {
    forall s: set<C> {:trigger HasSource(dag, s)} :: s <= dag.Keys && s != {} ==> HasSource(dag, s)
  }

  /** A rank that every provider sits strictly below rules out cycles. */
  lemma RankedHasSources<C(!new)>(dag: Dag<C>, rank: map<C, int>)
    requires dag.Keys <= rank.Keys
    requires forall p, c {:trigger Consumes(dag, p, c)} :: Consumes(dag, p, c) && c in dag ==> rank[p] < rank[c]
    ensures HasSources(dag)
  {
    forall s: set<C> {:trigger HasSource(dag, s)} | s <= dag.Keys && s != {}
      ensures HasSource(dag, s)
    {
      var m := MaxOf(s, map c | c in s :: -rank[c]);
      forall p | p in Prov(dag, m) ensures p !in s {
        assert Consumes(dag, p, m);
      }
    }
  }

  /** Some member of `s` has no provider in `s`. */
  ghost predicate HasSource<C(!new)>(dag: Dag<C>, s: set<C>) {
    exists c :: c in s && Prov(dag, c) !! s
  }

  /** `c` is still to come, and every provider of it is already in `done`. */
  predicate Avail<C>(dag: Dag<C>, done: set<C>, c: C) {
    c in dag && c !in done && Prov(dag, c) <= done
  }

  /** Every node comes after all of its providers. */
  ghost predicate ProvidersFirst<C(!new)>(dag: Dag<C>, order: seq<C>) {
    forall i, p :: 0 <= i < |order| && p in Prov(dag, order[i]) ==> p in order[..i]
  }

  /** Each node taken is one of largest priority among all nodes whose providers were all taken before it. */
  ghost predicate Greedy<C(!new)>(dag: Dag<C>, cp: map<C, int>, order: seq<C>)
    requires dag.Keys <= cp.Keys
  {
    forall i, c {:trigger Avail(dag, Elems(order[..i]), c)} :: 0 <= i < |order| && Avail(dag, Elems(order[..i]), c) ==> order[i] in cp && cp[c] <= cp[order[i]]
  }

  /** The locals `ready`, `indegree` and `ordered` of the loop. */
  datatype KState<C> = KState(ready: set<C>, indeg: map<C, int>, ordered: seq<C>)

  /** `ready = [c for c, deg in indegree.items() if deg == 0]`, nothing output yet. */
  function Start<C(!new)>(init: map<C, int>): (r: KState<C>)
    ensures forall c :: c in r.ready <==> c in init && init[c] == 0
    ensures r.indeg == init && r.ordered == []
  {
    KState((set c | c in init && init[c] == 0), init, [])
  }

  /** `indegree[c] -= 1` for every consumer `c` of the node just output. */
  function Decrement<C>(indeg: map<C, int>, consumers: set<C>): (r: map<C, int>)
    ensures r.Keys == indeg.Keys
  {
    map c | c in indeg :: if c in consumers then indeg[c] - 1 else indeg[c]
  }

  /** The body of `while ready:` once `comp = ready.pop(0)` has been chosen. */
  function EmitAt<C(!new)>(dag: Dag<C>, s: KState<C>, comp: C): KState<C>
    requires comp in dag && DagOk(dag) && s.indeg.Keys == dag.Keys
  {
    KState((s.ready - {comp}) + Released(dag, s.indeg, comp),
           Decrement(s.indeg, dag[comp]),
           s.ordered + [comp])
  }

  /** One iteration: pop the best ready node, output it, decrement its consumers, make ready those reaching zero. */
  ghost function Emit<C(!new)>(dag: Dag<C>, cp: map<C, int>, s: KState<C>): KState<C>
    requires s.ready != {} && s.ready <= cp.Keys && s.ready <= dag.Keys
    requires DagOk(dag) && s.indeg.Keys == dag.Keys
  {
    EmitAt(dag, s, MaxOf(s.ready, cp))
  }

  /** The output lists distinct nodes of the graph, each after all of its providers. */
  ghost predicate OrderOk<C(!new)>(dag: Dag<C>, order: seq<C>) {
    && Distinct(order)
    && (forall i :: 0 <= i < |order| ==> order[i] in dag)
    && ProvidersFirst(dag, order)
    && (forall c :: c in Elems(order) ==> Prov(dag, c) <= Elems(order))
  }

  /** Each counter is its initial value less the providers output so far; nodes output had exact counts. */
  ghost predicate CountsOk<C(!new)>(dag: Dag<C>, init: map<C, int>, indeg: map<C, int>, done: set<C>)
    requires init.Keys == dag.Keys && indeg.Keys == dag.Keys
  {
    && (forall c {:trigger indeg[c]} :: c in dag ==> indeg[c] == init[c] - |Prov(dag, c) * done|)
    && (forall c :: c in done ==> c in dag && init[c] == |Prov(dag, c)|)
  }

  /** The ready set is exactly the unfinished nodes whose counter is zero. */
  ghost predicate ReadyOk<C(!new)>(dag: Dag<C>, ready: set<C>, indeg: map<C, int>, done: set<C>)
    requires indeg.Keys == dag.Keys
  {
    forall c {:trigger c in ready} :: c in ready <==> c in dag && c !in done && indeg[c] == 0
  }

  /** The loop invariant. */
  ghost predicate KInv<C(!new)>(dag: Dag<C>, init: map<C, int>, s: KState<C>) {
    && DagOk(dag) && CountsAtLeast(dag, init)
    && s.indeg.Keys == dag.Keys
    && OrderOk(dag, s.ordered)
    && CountsOk(dag, init, s.indeg, Elems(s.ordered))
    && ReadyOk(dag, s.ready, s.indeg, Elems(s.ordered))
  }

  /** The unfinished nodes. */
  function Left<C>(dag: Dag<C>, s: KState<C>): set<C> {
    dag.Keys - Elems(s.ordered)
  }

  /** `while ready: ...`. */
  ghost function Run<C(!new)>(dag: Dag<C>, init: map<C, int>, cp: map<C, int>, s: KState<C>): (r: KState<C>)
    requires KInv(dag, init, s) && dag.Keys <= cp.Keys
    ensures KInv(dag, init, r) && r.ready == {}
    ensures s.ordered <= r.ordered
    decreases |Left(dag, s)|
  {
    if s.ready == {} then s
    else
      EmitKeeps(dag, init, s, MaxOf(s.ready, cp));
      Run(dag, init, cp, Emit(dag, cp, s))
  }

  /** The output of the loop started from counts `init`. */
  ghost function Order<C(!new)>(dag: Dag<C>, init: map<C, int>, cp: map<C, int>): (r: seq<C>)
    requires DagOk(dag) && CountsAtLeast(dag, init) && dag.Keys <= cp.Keys
    ensures Distinct(r) && forall i :: 0 <= i < |r| ==> r[i] in dag
    ensures ProvidersFirst(dag, r)
    ensures forall c :: c in r ==> init[c] == |Prov(dag, c)|
  {
    StartInv(dag, init);
    Run(dag, init, cp, Start(init)).ordered
  }

  // ---------------------------------------------------------------------------
  // Proofs

  lemma StartInv<C(!new)>(dag: Dag<C>, init: map<C, int>)
    requires DagOk(dag) && CountsAtLeast(dag, init)
    ensures KInv(dag, init, Start(init))
  {
    assert Elems(Start(init).ordered) == {};
    forall c | c in dag
      ensures Prov(dag, c) * {} == {}
    {
    }
  }

  lemma ElemsSnoc<C>(xs: seq<C>, x: C)
    ensures Elems(xs + [x]) == Elems(xs) + {x}
  {
    assert forall y :: y in xs + [x] <==> y in xs || y == x;
  }

  /** A counter at zero or below means every provider has been output, and the count was exact. */
  lemma ZeroMeansDone<C(!new)>(dag: Dag<C>, init: map<C, int>, indeg: map<C, int>, done: set<C>, c: C)
    requires CountsAtLeast(dag, init) && indeg.Keys == dag.Keys && CountsOk(dag, init, indeg, done) && c in dag
    ensures indeg[c] >= |Prov(dag, c)| - |Prov(dag, c) * done|
    ensures indeg[c] <= 0 ==> Prov(dag, c) <= done && init[c] == |Prov(dag, c)|
  {
    SubsetCard(Prov(dag, c) * done, Prov(dag, c));
    if indeg[c] <= 0 {
      SubsetFull(Prov(dag, c) * done, Prov(dag, c));
    }
  }

  /** Appending a node whose providers are all output keeps the output well ordered. */
  lemma OrderStep<C(!new)>(dag: Dag<C>, order: seq<C>, comp: C)
    requires OrderOk(dag, order) && comp in dag && comp !in order && Prov(dag, comp) <= Elems(order)
    ensures OrderOk(dag, order + [comp])
  {
    ElemsSnoc(order, comp);
    var o := order + [comp];
    forall i, p | 0 <= i < |o| && p in Prov(dag, o[i])
      ensures p in o[..i]
    {
      if i < |order| {
        assert o[..i] == order[..i];
      } else {
        assert o[..i] == order;
      }
    }
  }

  /** The counters after outputting `comp`. */
  lemma CountsStep<C(!new)>(dag: Dag<C>, init: map<C, int>, indeg: map<C, int>, done: set<C>, comp: C)
    requires DagOk(dag) && CountsAtLeast(dag, init) && indeg.Keys == dag.Keys
    requires CountsOk(dag, init, indeg, done) && comp in dag && comp !in done && indeg[comp] == 0
    ensures Prov(dag, comp) <= done
    ensures CountsOk(dag, init, Decrement(indeg, dag[comp]), done + {comp})
  {
    ZeroMeansDone(dag, init, indeg, done, comp);
    forall c | c in dag
      ensures Decrement(indeg, dag[comp])[c] == init[c] - |Prov(dag, c) * (done + {comp})|
    {
      InterAdd(Prov(dag, c), done, comp);
      assert comp in Prov(dag, c) <==> c in dag[comp];
    }
  }

  /** A consumer of an unfinished node is unfinished and not at zero. */
  lemma PendingConsumer<C(!new)>(dag: Dag<C>, init: map<C, int>, indeg: map<C, int>, done: set<C>, comp: C, c: C)
    requires DagOk(dag) && CountsAtLeast(dag, init) && indeg.Keys == dag.Keys && CountsOk(dag, init, indeg, done)
    requires forall x :: x in done ==> Prov(dag, x) <= done
    requires comp in dag && comp !in done && c in dag[comp] && c in dag
    ensures c !in done && indeg[c] >= 1
  {
    assert comp in Prov(dag, c);
    ZeroMeansDone(dag, init, indeg, done, c);
  }

  /** The nodes made ready when `comp` is output: its consumers whose counter drops to zero. */
  function Released<C>(dag: Dag<C>, indeg: map<C, int>, comp: C): set<C>
    requires comp in dag
  {
    set c | c in dag[comp] && c in indeg && indeg[c] - 1 == 0
  }

  /** A consumer of `comp` is ready afterwards exactly when its counter drops to zero. */
  lemma ReadyConsumer<C(!new)>(dag: Dag<C>, init: map<C, int>, ready: set<C>, indeg: map<C, int>, done: set<C>, comp: C, c: C)
    requires DagOk(dag) && CountsAtLeast(dag, init) && indeg.Keys == dag.Keys
    requires CountsOk(dag, init, indeg, done) && ReadyOk(dag, ready, indeg, done)
    requires forall x :: x in done ==> Prov(dag, x) <= done
    requires comp in dag && comp !in done && c in dag[comp]
    ensures c in (ready - {comp}) + Released(dag, indeg, comp) <==> c in dag && c !in done + {comp} && Decrement(indeg, dag[comp])[c] == 0
  {
    assert Consumes(dag, comp, c);
    PendingConsumer(dag, init, indeg, done, comp, c);
  }

  /** Any other node is ready afterwards exactly when it was ready before and is not `comp`. */
  lemma ReadyOther<C(!new)>(dag: Dag<C>, ready: set<C>, indeg: map<C, int>, done: set<C>, comp: C, c: C)
    requires indeg.Keys == dag.Keys && ReadyOk(dag, ready, indeg, done)
    requires comp in dag && c !in dag[comp]
    ensures c in (ready - {comp}) + Released(dag, indeg, comp) <==> c in dag && c !in done + {comp} && Decrement(indeg, dag[comp])[c] == 0
  {
    assert c in ready <==> c in dag && c !in done && indeg[c] == 0;
  }

  /** The ready set after outputting `comp`. */
  lemma ReadyStep<C(!new)>(dag: Dag<C>, init: map<C, int>, ready: set<C>, indeg: map<C, int>, done: set<C>, comp: C)
    requires DagOk(dag) && CountsAtLeast(dag, init) && indeg.Keys == dag.Keys
    requires CountsOk(dag, init, indeg, done) && ReadyOk(dag, ready, indeg, done)
    requires forall x :: x in done ==> Prov(dag, x) <= done
    requires comp in dag && comp !in done
    ensures ReadyOk(dag, (ready - {comp}) + Released(dag, indeg, comp), Decrement(indeg, dag[comp]), done + {comp})
  {
    forall c
      ensures c in (ready - {comp}) + Released(dag, indeg, comp) <==> c in dag && c !in done + {comp} && Decrement(indeg, dag[comp])[c] == 0
    {
      if c in dag[comp] {
        ReadyConsumer(dag, init, ready, indeg, done, comp, c);
      } else {
        ReadyOther(dag, ready, indeg, done, comp, c);
      }
    }
  }

  /** One iteration keeps the invariant and finishes one more node. */
  lemma EmitKeeps<C(!new)>(dag: Dag<C>, init: map<C, int>, s: KState<C>, comp: C)
    requires KInv(dag, init, s) && comp in s.ready
    ensures KInv(dag, init, EmitAt(dag, s, comp))
    ensures s.ordered <= EmitAt(dag, s, comp).ordered
    ensures |Left(dag, EmitAt(dag, s, comp))| < |Left(dag, s)|
  {
    ElemsSnoc(s.ordered, comp);
    CountsStep(dag, init, s.indeg, Elems(s.ordered), comp);
    OrderStep(dag, s.ordered, comp);
    ReadyStep(dag, init, s.ready, s.indeg, Elems(s.ordered), comp);
    KInvIntro(dag, init, (s.ready - {comp}) + Released(dag, s.indeg, comp), Decrement(s.indeg, dag[comp]), s.ordered + [comp]);
    LeftShrinks(dag, s.ordered, comp);
  }

  /** The invariant from its parts, one field at a time. */
  lemma KInvIntro<C(!new)>(dag: Dag<C>, init: map<C, int>, ready: set<C>, indeg: map<C, int>, ordered: seq<C>)
    requires DagOk(dag) && CountsAtLeast(dag, init) && indeg.Keys == dag.Keys && OrderOk(dag, ordered)
    requires CountsOk(dag, init, indeg, Elems(ordered)) && ReadyOk(dag, ready, indeg, Elems(ordered))
    ensures KInv(dag, init, KState(ready, indeg, ordered))
  {
  }

  /** Outputting a node still to come leaves one fewer. */
  lemma LeftShrinks<C>(dag: Dag<C>, ordered: seq<C>, comp: C)
    requires comp in dag && comp !in Elems(ordered)
    ensures dag.Keys - Elems(ordered + [comp]) == (dag.Keys - Elems(ordered)) - {comp}
    ensures |dag.Keys - Elems(ordered + [comp])| < |dag.Keys - Elems(ordered)|
  {
    ElemsSnoc(ordered, comp);
  }

  // ---------------------------------------------------------------------------
  // Completeness and priority

  /** With exact counts, a node is at zero exactly when all its providers are output. */
  lemma ExactZero<C(!new)>(dag: Dag<C>, init: map<C, int>, s: KState<C>, c: C)
    requires KInv(dag, init, s) && CountsExact(dag, init) && c in dag
    ensures s.indeg[c] == 0 <==> Prov(dag, c) <= Elems(s.ordered)
  {
    ZeroMeansDone(dag, init, s.indeg, Elems(s.ordered), c);
    if Prov(dag, c) <= Elems(s.ordered) {
      assert Prov(dag, c) * Elems(s.ordered) == Prov(dag, c);
    }
  }

  /** Providers outside the unfinished set are finished. */
  lemma ProvidersDone<C>(dag: Dag<C>, done: set<C>, c: C)
    requires Prov(dag, c) !! dag.Keys - done
    ensures Prov(dag, c) <= done
  {
  }

  /** In an acyclic graph with exact counts, the loop cannot stall while nodes remain. */
  lemma NotStalled<C(!new)>(dag: Dag<C>, init: map<C, int>, s: KState<C>)
    requires KInv(dag, init, s) && CountsExact(dag, init) && HasSources(dag) && Left(dag, s) != {}
    ensures s.ready != {}
  {
    assert HasSource(dag, Left(dag, s));
    var c :| c in Left(dag, s) && Prov(dag, c) !! Left(dag, s);
    ProvidersDone(dag, Elems(s.ordered), c);
    ExactZero(dag, init, s, c);
    assert c in s.ready;
  }

  /** With exact counts and no cycle, every node is output: the output is an ordering of all the nodes. */
  lemma OrderComplete<C(!new)>(dag: Dag<C>, init: map<C, int>, cp: map<C, int>)
    requires DagOk(dag) && CountsExact(dag, init) && HasSources(dag) && dag.Keys <= cp.Keys
    ensures forall c :: c in dag ==> c in Order(dag, init, cp)
  {
    StartInv(dag, init);
    var r := Run(dag, init, cp, Start(init));
    if Left(dag, r) != {} {
      NotStalled(dag, init, r);
    }
    assert Left(dag, r) == {};
    forall c | c in dag
      ensures c in r.ordered
    {
      assert c !in Left(dag, r);
    }
  }

  /** Appending a node of largest priority among those available keeps an output greedy. */
  lemma GreedySnoc<C(!new)>(dag: Dag<C>, cp: map<C, int>, order: seq<C>, comp: C)
    requires dag.Keys <= cp.Keys && Greedy(dag, cp, order) && comp in cp
    requires forall c :: Avail(dag, Elems(order), c) ==> cp[c] <= cp[comp]
    ensures Greedy(dag, cp, order + [comp])
  {
    var o := order + [comp];
    forall i, c | 0 <= i < |o| && Avail(dag, Elems(o[..i]), c)
      ensures o[i] in cp && cp[c] <= cp[o[i]]
    {
      if i < |order| {
        assert o[..i] == order[..i];
        assert o[i] == order[i] && Avail(dag, Elems(order[..i]), c);
      } else {
        assert o[..i] == order;
        assert Avail(dag, Elems(order), c);
      }
    }
  }

  /** With exact counts, every available node is ready, so the best ready node beats it. */
  lemma BestReadyIsBest<C(!new)>(dag: Dag<C>, init: map<C, int>, cp: map<C, int>, s: KState<C>, c: C)
    requires KInv(dag, init, s) && CountsExact(dag, init) && dag.Keys <= cp.Keys && s.ready != {}
    requires Avail(dag, Elems(s.ordered), c)
    ensures cp[c] <= cp[MaxOf(s.ready, cp)]
  {
    ExactZero(dag, init, s, c);
    assert c in s.ready;
  }

  /** Appending the best ready node keeps the output greedy. */
  lemma GreedyStep<C(!new)>(dag: Dag<C>, init: map<C, int>, cp: map<C, int>, s: KState<C>)
    requires KInv(dag, init, s) && CountsExact(dag, init) && dag.Keys <= cp.Keys && s.ready != {}
    requires Greedy(dag, cp, s.ordered)
    ensures Greedy(dag, cp, Emit(dag, cp, s).ordered)
  {
    forall c | Avail(dag, Elems(s.ordered), c)
      ensures cp[c] <= cp[MaxOf(s.ready, cp)]
    {
      BestReadyIsBest(dag, init, cp, s, c);
    }
    GreedySnoc(dag, cp, s.ordered, MaxOf(s.ready, cp));
  }

  lemma {:induction false} RunGreedy<C(!new)>(dag: Dag<C>, init: map<C, int>, cp: map<C, int>, s: KState<C>)
    requires KInv(dag, init, s) && CountsExact(dag, init) && dag.Keys <= cp.Keys
    requires Greedy(dag, cp, s.ordered)
    ensures Greedy(dag, cp, Run(dag, init, cp, s).ordered)
    decreases |Left(dag, s)|
  {
    if s.ready != {} {
      EmitKeeps(dag, init, s, MaxOf(s.ready, cp));
      GreedyStep(dag, init, cp, s);
      RunGreedy(dag, init, cp, Emit(dag, cp, s));
    }
  }

  /**
   * With exact counts, each node output has a priority at least that of every
   * node that could have gone in its place: every node not yet output whose
   * providers were all output before it.
   */
  lemma OrderGreedy<C(!new)>(dag: Dag<C>, init: map<C, int>, cp: map<C, int>)
    requires DagOk(dag) && CountsExact(dag, init) && dag.Keys <= cp.Keys
    ensures Greedy(dag, cp, Order(dag, init, cp))
  {
    StartInv(dag, init);
    RunGreedy(dag, init, cp, Start(init));
  }

  /** A node whose counter starts above its number of providers is never output. */
  lemma OverCountedNeverOutput<C(!new)>(dag: Dag<C>, init: map<C, int>, cp: map<C, int>, c: C)
    requires DagOk(dag) && CountsAtLeast(dag, init) && dag.Keys <= cp.Keys
    requires c in dag && init[c] > |Prov(dag, c)|
    ensures c !in Order(dag, init, cp)
  {
  }
}
