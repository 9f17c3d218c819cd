/**
 * The dispatch loop of `schedule`: a ready queue keyed by critical-path
 * length, at most `max_workers` components in flight, and counters that
 * release a component once its providers have completed.
 *
 * Executors and `wait` are not modelled as threads: each call of
 * `wait(..., return_when=FIRST_COMPLETED)` is a batch of in-flight
 * components chosen by the environment, completed in the order given.
 */
module Scheduler {
  import opened Wrappers
  import opened Sets
  import opened Seqs
  import opened Kahn

  /**
   * The loop's locals: the ready queue, `indegree`, the components held in
   * `futures`, the components completed so far in completion order (the
   * `processed_comps` of test mode), and every component submitted so far in
   * submission order.
   */
  datatype SState<C> = SState(ready: set<C>, indeg: map<C, int>, inflight: set<C>, finished: seq<C>, started: seq<C>)

  /** Before the first submission: the components whose counter starts at zero are ready. */
  function Initial<C(!new)>(init: map<C, int>): (s: SState<C>)
    ensures forall c :: c in s.ready <==> c in init && init[c] == 0
    ensures s.indeg == init && s.inflight == {} && s.finished == [] && s.started == []
  {
    SState((set c | c in init && init[c] == 0), init, {}, [], [])
  }

  /** `_, comp = ready.get()` and `futures[executor.submit(process_fn, list(comp))] = comp`. */
  function Submit<C>(s: SState<C>, comp: C): SState<C> {
    s.(ready := s.ready - {comp}, inflight := s.inflight + {comp}, started := s.started + [comp])
  }

  /** `while not ready.empty() and len(futures) < max_workers`: submit the ready component with the longest critical path. */
  ghost function Fill<C>(cp: map<C, int>, max: int, s: SState<C>): (r: SState<C>)
    requires s.ready <= cp.Keys
    ensures r.ready <= s.ready && r.indeg == s.indeg && r.finished == s.finished && s.started <= r.started
    ensures r.ready == {} || |r.inflight| >= max
    decreases |s.ready|
  {
    if s.ready == {} || |s.inflight| >= max then s
    else Fill(cp, max, Submit(s, MaxOf(s.ready, cp)))
  }

  /** `comp = futures.pop(fut)`; every consumer's counter drops, and those reaching zero join the queue. */
  function Finish<C>(dag: Dag<C>, s: SState<C>, comp: C): SState<C>
    requires comp in dag
  {
    SState(s.ready + Released(dag, s.indeg, comp), Decrement(s.indeg, dag[comp]), s.inflight - {comp}, s.finished + [comp], s.started)
  }

  /** `for fut in done:` over the components `wait` returned, in the order given. */
  function FinishAll<C>(dag: Dag<C>, s: SState<C>, batch: seq<C>): (r: SState<C>)
    requires forall i :: 0 <= i < |batch| ==> batch[i] in dag
    ensures r.finished == s.finished + batch && r.started == s.started
    ensures r.inflight == s.inflight - Elems(batch)
    decreases |batch|
  {
    if batch == [] then s
    else FinishAll(dag, Finish(dag, s, batch[0]), batch[1..])
  }

  /** What `wait(..., return_when=FIRST_COMPLETED)` can return: at least one in-flight component, none twice. */
  predicate ValidBatch<C>(s: SState<C>, batch: seq<C>) {
    |batch| >= 1 && Distinct(batch) && forall i :: 0 <= i < |batch| ==> batch[i] in s.inflight
  }

  /** One iteration of `while futures:`: complete the batch, then refill. */
  ghost function Round<C>(dag: Dag<C>, cp: map<C, int>, max: int, s: SState<C>, batch: seq<C>): SState<C>
    requires forall i :: 0 <= i < |batch| ==> batch[i] in dag
    requires FinishAll(dag, s, batch).ready <= cp.Keys
  {
    Fill(cp, max, FinishAll(dag, s, batch))
  }

  // ---------------------------------------------------------------------------
  // The invariant

  /** Submitted components are distinct nodes, each either in flight or completed, never both. */
  ghost predicate Books<C(!new)>(dag: Dag<C>, s: SState<C>) {
    && Distinct(s.started)
    && (forall i :: 0 <= i < |s.started| ==> s.started[i] in dag)
    && Elems(s.started) == Elems(s.finished) + s.inflight
    && s.inflight !! Elems(s.finished)
  }

  /** A component in flight has its counter at zero and all its providers completed. */
  ghost predicate Running<C(!new)>(dag: Dag<C>, indeg: map<C, int>, inflight: set<C>, done: set<C>) {
    forall c {:trigger c in inflight} :: c in inflight ==> c in indeg && indeg[c] == 0 && Prov(dag, c) <= done
  }

  /** The loop invariant. */
  ghost predicate SInv<C(!new)>(dag: Dag<C>, init: map<C, int>, max: int, s: SState<C>) {
    && DagOk(dag) && CountsAtLeast(dag, init) && s.indeg.Keys == dag.Keys
    && Books(dag, s)
    && OrderOk(dag, s.finished)
    && CountsOk(dag, init, s.indeg, Elems(s.finished))
    && Running(dag, s.indeg, s.inflight, Elems(s.finished))
    && ReadyOk(dag, s.ready, s.indeg, Elems(s.started))
    && |s.inflight| <= max
  }

  lemma InitialInv<C(!new)>(dag: Dag<C>, init: map<C, int>, max: int)
    requires DagOk(dag) && CountsAtLeast(dag, init) && max >= 0
    ensures SInv(dag, init, max, Initial(init))
  {
    StartInv(dag, init);
  }

  lemma BooksSubmit<C(!new)>(dag: Dag<C>, s: SState<C>, comp: C)
    requires Books(dag, s) && comp in dag && comp !in Elems(s.started)
    ensures Books(dag, Submit(s, comp))
  {
    ElemsSnoc(s.started, comp);
  }

  lemma RunningSubmit<C(!new)>(dag: Dag<C>, init: map<C, int>, indeg: map<C, int>, inflight: set<C>, done: set<C>, comp: C)
    requires CountsAtLeast(dag, init) && indeg.Keys == dag.Keys && CountsOk(dag, init, indeg, done)
    requires Running(dag, indeg, inflight, done) && comp in dag && indeg[comp] == 0
    ensures Running(dag, indeg, inflight + {comp}, done)
  {
    ZeroMeansDone(dag, init, indeg, done, comp);
  }

  lemma ReadySubmit<C(!new)>(dag: Dag<C>, ready: set<C>, indeg: map<C, int>, started: set<C>, comp: C)
    requires indeg.Keys == dag.Keys && ReadyOk(dag, ready, indeg, started) && comp in ready
    ensures ReadyOk(dag, ready - {comp}, indeg, started + {comp})
  {
    forall c
      ensures c in ready - {comp} <==> c in dag && c !in started + {comp} && indeg[c] == 0
    {
      assert c in ready <==> c in dag && c !in started && indeg[c] == 0;
    }
  }

  /** Submitting a ready component while a worker is free keeps the invariant. */
  lemma SubmitInv<C(!new)>(dag: Dag<C>, init: map<C, int>, max: int, s: SState<C>, comp: C)
    requires SInv(dag, init, max, s) && comp in s.ready && |s.inflight| < max
    ensures SInv(dag, init, max, Submit(s, comp))
  {
    assert comp in dag && comp !in Elems(s.started) && s.indeg[comp] == 0;
    BooksSubmit(dag, s, comp);
    RunningSubmit(dag, init, s.indeg, s.inflight, Elems(s.finished), comp);
    ReadySubmit(dag, s.ready, s.indeg, Elems(s.started), comp);
    ElemsSnoc(s.started, comp);
  }

  /** Refilling keeps the invariant. */
  lemma {:induction false} FillInv<C(!new)>(dag: Dag<C>, init: map<C, int>, cp: map<C, int>, max: int, s: SState<C>)
    requires SInv(dag, init, max, s) && s.ready <= cp.Keys
    ensures SInv(dag, init, max, Fill(cp, max, s))
    decreases |s.ready|
  {
    if s.ready != {} && |s.inflight| < max {
      SubmitInv(dag, init, max, s, MaxOf(s.ready, cp));
      FillInv(dag, init, cp, max, Submit(s, MaxOf(s.ready, cp)));
      assert Fill(cp, max, s) == Fill(cp, max, Submit(s, MaxOf(s.ready, cp)));
    }
  }

  lemma BooksFinish<C(!new)>(dag: Dag<C>, s: SState<C>, comp: C)
    requires Books(dag, s) && comp in s.inflight && comp in dag
    ensures Books(dag, Finish(dag, s, comp))
  {
    ElemsSnoc(s.finished, comp);
  }

  /** A node whose providers are all completed consumes nothing that is still unfinished. */
  lemma NotConsumerOfPending<C>(dag: Dag<C>, c: C, comp: C, done: set<C>)
    requires Prov(dag, c) <= done && comp !in done
    ensures !Consumes(dag, comp, c)
  {
  }

  lemma RunningFinish<C(!new)>(dag: Dag<C>, indeg: map<C, int>, inflight: set<C>, done: set<C>, comp: C)
    requires indeg.Keys == dag.Keys && Running(dag, indeg, inflight, done) && comp in dag && comp !in done
    ensures Running(dag, Decrement(indeg, dag[comp]), inflight - {comp}, done + {comp})
  {
    forall c | c in inflight - {comp}
      ensures c in indeg && Decrement(indeg, dag[comp])[c] == 0
    {
      NotConsumerOfPending(dag, c, comp, done);
    }
  }

  /** A consumer of the completed component is ready afterwards exactly when its counter drops to zero. */
  lemma ReadyFinishConsumer<C(!new)>(dag: Dag<C>, init: map<C, int>, s: SState<C>, comp: C, c: C)
    requires DagOk(dag) && CountsAtLeast(dag, init) && s.indeg.Keys == dag.Keys
    requires Books(dag, s) && OrderOk(dag, s.finished)
    requires CountsOk(dag, init, s.indeg, Elems(s.finished)) && Running(dag, s.indeg, s.inflight, Elems(s.finished))
    requires ReadyOk(dag, s.ready, s.indeg, Elems(s.started))
    requires comp in s.inflight && comp in dag && c in dag[comp]
    ensures c in s.ready + Released(dag, s.indeg, comp) <==> c in dag && c !in Elems(s.started) && Decrement(s.indeg, dag[comp])[c] == 0
  {
    assert Consumes(dag, comp, c);
    PendingConsumer(dag, init, s.indeg, Elems(s.finished), comp, c);
  }

  /** Any other component is ready afterwards exactly when it was before. */
  lemma ReadyFinishOther<C(!new)>(dag: Dag<C>, ready: set<C>, indeg: map<C, int>, started: set<C>, comp: C, c: C)
    requires indeg.Keys == dag.Keys && ReadyOk(dag, ready, indeg, started)
    requires comp in dag && c !in dag[comp]
    ensures c in ready + Released(dag, indeg, comp) <==> c in dag && c !in started && Decrement(indeg, dag[comp])[c] == 0
  {
    assert c in ready <==> c in dag && c !in started && indeg[c] == 0;
  }

  lemma ReadyFinish<C(!new)>(dag: Dag<C>, init: map<C, int>, s: SState<C>, comp: C)
    requires DagOk(dag) && CountsAtLeast(dag, init) && s.indeg.Keys == dag.Keys
    requires Books(dag, s) && OrderOk(dag, s.finished)
    requires CountsOk(dag, init, s.indeg, Elems(s.finished)) && Running(dag, s.indeg, s.inflight, Elems(s.finished))
    requires ReadyOk(dag, s.ready, s.indeg, Elems(s.started))
    requires comp in s.inflight && comp in dag
    ensures ReadyOk(dag, s.ready + Released(dag, s.indeg, comp), Decrement(s.indeg, dag[comp]), Elems(s.started))
  {
    forall c
      ensures c in s.ready + Released(dag, s.indeg, comp) <==> c in dag && c !in Elems(s.started) && Decrement(s.indeg, dag[comp])[c] == 0
    {
      if c in dag[comp] {
        ReadyFinishConsumer(dag, init, s, comp, c);
      } else {
        ReadyFinishOther(dag, s.ready, s.indeg, Elems(s.started), comp, c);
      }
    }
  }

  /** Completing an in-flight component keeps the invariant. */
  lemma FinishInv<C(!new)>(dag: Dag<C>, init: map<C, int>, max: int, s: SState<C>, comp: C)
    requires SInv(dag, init, max, s) && comp in s.inflight
    ensures comp in dag && SInv(dag, init, max, Finish(dag, s, comp))
  {
    assert comp in Elems(s.started);
    assert comp in dag && comp !in Elems(s.finished);
    BooksFinish(dag, s, comp);
    ElemsSnoc(s.finished, comp);
    CountsStep(dag, init, s.indeg, Elems(s.finished), comp);
    OrderStep(dag, s.finished, comp);
    RunningFinish(dag, s.indeg, s.inflight, Elems(s.finished), comp);
    ReadyFinish(dag, init, s, comp);
  }

  /** Completing a batch of in-flight components keeps the invariant. */
  lemma {:induction false} FinishAllInv<C(!new)>(dag: Dag<C>, init: map<C, int>, max: int, s: SState<C>, batch: seq<C>)
    requires SInv(dag, init, max, s) && Distinct(batch) && forall i :: 0 <= i < |batch| ==> batch[i] in s.inflight
    ensures forall i :: 0 <= i < |batch| ==> batch[i] in dag
    ensures SInv(dag, init, max, FinishAll(dag, s, batch))
    decreases |batch|
  {
    if batch != [] {
      FinishInv(dag, init, max, s, batch[0]);
      forall i | 0 <= i < |batch[1..]|
        ensures batch[1..][i] in Finish(dag, s, batch[0]).inflight
      {
        assert batch[1..][i] == batch[i + 1] != batch[0];
      }
      FinishAllInv(dag, init, max, Finish(dag, s, batch[0]), batch[1..]);
    }
  }

  // ---------------------------------------------------------------------------
  // Runs

  /**
   * The state after the first refill followed by one round per batch, or
   * `None` when some batch is not one `wait` could have returned then.
   */
  ghost function Replay<C(!new)>(dag: Dag<C>, init: map<C, int>, cp: map<C, int>, max: int, batches: seq<seq<C>>): (r: Option<SState<C>>)
    requires DagOk(dag) && CountsAtLeast(dag, init) && dag.Keys <= cp.Keys && max >= 1
    ensures r.Some? ==> SInv(dag, init, max, r.value) && (r.value.ready == {} || |r.value.inflight| >= max)
    ensures r.Some? ==> |r.value.finished| >= |batches|
    decreases |batches|
  {
    if batches == [] then
      InitialInv(dag, init, max);
      FillInv(dag, init, cp, max, Initial(init));
      Some(Fill(cp, max, Initial(init)))
    else if Replay(dag, init, cp, max, batches[..|batches| - 1]).Some?
         && ValidBatch(Replay(dag, init, cp, max, batches[..|batches| - 1]).value, batches[|batches| - 1]) then
      RoundInv(dag, init, cp, max, Replay(dag, init, cp, max, batches[..|batches| - 1]).value, batches[|batches| - 1]);
      Some(Round(dag, cp, max, Replay(dag, init, cp, max, batches[..|batches| - 1]).value, batches[|batches| - 1]))
    else
      None
  }

  /** A round keeps the invariant and completes every component of its batch. */
  lemma RoundInv<C(!new)>(dag: Dag<C>, init: map<C, int>, cp: map<C, int>, max: int, s: SState<C>, batch: seq<C>)
    requires SInv(dag, init, max, s) && dag.Keys <= cp.Keys && ValidBatch(s, batch)
    ensures forall i :: 0 <= i < |batch| ==> batch[i] in dag
    ensures FinishAll(dag, s, batch).ready <= cp.Keys
    ensures SInv(dag, init, max, Round(dag, cp, max, s, batch))
    ensures |Round(dag, cp, max, s, batch).finished| == |s.finished| + |batch|
  {
    FinishAllInv(dag, init, max, s, batch);
    FillInv(dag, init, cp, max, FinishAll(dag, s, batch));
  }

  /** A list of distinct elements has as many elements as its set. */
  lemma {:induction false} DistinctElems<C>(xs: seq<C>)
    requires Distinct(xs)
    ensures |Elems(xs)| == |xs|
  {
    if xs != [] {
      DistinctElems(xs[..|xs| - 1]);
      assert xs == xs[..|xs| - 1] + [xs[|xs| - 1]];
      ElemsSnoc(xs[..|xs| - 1], xs[|xs| - 1]);
    }
  }

  /** In every run, at most `max_workers` components are in flight, none is submitted twice, and each runs only after its providers completed. */
  lemma ReplaySafe<C(!new)>(dag: Dag<C>, init: map<C, int>, cp: map<C, int>, max: int, batches: seq<seq<C>>)
    requires DagOk(dag) && CountsAtLeast(dag, init) && dag.Keys <= cp.Keys && max >= 1
    requires Replay(dag, init, cp, max, batches).Some?
    ensures |Replay(dag, init, cp, max, batches).value.inflight| <= max
    ensures Distinct(Replay(dag, init, cp, max, batches).value.started)
    ensures Distinct(Replay(dag, init, cp, max, batches).value.finished)
    ensures forall c :: c in Replay(dag, init, cp, max, batches).value.inflight ==>
              Prov(dag, c) <= Elems(Replay(dag, init, cp, max, batches).value.finished)
    ensures ProvidersFirst(dag, Replay(dag, init, cp, max, batches).value.finished)
  {
  }

  /** The loop ends after at most one round per component. */
  lemma ReplayBounded<C(!new)>(dag: Dag<C>, init: map<C, int>, cp: map<C, int>, max: int, batches: seq<seq<C>>)
    requires DagOk(dag) && CountsAtLeast(dag, init) && dag.Keys <= cp.Keys && max >= 1
    requires Replay(dag, init, cp, max, batches).Some?
    ensures |batches| <= |dag|
  {
    DistinctElems(Replay(dag, init, cp, max, batches).value.finished);
    SubsetCard(Elems(Replay(dag, init, cp, max, batches).value.finished), dag.Keys);
  }

  /** While anything is in flight, `wait` can return it and the loop goes on. */
  lemma ReplayContinues<C(!new)>(dag: Dag<C>, init: map<C, int>, cp: map<C, int>, max: int, batches: seq<seq<C>>, x: C)
    requires DagOk(dag) && CountsAtLeast(dag, init) && dag.Keys <= cp.Keys && max >= 1
    requires Replay(dag, init, cp, max, batches).Some? && x in Replay(dag, init, cp, max, batches).value.inflight
    ensures Replay(dag, init, cp, max, batches + [[x]]).Some?
  {
    assert (batches + [[x]])[..|batches|] == batches;
    assert ValidBatch(Replay(dag, init, cp, max, batches).value, [x]);
  }

  /** When nothing is in flight the ready queue is empty too, so the loop stops exactly then. */
  lemma ReplayEnds<C(!new)>(dag: Dag<C>, init: map<C, int>, cp: map<C, int>, max: int, batches: seq<seq<C>>)
    requires DagOk(dag) && CountsAtLeast(dag, init) && dag.Keys <= cp.Keys && max >= 1
    requires Replay(dag, init, cp, max, batches).Some? && Replay(dag, init, cp, max, batches).value.inflight == {}
    ensures Replay(dag, init, cp, max, batches).value.ready == {}
  {
  }

  /** A component whose counter starts above its number of providers is never submitted. */
  lemma ReplayNeverStartsOvercounted<C(!new)>(dag: Dag<C>, init: map<C, int>, cp: map<C, int>, max: int, batches: seq<seq<C>>, c: C)
    requires DagOk(dag) && CountsAtLeast(dag, init) && dag.Keys <= cp.Keys && max >= 1
    requires Replay(dag, init, cp, max, batches).Some?
    requires c in dag && init[c] > |Prov(dag, c)|
    ensures c !in Replay(dag, init, cp, max, batches).value.started
  {
    StartedExact(dag, init, max, Replay(dag, init, cp, max, batches).value, c);
  }

  /** Every submitted component had an exact count. */
  lemma StartedExact<C(!new)>(dag: Dag<C>, init: map<C, int>, max: int, s: SState<C>, c: C)
    requires SInv(dag, init, max, s)
    ensures c in s.started ==> init[c] == |Prov(dag, c)|
  {
    if c in s.inflight {
      ZeroMeansDone(dag, init, s.indeg, Elems(s.finished), c);
    }
  }

  /** With exact counts and no cycle, a run that has stopped has completed every component. */
  lemma ReplayComplete<C(!new)>(dag: Dag<C>, init: map<C, int>, cp: map<C, int>, max: int, batches: seq<seq<C>>)
    requires DagOk(dag) && CountsExact(dag, init) && HasSources(dag) && dag.Keys <= cp.Keys && max >= 1
    requires Replay(dag, init, cp, max, batches).Some? && Replay(dag, init, cp, max, batches).value.inflight == {}
    ensures forall c :: c in dag ==> c in Replay(dag, init, cp, max, batches).value.finished
  {
    StoppedComplete(dag, init, max, Replay(dag, init, cp, max, batches).value);
  }

  /** An unfinished component none of whose providers is unfinished is ready once nothing is in flight. */
  lemma SourceReady<C(!new)>(dag: Dag<C>, init: map<C, int>, max: int, s: SState<C>, c: C)
    requires SInv(dag, init, max, s) && CountsExact(dag, init) && s.inflight == {}
    requires c in dag && c !in Elems(s.finished) && Prov(dag, c) <= Elems(s.finished)
    ensures c in s.ready
  {
    assert Prov(dag, c) * Elems(s.finished) == Prov(dag, c);
    assert s.indeg[c] == 0;
  }

  lemma StoppedNotStalled<C(!new)>(dag: Dag<C>, init: map<C, int>, max: int, s: SState<C>)
    requires SInv(dag, init, max, s) && CountsExact(dag, init) && HasSources(dag) && s.inflight == {}
    requires dag.Keys - Elems(s.finished) != {}
    ensures s.ready != {}
  {
    assert HasSource(dag, dag.Keys - Elems(s.finished));
    var c :| c in dag.Keys - Elems(s.finished) && Prov(dag, c) !! dag.Keys - Elems(s.finished);
    ProvidersDone(dag, Elems(s.finished), c);
    SourceReady(dag, init, max, s, c);
  }

  lemma StoppedComplete<C(!new)>(dag: Dag<C>, init: map<C, int>, max: int, s: SState<C>)
    requires SInv(dag, init, max, s) && CountsExact(dag, init) && HasSources(dag)
    requires s.inflight == {} && s.ready == {}
    ensures forall c :: c in dag ==> c in s.finished
  {
    if dag.Keys - Elems(s.finished) != {} {
      StoppedNotStalled(dag, init, max, s);
    }
    assert dag.Keys - Elems(s.finished) == {};
    forall c | c in dag
      ensures c in s.finished
    {
      assert c !in dag.Keys - Elems(s.finished);
    }
  }

  /**
   * Each refill submits, in turn, ready components with the longest
   * critical path: every component submitted was ready, and none left in
   * the queue has a longer critical path.
   */
  lemma {:induction false} FillGreedy<C>(cp: map<C, int>, max: int, s: SState<C>)
    requires s.ready <= cp.Keys
    ensures forall i :: |s.started| <= i < |Fill(cp, max, s).started| ==> Fill(cp, max, s).started[i] in s.ready
    ensures forall i, c :: |s.started| <= i < |Fill(cp, max, s).started| && c in Fill(cp, max, s).ready ==>
              cp[c] <= cp[Fill(cp, max, s).started[i]]
    decreases |s.ready|
  {
    if s.ready != {} && |s.inflight| < max {
      FillGreedy(cp, max, Submit(s, MaxOf(s.ready, cp)));
      assert Fill(cp, max, s).started[|s.started|] == MaxOf(s.ready, cp);
    }
  }
}
