/**
 * `schedule`: choose the worker function and executor for the mode, bound
 * the number of workers, condense the import graph as `process_modules`
 * does, and run the dispatch loop of `Scheduler` over it.
 *
 * `ScheduleAsWritten` starts the counters at one per import across
 * components, as the source does; `ScheduleFixed` starts them at one per
 * providing component.
 */
module Schedule {
  import opened Wrappers
  import opened Digraph
  import opened Sets
  import opened Seqs
  import opened Scc
  import opened Condense
  import opened Kahn
  import opened Scheduler
  import opened Process

  datatype Mode = Ast | LlmTypes | LlmDocs | Test

  /** The worker function submitted for each component. */
  datatype Worker = AstIndexModules | LlmIndexModules | TestIndexModules

  datatype Executor = ProcessPool | ThreadPool

  function ModeName(m: Mode): string {
    match m
    case Ast => "ast"
    case LlmTypes => "llm_types"
    case LlmDocs => "llm_docs"
    case Test => "test"
  }

  const UnknownModeTail: string := ". Expected 'ast', 'llm_types', 'llm_docs', or 'test'."

  /** The `if mode == ...` chain: one of the four names, or the `ValueError`. */
  function ParseMode(mode: string): (r: Result<Mode, string>)
    ensures r.Success? <==> mode in {"ast", "llm_types", "llm_docs", "test"}
    ensures r.Success? ==> ModeName(r.value) == mode
    ensures r.Failure? ==> r.error == "Unknown mode: " + mode + UnknownModeTail
  {
    if mode == "ast" then Success(Ast)
    else if mode == "llm_types" then Success(LlmTypes)
    else if mode == "llm_docs" then Success(LlmDocs)
    else if mode == "test" then Success(Test)
    else Failure("Unknown mode: " + mode + UnknownModeTail)
  }

  /** Every mode's name is accepted as that mode. */
  lemma ParseModeName(m: Mode)
    ensures ParseMode(ModeName(m)) == Success(m)
  {
  }

  /** `process_fn` and `executor_cls` for each mode: a process pool for `ast` only. */
  function Dispatch(m: Mode): (r: (Worker, Executor))
    ensures r.1 == ProcessPool <==> m == Ast
    ensures r.0 == AstIndexModules <==> m == Ast
    ensures r.0 == TestIndexModules <==> m == Test
  {
    match m
    case Ast => (AstIndexModules, ProcessPool)
    case LlmTypes => (LlmIndexModules, ThreadPool)
    case LlmDocs => (LlmIndexModules, ThreadPool)
    case Test => (TestIndexModules, ThreadPool)
  }

  /** Python truthiness of an optional count: `None` and `0` are false. */
  predicate Truthy(n: Option<int>) {
    n.Some? && n.value != 0
  }

  /** `max_workers or os.cpu_count() or 1`, with the processor count as an input. */
  function MaxWorkers(requested: Option<int>, cpus: Option<int>): (r: int)
    ensures r != 0
    ensures Truthy(requested) ==> r == requested.value
    ensures !Truthy(requested) && Truthy(cpus) ==> r == cpus.value
    ensures !Truthy(requested) && !Truthy(cpus) ==> r == 1
  {
    if Truthy(requested) then requested.value
    else if Truthy(cpus) then cpus.value
    else 1
  }

  /** Without a negative count anywhere, the bound admits at least one worker. */
  lemma MaxWorkersPositive(requested: Option<int>, cpus: Option<int>)
    requires requested.Some? ==> requested.value >= 0
    requires cpus.Some? ==> cpus.value >= 0
    ensures MaxWorkers(requested, cpus) >= 1
  {
  }

  // ---------------------------------------------------------------------------
  // The run

  /** The loop of `schedule` as written: the counters start at one per import across components. */
  ghost function ScheduleAsWritten<N(!new)>(g: Graph<N>, size: N -> nat, max: int, batches: seq<seq<set<N>>>): Option<SState<set<N>>>
    requires Closed(g) && max >= 1
  {
    CompOutOk(g, FindSccs(g));
    FileInDegreeAtLeast(g, FindSccs(g));
    Replay(CompOut(g, FindSccs(g)), FileInDegree(g, FindSccs(g)), CpLengths(g, size), max, batches)
  }

  /** The loop with the counters at one per providing component. */
  ghost function ScheduleFixed<N(!new)>(g: Graph<N>, size: N -> nat, max: int, batches: seq<seq<set<N>>>): Option<SState<set<N>>>
    requires Closed(g) && max >= 1
  {
    CompOutOk(g, FindSccs(g));
    Replay(CompOut(g, FindSccs(g)), ProviderCount(g, FindSccs(g)), CpLengths(g, size), max, batches)
  }

  /**
   * `schedule(repo_root, max_workers, mode)` up to the end of the loop: the
   * mode is checked first, a bound below one makes the executor refuse to
   * start, and otherwise the loop runs over the batches `wait` returns.
   */
  ghost function ScheduleRun<N(!new)>(g: Graph<N>, size: N -> nat, mode: string, requested: Option<int>, cpus: Option<int>,
                                     batches: seq<seq<set<N>>>): (r: Result<Option<SState<set<N>>>, string>)
    requires Closed(g)
    ensures ParseMode(mode).Failure? ==> r == Failure(ParseMode(mode).error)
    ensures r.Success? <==> ParseMode(mode).Success? && MaxWorkers(requested, cpus) >= 1
    ensures r.Success? ==> r.value == ScheduleAsWritten(g, size, MaxWorkers(requested, cpus), batches)
  {
    var _ :- ParseMode(mode);
    var max := MaxWorkers(requested, cpus);
    if max < 1 then Failure("max_workers must be greater than 0")
    else Success(ScheduleAsWritten(g, size, max, batches))
  }

  // ---------------------------------------------------------------------------
  // Properties

  /** The fixed loop, once nothing is in flight, has completed every file of the graph. */
  lemma ScheduleFixedComplete<N(!new)>(g: Graph<N>, size: N -> nat, max: int, batches: seq<seq<set<N>>>)
    requires Closed(g) && max >= 1
    requires ScheduleFixed(g, size, max, batches).Some? && ScheduleFixed(g, size, max, batches).value.inflight == {}
    ensures forall x :: x in g ==> exists i :: 0 <= i < |ScheduleFixed(g, size, max, batches).value.finished| &&
                                            x in ScheduleFixed(g, size, max, batches).value.finished[i]
  {
    FindSccsPartition(g);
    AllCompsAreSccs(g, FindSccs(g));
    CompOutOk(g, FindSccs(g));
    CondensationAcyclic(g, FindSccs(g));
    ReplayComplete(CompOut(g, FindSccs(g)), ProviderCount(g, FindSccs(g)), CpLengths(g, size), max, batches);
    forall x | x in g
      ensures exists i :: 0 <= i < |ScheduleFixed(g, size, max, batches).value.finished| &&
                          x in ScheduleFixed(g, size, max, batches).value.finished[i]
    {
      CompMapSpec(g, FindSccs(g), x);
      var i :| 0 <= i < |ScheduleFixed(g, size, max, batches).value.finished| &&
               ScheduleFixed(g, size, max, batches).value.finished[i] == CompMap(FindSccs(g), x);
    }
  }

  /** The loop as written never submits a component two of whose imports come from one other component. */
  lemma ScheduleAsWrittenSkipsRepeatedProvider<N(!new)>(g: Graph<N>, size: N -> nat, max: int, batches: seq<seq<set<N>>>, c: set<N>)
    requires Closed(g) && max >= 1 && c in FindSccs(g)
    requires !Injective(FileEdgesInto(g, FindSccs(g), c), ProviderOf(FindSccs(g)))
    requires ScheduleAsWritten(g, size, max, batches).Some?
    ensures c !in ScheduleAsWritten(g, size, max, batches).value.started
  {
    FindSccsPartition(g);
    AllCompsAreSccs(g, FindSccs(g));
    CompOutOk(g, FindSccs(g));
    FileInDegreeAtLeast(g, FindSccs(g));
    FileInDegreeExactIff(g, FindSccs(g), c);
    ReplayNeverStartsOvercounted(CompOut(g, FindSccs(g)), FileInDegree(g, FindSccs(g)), CpLengths(g, size), max, batches, c);
  }

  /**
   * On the graph where files 1 and 2 import each other and file 3 imports
   * both, the loop as written never submits file 3, while the fixed loop
   * has completed it once nothing is in flight.
   */
  lemma ScheduleAsWrittenLosesFile(size: int -> nat, max: int, batches: seq<seq<set<int>>>)
    requires max >= 1
    ensures Closed(TwoImportsGraph())
    ensures ScheduleAsWritten(TwoImportsGraph(), size, max, batches).Some? ==>
              forall i :: 0 <= i < |ScheduleAsWritten(TwoImportsGraph(), size, max, batches).value.started| ==>
                3 !in ScheduleAsWritten(TwoImportsGraph(), size, max, batches).value.started[i]
    ensures ScheduleFixed(TwoImportsGraph(), size, max, batches).Some? && ScheduleFixed(TwoImportsGraph(), size, max, batches).value.inflight == {} ==>
              exists i :: 0 <= i < |ScheduleFixed(TwoImportsGraph(), size, max, batches).value.finished| &&
                3 in ScheduleFixed(TwoImportsGraph(), size, max, batches).value.finished[i]
  {
    TwoImportsComps();
    if ScheduleAsWritten(TwoImportsGraph(), size, max, batches).Some? {
      AsWrittenNeverStartsThree(size, max, batches);
    }
    if ScheduleFixed(TwoImportsGraph(), size, max, batches).Some? && ScheduleFixed(TwoImportsGraph(), size, max, batches).value.inflight == {} {
      ScheduleFixedComplete(TwoImportsGraph(), size, max, batches);
      assert 3 in TwoImportsGraph();
    }
  }

  lemma AsWrittenNeverStartsThree(size: int -> nat, max: int, batches: seq<seq<set<int>>>)
    requires max >= 1 && Closed(TwoImportsGraph())
    requires ScheduleAsWritten(TwoImportsGraph(), size, max, batches).Some?
    ensures forall i :: 0 <= i < |ScheduleAsWritten(TwoImportsGraph(), size, max, batches).value.started| ==>
              3 !in ScheduleAsWritten(TwoImportsGraph(), size, max, batches).value.started[i]
  {
    TwoImportsComps();
    ScheduleAsWrittenSkipsRepeatedProvider(TwoImportsGraph(), size, max, batches, {3});
    CompOutOk(TwoImportsGraph(), FindSccs(TwoImportsGraph()));
    FileInDegreeAtLeast(TwoImportsGraph(), FindSccs(TwoImportsGraph()));
    forall i | 0 <= i < |ScheduleAsWritten(TwoImportsGraph(), size, max, batches).value.started|
      ensures 3 !in ScheduleAsWritten(TwoImportsGraph(), size, max, batches).value.started[i]
    {
      StartedIsComp(TwoImportsGraph(), size, max, batches, i);
      if 3 in ScheduleAsWritten(TwoImportsGraph(), size, max, batches).value.started[i] {
        OnlyComp(TwoImportsGraph(), ScheduleAsWritten(TwoImportsGraph(), size, max, batches).value.started[i], 3);
        OnlyComp(TwoImportsGraph(), {3}, 3);
      }
    }
  }

  /** Every submitted component is one `find_sccs` returned. */
  lemma StartedIsComp<N(!new)>(g: Graph<N>, size: N -> nat, max: int, batches: seq<seq<set<N>>>, i: int)
    requires Closed(g) && max >= 1
    requires ScheduleAsWritten(g, size, max, batches).Some? && 0 <= i < |ScheduleAsWritten(g, size, max, batches).value.started|
    ensures ScheduleAsWritten(g, size, max, batches).value.started[i] in FindSccs(g)
  {
    FindSccsPartition(g);
    AllCompsAreSccs(g, FindSccs(g));
  }
}
