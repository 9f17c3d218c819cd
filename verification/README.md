# MLGit core, modelled in Dafny

MLGit indexes the committed Python files of a Git repository in dependency
order. It builds the import graph of those files and collapses its strongly
connected components. It then schedules the components so that every provider
is indexed before its consumers, with the longest critical path first. The
per-module AST summaries go into a content-addressed store: gzip blobs under
`objects_dir`, named by their SHA-256 digest, plus one JSON manifest per
commit that maps module names to digests. The type validator checks
annotations against the names a module can see.

This project models that core as pure Dafny functions over immutable data:

- `ImportGraph`: `build_import_graph`, over a given `git ls-tree` listing and
  parser.
- `Scc` and `SccCorrect`: Tarjan's `find_sccs`, and its correctness.
- `Condense`: the component DAG.
- `CriticalPath`: `compute_critical_path` and `estimate_component_weights`.
- `Kahn` and `Process`: `process_modules`.
- `Scheduler` and `Schedule`: the dispatch loop of `schedule`, over
  environment-chosen completion batches.
- `AstIndexer` and `PyAst`: `index_file`, `get_signature` and
  `ast_index_modules`, over an abstract syntax tree.
- `Storage` and `Retriever`: the store and the retriever, over an abstract
  file system with gzip, JSON and SHA-256 as parameters.
- `Resolver`, `TypeNames` and `Annotation`: `resolve_imported_module_path`,
  `get_type_names` and `validate_type`.

`Paths`, `Strings`, `Seqs`, `Sets`, `Digraph` and `Wrappers` hold the shared
vocabulary: paths as component sequences, `Option`/`Result`, Python's
exceptions as `PyError`, graphs as maps to successor sets.

Python's set and dict iteration order is not fixed by the code. The model
leaves it to a ghost choice, so the functions that depend on it are `ghost`
and their properties hold for every order.

## Model

| member | source | states |
|---|---|---|
| ImportGraph.PyListing | mlgit/core/graph.py:51-55 | exactly the listed paths ending in `.py` are kept |
| ImportGraph.ModuleEntries | mlgit/core/graph.py:58-61 | each file is keyed by its path relative to the root, suffix dropped, parts joined by dots |
| ImportGraph.BuildModuleMap | mlgit/core/graph.py:58-61 | every module name of the listing is a key, and every key comes from the listing |
| ImportGraph.ModuleMapLastWins | mlgit/core/graph.py:58-61 | when two files share a module name, the later one in the listing wins |
| ImportGraph.LongestPrefix | mlgit/core/graph.py:73-77 | the result is the file of the longest dotted prefix that is a known module, or nothing when no prefix is known |
| ImportGraph.ResolveExact | mlgit/core/graph.py:73-77 | a name that is itself a known module resolves to its own file |
| ImportGraph.ResolveInMap | mlgit/core/graph.py:73-77 | a resolved import always names a file of the listing |
| ImportGraph.FromNames | mlgit/core/graph.py:80-94 | `from m import a` yields `m.a` (or `a` without a module) for every alias except `*` |
| ImportGraph.AliasNames | mlgit/core/graph.py:70-77 | `import a.b` yields each alias name |
| ImportGraph.Edges | mlgit/core/graph.py:69-94 | a file's successors are exactly the resolutions of the names its imports mention |
| ImportGraph.ParseFile | mlgit/core/graph.py:66-67 | a read or syntax failure becomes the error of the whole build, carrying the file |
| ImportGraph.GraphOf | mlgit/core/graph.py:65-99 | the build succeeds iff every file parses; then its keys are exactly the files, including those without imports |
| ImportGraph.GraphOfFirstFailure | mlgit/core/graph.py:65-67 | a failed build reports the first file, in listing order, that does not parse |
| ImportGraph.BuildImportGraph | mlgit/core/graph.py:43-99 | the graph's keys are exactly root-joined `.py` paths of the listing, and it fails iff one of them does not parse |
| ImportGraph.EdgeTargetsAreKeys | mlgit/core/graph.py:43-99 | every import edge ends at a key of the graph, so the graph is closed |
| Scc.Push | mlgit/core/graph.py:114-118 | visiting a node numbers it with the next index, sets its lowlink to that index and pushes it |
| Scc.Lower | mlgit/core/graph.py:121-126 | a lowlink only ever decreases, and no other node's lowlink changes |
| Scc.PopUntil | mlgit/core/graph.py:128-134 | popping stops at the root: the component is exactly the stack above and including it, and the rest is the stack below |
| Scc.StrongConnect | mlgit/core/graph.py:113-135 | one call indexes its node, keeps the older stack as a prefix, and only adds indices |
| Scc.Step | mlgit/core/graph.py:120-126 | handling one successor indexes it if new and keeps the older stack as a prefix |
| Scc.Finish | mlgit/core/graph.py:128-135 | finishing a node keeps indices, lowlinks and the stack below it |
| SccCorrect.FindSccsCorrect | mlgit/core/graph.py:102-141 | `find_sccs` returns strongly connected components that cover the graph, pairwise disjoint, and two nodes share one iff they reach each other |
| Process.FindSccsPartition | mlgit/core/graph.py:195-207 | `comp_map` sends every file to the one component that holds it |
| Condense.MutReachSameComp | mlgit/core/graph.py:195-207 | files that import each other, directly or not, land in the same component |
| Condense.CompOutByImports | mlgit/core/graph.py:210-218 | a component's consumers are exactly the other components holding a file that imports one of its files |
| Condense.ProvSpec | mlgit/core/graph.py:210-218 | a component provides for another iff they differ and some file of the second imports a file of the first |
| Condense.CompOutOk | mlgit/core/graph.py:210-218 | the component graph has no self-edges and no edge to an unknown component |
| Condense.CondensationAcyclic | mlgit/core/graph.py:188-219 | the component graph is acyclic: every non-empty set of components has one whose providers all lie outside it |
| Condense.ProviderCount | mlgit/core/graph.py:210-219 | the count the Kahn loop needs: one per providing component |
| Condense.ProvIsImage | mlgit/core/graph.py:213-219 | a component's providers are the image of the cross-component imports into it |
| Condense.FileInDegreeAtLeast | mlgit/core/graph.py:219 | the source's count, one per cross-component import, is never below the number of providing components |
| Condense.FileInDegreeExactIff | mlgit/core/graph.py:219 | the source's count is exact iff no two imports into the component come from the same providing component |
| CriticalPath.EstimateWeights | mlgit/core/graph.py:144-152 | each component weighs the sum of its files' sizes |
| CriticalPath.InDegrees | mlgit/core/graph.py:164-167 | the in-degree of each node is its number of providers |
| CriticalPath.TopoComplete | mlgit/core/graph.py:170-178 | on an acyclic graph the queue walk lists every node once, providers before consumers |
| CriticalPath.Relax | mlgit/core/graph.py:183-184 | relaxing a node raises its value to at least its weight plus each consumer's value and changes nothing else |
| CriticalPath.CriticalPathLocal | mlgit/core/graph.py:181-185 | every node's value is its weight plus the largest consumer value, or its weight alone |
| CriticalPath.PathBound | mlgit/core/graph.py:181-185 | no chain of consumers starting at a node weighs more than its value |
| CriticalPath.PathAttained | mlgit/core/graph.py:181-185 | some chain of consumers starting at the node weighs exactly its value |
| CriticalPath.CriticalPathIsHeaviestChain | mlgit/core/graph.py:155-185 | `cp[n]` is the weight of the heaviest provider-to-consumer chain starting at `n` |
| Process.CpLengthsHeaviest | mlgit/core/graph.py:222-223 | the critical-path length of each component is the heaviest chain of components from it |
| Kahn.Start | mlgit/core/graph.py:226-227 | the ready list starts with exactly the components whose count is zero |
| Kahn.Order | mlgit/core/graph.py:226-237 | the loop emits distinct components, providers before consumers, and only components whose count was exact |
| Kahn.ExactZero | mlgit/core/graph.py:233-236 | with exact counts, a count reaches zero iff all the component's providers have been emitted |
| Kahn.NotStalled | mlgit/core/graph.py:230-237 | with exact counts on an acyclic graph, the ready list is empty only once every component is emitted |
| Kahn.OrderComplete | mlgit/core/graph.py:226-237 | with exact counts on an acyclic graph, every component is emitted |
| Kahn.OrderGreedy | mlgit/core/graph.py:226-237 | each emitted component has the longest critical path among those ready at that moment |
| Kahn.OverCountedNeverOutput | mlgit/core/graph.py:219-236 | a component whose starting count exceeds its number of providers is never emitted |
| Kahn.EmitKeeps | mlgit/core/graph.py:231-236 | one iteration keeps the loop invariant and strictly shrinks the set of components not yet emitted |
| Process.ProcessModulesAsWritten | mlgit/core/graph.py:188-239 | the source's queue holds distinct components of the graph |
| Process.AsWrittenFollowsImports | mlgit/core/graph.py:188-239 | in the source's queue, a file's component comes after the components of the files it imports |
| Process.AsWrittenDropsRepeatedProvider | mlgit/core/graph.py:219-236 | a component that imports two files of the same other component is left out of the source's queue |
| Process.AsWrittenAgreesWithoutRepeats | mlgit/core/graph.py:219 | without such repeated imports the source's queue equals the corrected one |
| Process.CountsAgree | mlgit/core/graph.py:219 | without such repeated imports the two counts coincide |
| Process.AsWrittenLosesFile | mlgit/core/graph.py:210-237 | on `{1:{2}, 2:{1}, 3:{1,2}}` file 3 is missing from the source's queue and present in the corrected one |
| Process.ProcessModules | mlgit/core/graph.py:188-239 | the corrected queue holds distinct components of the graph |
| Process.FollowsImports | mlgit/core/graph.py:188-239 | in the corrected queue a file's component comes after the components of every file it imports |
| Process.ProcessModulesComplete | mlgit/core/graph.py:188-239 | the corrected queue holds every component, so every file is indexed |
| Process.ProcessModulesGreedy | mlgit/core/graph.py:226-237 | the corrected queue always takes a ready component with the longest critical path |
| Schedule.ParseMode | mlgit/core/scheduler.py:103-114 | exactly the four mode names are accepted; any other raises the `Unknown mode` error |
| Schedule.ParseModeName | mlgit/core/scheduler.py:103-114 | every mode is recognised from its own name |
| Schedule.Dispatch | mlgit/core/scheduler.py:103-112 | `ast` alone runs in a process pool with `ast_index_modules`; `test` uses the test worker |
| Schedule.MaxWorkers | mlgit/core/scheduler.py:101 | a truthy request wins, then a truthy CPU count, then 1; the result is never 0 |
| Schedule.MaxWorkersPositive | mlgit/core/scheduler.py:101 | with non-negative inputs at least one worker runs |
| Schedule.ScheduleRun | mlgit/core/scheduler.py:86-172 | an unknown mode fails before any graph work; otherwise the loop runs over the condensed graph |
| Scheduler.Initial | mlgit/core/scheduler.py:140-143 | the ready queue starts with exactly the components whose counter is zero, and nothing is in flight |
| Scheduler.Fill | mlgit/core/scheduler.py:149-172 | submission stops only when the queue is empty or `max_workers` are in flight, and it only takes ready components |
| Scheduler.FillGreedy | mlgit/core/scheduler.py:149-172 | each component submitted has the longest critical path among those left ready |
| Scheduler.FinishAll | mlgit/core/scheduler.py:154-167 | a batch of completions leaves flight and is recorded in completion order |
| Scheduler.FillInv | mlgit/core/scheduler.py:149-152 | submitting keeps the loop invariant |
| Scheduler.FinishInv | mlgit/core/scheduler.py:156-167 | a completion and its counter decrements keep the loop invariant |
| Scheduler.Replay | mlgit/core/scheduler.py:147-172 | after every round the invariant holds and the queue is empty or the pool is full |
| Scheduler.ReplaySafe | mlgit/core/scheduler.py:147-172 | never more than `max_workers` in flight, nothing submitted twice, and a component is submitted only after all its providers completed |
| Scheduler.ReplayBounded | mlgit/core/scheduler.py:154-172 | the loop waits at most once per component |
| Scheduler.ReplayContinues | mlgit/core/scheduler.py:154-158 | any in-flight component may complete next |
| Scheduler.ReplayEnds | mlgit/core/scheduler.py:154-172 | when nothing is in flight the queue is empty, so the loop stops only when idle |
| Scheduler.ReplayNeverStartsOvercounted | mlgit/core/scheduler.py:135-167 | a component whose counter starts above its number of providers is never submitted |
| Scheduler.StoppedComplete | mlgit/core/scheduler.py:147-172 | with exact counters on an acyclic graph, a stopped loop has completed every component |
| Schedule.ScheduleFixedComplete | mlgit/core/scheduler.py:119-172 | with one counter per providing component, every file is indexed once the loop stops |
| Schedule.ScheduleAsWrittenSkipsRepeatedProvider | mlgit/core/scheduler.py:135-167 | with the source's counters, a component importing two files of one other component is never submitted |
| Schedule.ScheduleAsWrittenLosesFile | mlgit/core/scheduler.py:127-172 | on `{1:{2}, 2:{1}, 3:{1,2}}` the source never submits file 3; the corrected counters index it |
| Schedule.AsWrittenNeverStartsThree | mlgit/core/scheduler.py:135-167 | on that graph, file 3 is never submitted under the source's counters |
| Schedule.StartedIsComp | mlgit/core/scheduler.py:119-152 | only components of the graph are ever submitted |
| AstIndexer.GetSignature | mlgit/core/ast_indexer.py:62-97 | one parameter per argument, then `*args`, keyword-only ones and `**kwargs`; the last defaults belong to the last positional parameters |
| AstIndexer.SignatureDefaultsBound | mlgit/core/ast_indexer.py:72-77 | each positional parameter gets the default Python binds to it, counting positional-only ones |
| AstIndexer.AsWrittenAgreesWithoutPositionalOnlyDefaults | mlgit/core/ast_indexer.py:72-77 | without positional-only parameters the source's alignment is right |
| AstIndexer.AsWrittenMisalignsPositionalOnlyDefaults | mlgit/core/ast_indexer.py:72 | for `def f(a=1, /, b=2)` the source reports `b=1`; the corrected one reports `b=2` |
| AstIndexer.ImportRecordsMembership | mlgit/core/ast_indexer.py:140-164 | one record per alias of every import in the tree, star aliases of `from` imports excluded |
| AstIndexer.ImportRecordsClassified | mlgit/core/ast_indexer.py:140-164 | `import m` records are absolute at level 0; `from` records are relative iff their level is positive |
| AstIndexer.AssignSplit | mlgit/core/ast_indexer.py:167-189 | an assignment of a literal yields constants only; any other yields type aliases only, one per name target |
| AstIndexer.ConstantsMembership | mlgit/core/ast_indexer.py:167-172 | a constant is recorded iff a top-level assignment binds that name to that literal |
| AstIndexer.FunctionsAreDefs | mlgit/core/ast_indexer.py:192-200 | exactly the top-level `def`s are recorded as functions, whichever signature rule builds their signatures |
| AstIndexer.FunctionsOfOne | mlgit/core/ast_indexer.py:192-200 | a single statement contributes exactly the function it defines |
| AstIndexer.FunctionsAgree | mlgit/core/ast_indexer.py:192-200 | where no `def` gives positional-only parameters defaults, the source's signatures and the corrected ones list the same functions |
| AstIndexer.ClassesAgree | mlgit/core/ast_indexer.py:202-225 | where no method gives positional-only parameters defaults, both signature rules list the same classes and methods |
| AstIndexer.HasMainGuard | mlgit/core/ast_indexer.py:229-235 | the flag is set iff some top-level statement is the `__main__` guard |
| AstIndexer.IndexFile | mlgit/core/ast_indexer.py:100-246 | the entry records the file's own path and the main guard iff there is one; its import records are classified as above; every top-level `def` is recorded with the signature the source's `get_signature` gives |
| AstIndexer.IndexFileFixed | mlgit/core/ast_indexer.py:100-246 | the entry with corrected signatures differs from the source's only in its functions and classes, and records every top-level `def` with its correctly aligned defaults |
| AstIndexer.IndexFileAgrees | mlgit/core/ast_indexer.py:192-225 | without positional-only defaults, the source's entry equals the corrected one |
| AstIndexer.IndexFileMisaligns | mlgit/core/ast_indexer.py:192-199 | for a module holding `def f(a=1, /, b=2)`, the source's entry lists `b` with default `1` and the corrected entry lists it with `2` |
| AstIndexer.AstIndexModules | mlgit/core/ast_indexer.py:249-260 | one entry per path in order; a file that fails to parse gets an error entry instead of stopping the run |
| Paths.RelativeTo | mlgit/core/graph.py:60 | `relative_to` succeeds iff the root is a prefix, and the root joined to the result is the path |
| Paths.RelativeToRoundTrip | mlgit/core/graph.py:55-60 | taking a root-joined path relative to the root gives back the relative path |
| Paths.WithSuffix | mlgit/core/graph.py:61 | `with_suffix` replaces only the last component's suffix, and fails on an empty name |
| Paths.StripSuffix | mlgit/core/graph.py:61 | the stem followed by the suffix is the original name |
| Paths.PySuffixStripped | mlgit/core/graph.py:55-61 | for a `.py` file, dropping the suffix removes exactly `.py` |
| Paths.ModuleName | mlgit/core/storage.py:136-138 | the module name is the dotted relative path, and fails only on an empty name |
| Paths.Climb | mlgit/core/type_validator.py:39-41 | climbing `n` parents keeps a prefix `n` components shorter, stopping at the empty path |
| Storage.MkDirs | mlgit/core/storage.py:38-40 | after `mkdir`, the directory exists and no file changed |
| Storage.BlobPathLayout | mlgit/core/storage.py:47-50 | a blob lives at `objects/<first two hex>/<rest>.json.gz`, and its digest is read back from that path |
| Storage.BlobPathInjective | mlgit/core/storage.py:47-50 | two digests with the same blob path are the same digest, so blobs never collide |
| Storage.BlobIsNotManifest | mlgit/core/storage.py:47-61 | a blob path is never a manifest path |
| Storage.WriteBlob | mlgit/core/storage.py:47-57 | writing adds the blob path; a new blob holds the gzip of the data |
| Storage.WriteBlobKeeps | mlgit/core/storage.py:51-52 | an existing file is never overwritten |
| Storage.WriteBlobTwice | mlgit/core/storage.py:51-52 | writing the same digest twice is the same as writing it once |
| Storage.WriteManifest | mlgit/core/storage.py:60-66 | the commit's manifest holds exactly the given modules map, and nothing else changes |
| Storage.WriteManifestReplaces | mlgit/core/storage.py:60-66 | a second manifest for the same commit replaces the first |
| Storage.Prune | mlgit/core/storage.py:69-92 | pruning fails iff the objects directory does not exist |
| Storage.PruneFiles | mlgit/core/storage.py:79-89 | exactly the blobs whose digest no manifest references are deleted, and kept files are unchanged |
| Storage.PruneKeepsManifests | mlgit/core/storage.py:69-92 | manifests survive pruning, so the referenced digests stay the same |
| Storage.PruneKeepsReferenced | mlgit/core/storage.py:88 | a referenced blob survives pruning unchanged |
| Storage.PruneLeavesOnlyReferenced | mlgit/core/storage.py:79-89 | after pruning, every blob left is referenced |
| Storage.PruneDirs | mlgit/core/storage.py:90-92 | only shard directories are removed, and only empty ones |
| Storage.PruneIdempotent | mlgit/core/storage.py:69-92 | pruning a second time changes nothing |
| Storage.NewestFirstSorted | mlgit/core/storage.py:96-100 | manifests are listed newest first by modification time |
| Storage.NewestFirstElems | mlgit/core/storage.py:96-100 | the listing holds every manifest exactly once |
| Storage.SliceStart | mlgit/core/storage.py:101 | `files[keep:]` starts at Python's clamped index, negative `keep` counted from the end |
| Storage.TrimOnlyManifests | mlgit/core/storage.py:95-102 | trimming deletes manifests only and leaves other files unchanged |
| Storage.TrimKept | mlgit/core/storage.py:95-102 | the manifests kept are the first `keep` of the newest-first listing |
| Storage.TrimCount | mlgit/core/storage.py:95-102 | `keep` manifests remain, or all of them when there are fewer |
| Storage.TrimKeepsNewest | mlgit/core/storage.py:95-102 | no deleted manifest is newer than a kept one |
| Storage.TrimNothingToDo | mlgit/core/storage.py:95-102 | with no more manifests than `keep`, trimming changes nothing |
| Storage.KeepCount | mlgit/core/storage.py:161-163 | trimming runs iff `keep_last_manifests` is a positive integer, with `True` counted as 1 |
| Storage.NameOfSpec | mlgit/core/storage.py:136-138 | a module is named iff its path lies strictly under the root, and the name is the dotted relative path; otherwise `ValueError` |
| Storage.NameAndDump | mlgit/core/storage.py:136-143 | one turn of the loop succeeds iff the result has a name and `json.dumps` accepts it; otherwise it raises `ValueError` for the name, or else `TypeError` for the dump |
| Storage.NameAll | mlgit/core/storage.py:134-143 | the loop gets past every result iff each one can be named and dumped, pairing each result with its name in order; otherwise the error is that of the first result it stops at |
| Storage.WriteEntriesLastWins | mlgit/core/storage.py:134-146 | the modules map sends each name to the digest of the last result with that name |
| Storage.WriteEntriesFiles | mlgit/core/storage.py:134-146 | the loop adds exactly the blobs of the results and changes no existing file |
| Storage.WriteEntriesAddressed | mlgit/core/storage.py:141-146 | every blob in the store is the gzip of data whose digest names its path |
| Storage.WriteEntriesTwice | mlgit/core/storage.py:141-146 | storing the same results again leaves the files and the map unchanged |
| Storage.StoreSucceeds | mlgit/core/storage.py:117-163 | storing fails iff some result cannot be named or dumped to JSON, with the `ValueError` or `TypeError` of the first such result; on success the config records the commit and branch |
| Storage.StoreOutcome | mlgit/core/storage.py:117-163 | after storing, the commit's manifest holds the modules map, each last-named result's blob is present, and the store holds no foreign data |
| Storage.StoreThenTrim | mlgit/core/storage.py:160-163 | a store with `keep_last_manifests` set is the store without it, followed by `trim_manifests` |
| Storage.UntrimmedManifests | mlgit/core/storage.py:117-159 | before the trim, the only manifest the store adds is the commit's own |
| Storage.TrimKeepsLatest | mlgit/core/storage.py:95-102 | when `keep` is at least one, trimming keeps a manifest that is strictly newer than every other one |
| Storage.TrimKeepsBlobs | mlgit/core/storage.py:95-102 | trimming keeps every blob, keeps the store content-addressed and adds no data |
| Storage.StoreOutcomeTrimmed | mlgit/core/storage.py:117-163 | with trimming on and the new manifest the newest, everything `StoreOutcome` states holds after the trim too |
| Storage.StoreUntrimmed | mlgit/core/storage.py:151-160 | without trimming, the result is the committed store, pruned when the config asks |
| Storage.WrittenManifest | mlgit/core/storage.py:133-146 | the manifest's keys are exactly the module names, each mapped to its last result's digest |
| Retriever.RecordedCommit | mlgit/core/retriever.py:34-36 | a missing or empty `repo.commit` raises the `ValueError` telling the user to index first |
| Retriever.StrictManifestsDir | mlgit/core/retriever.py:33 | `cfg["storage"]["manifests_dir"]` raises `KeyError` for the first missing key |
| Retriever.StrictObjectsDir | mlgit/core/retriever.py:52 | `cfg["storage"]["objects_dir"]` raises `KeyError` for the first missing key |
| Retriever.ReadManifest | mlgit/core/retriever.py:34-44 | a missing manifest raises `FileNotFoundError`; a loaded map is what the manifest file holds |
| Retriever.LoadManifestAsWritten | mlgit/core/retriever.py:26-44 | the configuration's storage keys are read before anything else, as the source does |
| Retriever.ReadManifestAfterWrite | mlgit/core/retriever.py:26-44 | a manifest written for the recorded commit reads back as the same map |
| Retriever.ReadBlob | mlgit/core/retriever.py:53-60 | a missing blob raises `FileNotFoundError`; a loaded object is what the blob's data parses to |
| Retriever.LoadBlobAsWritten | mlgit/core/retriever.py:47-60 | the `objects_dir` key is read before the blob, as the source does |
| Retriever.ReadBlobAfterWrite | mlgit/core/retriever.py:47-60 | a blob written for an object reads back as that object |
| Retriever.LoadEachSpec | mlgit/core/retriever.py:70-74 | loading succeeds iff every referenced blob loads, with one result per entry; otherwise it fails with some entry's error |
| Retriever.LoadAsWrittenAgrees | mlgit/core/retriever.py:26-74 | with the storage keys present, the source's retriever and the corrected one agree |
| Retriever.LoadCommitted | mlgit/core/retriever.py:63-74 | a committed manifest loads back exactly the objects last stored under each name |
| Retriever.StoreLeaves | mlgit/core/storage.py:117-163 | after storing, with trimming off or the new manifest the newest, the config records the commit, the directories are unchanged, and the manifest and blobs are in place |
| Retriever.StoreThenLoad | mlgit/core/retriever.py:63-74 | loading right after storing, with trimming off or the new manifest the newest, returns exactly the last-stored object of each module name |
| Retriever.InitialConfig | mlgit/core/initializer.py:47-60 | the configuration `mlgit init` writes has no `storage` section and no housekeeping enabled |
| Retriever.NoStorageSection | mlgit/core/retriever.py:33-52 | without a `storage` section the source's retriever raises `KeyError('storage')` |
| Retriever.InitialStoreThenLoad | mlgit/core/retriever.py:33 | after init and a store, the source's retriever fails while the corrected one returns every stored object |
| Resolver.IndexedPaths | mlgit/core/type_validator.py:20 | the known paths are exactly the paths of the index entries |
| Resolver.ModuleCandidates | mlgit/core/type_validator.py:28-30 | the candidates are `rel.py` and `rel/__init__.py` under the search directory, with dots turned into slashes |
| Resolver.Choose | mlgit/core/type_validator.py:32-56 | the `.py` file wins over the package, and nothing is returned iff neither is indexed |
| Resolver.Resolve | mlgit/core/type_validator.py:4-56 | the result is always an indexed path, and nothing iff neither candidate is indexed |
| Resolver.AbsoluteIgnoresTarget | mlgit/core/type_validator.py:26-36 | an absolute import resolves under the root, whatever file imports it |
| Resolver.RelativeClimbs | mlgit/core/type_validator.py:38-50 | a relative import resolves below the directory `level + 1` levels above the importing file, whatever the root |
| Resolver.RelativeEmptyBase | mlgit/core/type_validator.py:47-50 | `from . import x` can only resolve to the search directory's `__init__.py` |
| Resolver.PreferModuleFile | mlgit/core/type_validator.py:52-55 | with both candidates indexed, the module file is chosen |
| Resolver.SiblingImport | mlgit/core/type_validator.py:38-41 | `from .b import X` in `pkg/a.py` never resolves to `pkg/b.py` as written; the corrected lookup finds it |
| Resolver.ResolveFixed | mlgit/core/type_validator.py:38-56 | the corrected lookup returns indexed paths and agrees with the source on absolute imports |
| Resolver.SearchDirFixed | mlgit/core/type_validator.py:38-41 | one leading dot searches the importing file's own directory, each further dot one parent up |
| TypeNames.PathMap | mlgit/core/old_type_validator.py:82 | the path map sends each path to an entry with that path |
| TypeNames.PathMapKeys | mlgit/core/old_type_validator.py:82 | its keys are exactly the indexed paths |
| TypeNames.PathMapLast | mlgit/core/old_type_validator.py:82 | for a repeated path, the last entry wins |
| TypeNames.LookupResolved | mlgit/core/old_type_validator.py:129-142 | a module is found iff its absolute import resolves, and the entry found is the resolved path's |
| TypeNames.Broad | mlgit/core/old_type_validator.py:116-120 | the broad imports are exactly the modules of records without an identifier |
| TypeNames.Idents | mlgit/core/old_type_validator.py:121-122 | the identifiers of a module are exactly those imported from it |
| TypeNames.SpecificMods | mlgit/core/old_type_validator.py:116-126 | the specific modules are those imported from with identifiers, minus the broadly imported ones, each once |
| TypeNames.Local | mlgit/core/old_type_validator.py:98-110 | the module's own named classes and aliases, under their bare names |
| TypeNames.ClassMap | mlgit/core/old_type_validator.py:173 | each class is findable by its name |
| TypeNames.AliasMap | mlgit/core/old_type_validator.py:174 | the alias map's keys are exactly the alias names |
| TypeNames.BroadLoopExternal | mlgit/core/old_type_validator.py:128-142 | a broad import becomes an external module iff it does not resolve |
| TypeNames.BroadLoopClasses | mlgit/core/old_type_validator.py:143-150 | each resolved broad import adds its classes under `mod.Name`, and nothing else is added |
| TypeNames.BroadLoopAliases | mlgit/core/old_type_validator.py:151-154 | each resolved broad import adds its aliases under `mod.Name`, and nothing else is added |
| TypeNames.SpecificLoopClasses | mlgit/core/old_type_validator.py:173-182 | a specifically imported identifier that is a class of a resolved module is added under its bare name |
| TypeNames.SpecificLoopAliases | mlgit/core/old_type_validator.py:183-185 | a specifically imported identifier that is an alias of a resolved module is added under its bare name |
| TypeNames.SpecificLoopIdentifiers | mlgit/core/old_type_validator.py:164-172 | identifiers of an unresolved module become external and map to a module they were imported from |
| TypeNames.GetTypeNames | mlgit/core/old_type_validator.py:83-190 | an unknown target yields empty results; the external modules are sorted |
| TypeNames.ExternalModules | mlgit/core/old_type_validator.py:128-190 | the external modules are exactly the broad imports that do not resolve, in sorted order |
| TypeNames.ClassKeys | mlgit/core/old_type_validator.py:93-185 | a class name is known iff it is local, qualified from a resolved broad import, or specifically imported from a resolved module |
| TypeNames.AliasKeys | mlgit/core/old_type_validator.py:93-185 | the same three sources, for type aliases |
| TypeNames.ExternalIdentifiers | mlgit/core/old_type_validator.py:156-172 | an identifier is external iff some unresolved, not broadly imported module provides it, and it maps to such a module |
| TypeNames.QualifiedClass | mlgit/core/old_type_validator.py:128-150 | every class of a resolved broad import is visible as `mod.Name` |
| Annotation.LexiconOf | mlgit/core/old_type_validator.py:220-237 | the simple names allowed are the basic types plus the known classes, aliases and identifiers |
| Annotation.NameEnd | mlgit/core/old_type_validator.py:241-243 | the name scan stops at the first character that is not alphanumeric, `_` or `.` |
| Annotation.ParseTypeSound | mlgit/core/old_type_validator.py:239-260 | whatever `parse_type` accepts spells out a well-formed type |
| Annotation.ParseTypeComplete | mlgit/core/old_type_validator.py:239-260 | every well-formed type is accepted by `parse_type`, which stops right after it |
| Annotation.ParseArgsComplete | mlgit/core/old_type_validator.py:262-272 | every comma-separated list of well-formed types is accepted by `parse_args` |
| Annotation.AcceptsGrammar | mlgit/core/old_type_validator.py:219-275 | an annotation is accepted iff, spaces removed, it is exactly the rendering of a well-formed type |
| Annotation.AcceptsIgnoresSpaces | mlgit/core/old_type_validator.py:219 | spaces never change the verdict |
| Annotation.AcceptsEmpty | mlgit/core/old_type_validator.py:244-275 | an empty annotation, or one of only spaces, is rejected |
| Annotation.AcceptsName | mlgit/core/old_type_validator.py:255-260 | a bare name is accepted iff it is allowed or its first dotted part is a known module |
| Annotation.AcceptsSubscript | mlgit/core/old_type_validator.py:247-254 | `H[...]` is accepted iff `H` is a container and the brackets hold a non-empty list of well-formed types |
| Annotation.ValidateName | mlgit/core/old_type_validator.py:197-275 | a bare name validates iff it is basic, a known class, alias or identifier, or starts with a known module |
| Annotation.ValidateQualified | mlgit/core/old_type_validator.py:257-259 | `mod.Anything` validates for a known module |
| Annotation.ValidateSubscript | mlgit/core/old_type_validator.py:247-254 | the subscript rule, stated for `validate_type`'s own containers and lexicon |
| Annotation.AcceptsShape | mlgit/core/old_type_validator.py:274-275 | an accepted annotation is a bare name or ends with `]` |
| Annotation.Fixture | tests/old_type_validator_test.py:8-13 | the fixture's classes, aliases, identifiers and modules |
| Annotation.FixtureUnknown | tests/old_type_validator_test.py:47-48 | `UnknownType` and `List[UnknownType]` are rejected |
| Annotation.FixtureQualified | tests/old_type_validator_test.py:45-46 | `extmod.SomeType` and `requests.Session` are accepted |
| Annotation.FixtureUnclosed | tests/old_type_validator_test.py:49 | `List[int` is rejected |
| Annotation.FixtureEmpty | tests/old_type_validator_test.py:50 | the empty annotation is rejected |
| Annotation.FixtureNested | tests/old_type_validator_test.py:28-41 | nested and multi-argument containers such as `Dict[str,List[int]]` are accepted |

## Left out

- Threads and processes: `ProcessPoolExecutor`, `ThreadPoolExecutor` and `wait` are not modelled as concurrency. Each `wait` is a batch of in-flight components chosen by the environment (`Scheduler.Replay`), and every order is covered.
- The worker functions' bodies are left out. That covers `test_index_modules` and its `sleep`, and `llm_index_modules`, a placeholder. Only which one is chosen is modelled.
- Printing is left out: `print_import_graph`, `print_processing_queue`, the result dumps of `schedule` and the CLI messages.
- `git ls-tree`, `git rev-parse`, file reads, `ast.parse`, modification times and file sizes are parameters: a listing, a parse function, an `mtime` function and a `size` function.
- JSON text, gzip and SHA-256 are the fields of a `Codec` and constructors of `Content`: the model keeps what was written, not its bytes.
- `config.json` is a `Config` value. Loading and saving it (`load_config`, `save_config`) are not separate operations.
- `Storage.Store`: a directory where a blob file should go, `FileExistsError` from `mkdir`, and atomic-rename failures are not modelled.
- `Storage.Store`: the blobs written before a naming `ValueError` or a dumping `TypeError` are not modelled. The model fails the whole store, while the source leaves those earlier blobs on disk.
- Which module objects `json.dumps` refuses is the `serializable` field of the `Codec`. The indexer's `OtherConst` does not tell a float constant from a bytes, complex or `...` constant, so which indexed modules make the store raise `TypeError` is not derived.
- Retriever.StoreThenLoad: with trimming on, it holds only when the new manifest's modification time is strictly greater than every other manifest's (`WrittenLast`). On a tie, the newest-first order is unspecified and the trim may delete the manifest just written.
- Retriever.StoreLeaves: the same restriction to trimming off or a strictly newest manifest applies.
- Scc.StrongConnect: Python's recursion limit is not modelled. The source's `strongconnect` is recursive, so a chain of about a thousand imports raises `RecursionError`, while the model's recursion is unbounded.
- Schedule.ScheduleRun: stops at the end of the loop. In `ast` mode the source then prints the results and calls `store_ast_results` (scheduler.py:174-180); that store is `Storage.Store`, but the two are not composed into one function.
- Settings paths that are absolute, and a commit name holding `/`, are not modelled. Paths are joined as component sequences.
- A manifest whose `"modules"` value is not a mapping, and a JSON file that is not an object, are both `Unreadable`. `prune_unreferenced` skips such a manifest.
- `Path.resolve()` is the identity. `str(Path)` comparisons are comparisons of component sequences.
- Character classes are simplified: `str.isalnum` is ASCII letters and digits only, and there is no Unicode normalisation.
- Set and dict iteration order is a ghost choice. This affects Tarjan's successor order, the initial order of the ready lists and the order of the loaded results.
- `Kahn.OrderGreedy`: ties between ready components of equal critical-path length may break either way. The source's `PriorityQueue` also compares the frozensets themselves, and `list.sort` is stable over set order.
- `CriticalPath.EstimateWeights`: sizes are natural numbers rather than floats.
- The `if not meta` branch of `get_type_names` after a successful resolve cannot be taken, because a resolved path is always a key of the path map. The model has no such branch.
- `cli.py` argument parsing, `initializer.py` beyond the configuration it writes, and `utils.find_git_root` are not part of this model.

## Findings

| source | as written | input that shows it | evidently intended | confidence | as-written member | corrected member |
|---|---|---|---|---|---|---|
| mlgit/core/graph.py:219-236 (and mlgit/core/scheduler.py:135-167) | the in-degree counts one per import across components, but each finished provider decrements a consumer once | `{1:{2}, 2:{1}, 3:{1,2}}`: file 3 imports both files of component `{1,2}`, so its count starts at 2 and drops to 1 | one count per providing component, so every component is eventually emitted or submitted | not executed | Process.AsWrittenLosesFile, Schedule.ScheduleAsWrittenLosesFile | Process.ProcessModulesComplete, Schedule.ScheduleFixedComplete |
| mlgit/core/ast_indexer.py:72 | `defaults` covers positional-only and ordinary parameters, but is aligned against the ordinary ones only | `def f(a=1, /, b=2)` reports `b` with default `1` | align the defaults against positional-only and ordinary parameters together | not executed | AstIndexer.AsWrittenMisalignsPositionalOnlyDefaults, AstIndexer.IndexFileMisaligns | AstIndexer.GetSignature, AstIndexer.SignatureDefaultsBound, AstIndexer.IndexFileFixed |
| mlgit/core/retriever.py:33-52 | the retriever indexes `cfg["storage"][...]`, while the store falls back on defaults and `mlgit init` writes no `storage` section | `mlgit init` then indexing: the store succeeds, then loading raises `KeyError('storage')` | read the directories with the same defaults the store uses | not executed | Retriever.InitialStoreThenLoad | Retriever.StoreThenLoad |
| mlgit/core/type_validator.py:38-41 (and mlgit/core/old_type_validator.py:59-61) | a relative import climbs `level` parents above the importing file's directory | `from .b import X` in `pkg/a.py` with `pkg/b.py` indexed searches the directory above `pkg` | one dot means the importing file's own package: climb `level - 1` parents | not executed | Resolver.SiblingImport | Resolver.ResolveFixed |
