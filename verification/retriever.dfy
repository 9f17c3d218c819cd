/**
 * `mlgit.core.retriever`: read back the manifest of the commit the
 * configuration records, and the blobs it names.
 *
 * The members ending in `AsWritten` index the configuration the way the
 * retriever does, `cfg["storage"][...]`, and so raise `KeyError` for a
 * configuration without those keys; the others fall back on the same
 * defaults the store writes under.
 */
module Retriever {
  import opened Wrappers
  import opened Paths
  import opened Sets
  import opened Seqs
  import opened Storage

  const NoCommitMessage: string := "No commit recorded in config.json; please run `mlgit index` first."

  /** `cfg.get("repo", {}).get("commit")`, which must be a non-empty string. */
  function RecordedCommit(cfg: Config): (r: Result<string, PyError>)
    ensures r.Success? <==> cfg.repo.Some? && cfg.repo.value.commit.Some? && cfg.repo.value.commit.value != ""
    ensures r.Success? ==> r.value == cfg.repo.value.commit.value
    ensures r.Failure? ==> r.error == ValueError(NoCommitMessage)
  {
    if cfg.repo.Some? && cfg.repo.value.commit.Some? && cfg.repo.value.commit.value != "" then Success(cfg.repo.value.commit.value)
    else Failure(ValueError(NoCommitMessage))
  }

  /** `repo_root / cfg["storage"]["manifests_dir"]`: the store's directory when both keys are present, a KeyError otherwise. */
  function StrictManifestsDir(cfg: Config, root: Path): (r: Result<Path, PyError>)
    ensures r.Success? <==> cfg.storage.Some? && cfg.storage.value.manifestsDir.Some?
    ensures r.Success? ==> r.value == ManifestsDir(cfg, root)
    ensures cfg.storage.None? ==> r == Failure(KeyError("storage"))
    ensures cfg.storage.Some? && cfg.storage.value.manifestsDir.None? ==> r == Failure(KeyError("manifests_dir"))
  {
    if cfg.storage.None? then Failure(KeyError("storage"))
    else if cfg.storage.value.manifestsDir.None? then Failure(KeyError("manifests_dir"))
    else Success(root + FromSlashed(cfg.storage.value.manifestsDir.value))
  }

  /** `repo_root / cfg["storage"]["objects_dir"]`: the store's directory when both keys are present, a KeyError otherwise. */
  function StrictObjectsDir(cfg: Config, root: Path): (r: Result<Path, PyError>)
    ensures r.Success? <==> cfg.storage.Some? && cfg.storage.value.objectsDir.Some?
    ensures r.Success? ==> r.value == ObjectsDir(cfg, root)
    ensures cfg.storage.None? ==> r == Failure(KeyError("storage"))
    ensures cfg.storage.Some? && cfg.storage.value.objectsDir.None? ==> r == Failure(KeyError("objects_dir"))
  {
    if cfg.storage.None? then Failure(KeyError("storage"))
    else if cfg.storage.value.objectsDir.None? then Failure(KeyError("objects_dir"))
    else Success(root + FromSlashed(cfg.storage.value.objectsDir.value))
  }

  // ---------------------------------------------------------------------------
  // load_manifest

  /**
   * The body of `load_manifest` once the directory is known: the recorded
   * commit, the file `<commit>.json`, and its "modules" mapping, empty
   * when the object has none.
   */
  function ReadManifest(fs: Fs, manifests: Path, cfg: Config): (r: Result<map<string, string>, PyError>)
    ensures RecordedCommit(cfg).Failure? ==> r == Failure(RecordedCommit(cfg).error)
    ensures RecordedCommit(cfg).Success? && ManifestPath(manifests, RecordedCommit(cfg).value) !in fs.files ==>
              r == Failure(FileNotFoundError(ManifestPath(manifests, RecordedCommit(cfg).value)))
    ensures r.Success? ==> fs.files[ManifestPath(manifests, RecordedCommit(cfg).value)] in {ManifestJson(Some(r.value)), ManifestJson(None)}
    ensures r.Success? && r.value != map[] ==> fs.files[ManifestPath(manifests, RecordedCommit(cfg).value)] == ManifestJson(Some(r.value))
  {
    var commit :- RecordedCommit(cfg);
    var p := ManifestPath(manifests, commit);
    if p !in fs.files then Failure(FileNotFoundError(p))
    else match fs.files[p]
      case ManifestJson(modules) => Success(modules.GetOr(map[]))
      case _ => Failure(DecodeError(p))
  }

  /** `load_manifest(repo_root)` as written. */
  function LoadManifestAsWritten(fs: Fs, cfg: Config, root: Path): (r: Result<map<string, string>, PyError>)
    ensures StrictManifestsDir(cfg, root).Failure? ==> r == Failure(StrictManifestsDir(cfg, root).error)
    ensures StrictManifestsDir(cfg, root).Success? ==> r == ReadManifest(fs, ManifestsDir(cfg, root), cfg)
  {
    var dir :- StrictManifestsDir(cfg, root);
    ReadManifest(fs, dir, cfg)
  }

  /** `load_manifest(repo_root)` with the store's default directory. */
  function LoadManifest(fs: Fs, cfg: Config, root: Path): Result<map<string, string>, PyError> {
    ReadManifest(fs, ManifestsDir(cfg, root), cfg)
  }

  /** Reading the manifest of the recorded commit gives back the mapping last written for it. */
  lemma ReadManifestAfterWrite(fs: Fs, manifests: Path, cfg: Config, modules: map<string, string>)
    requires RecordedCommit(cfg).Success?
    ensures ReadManifest(WriteManifest(fs, manifests, RecordedCommit(cfg).value, modules), manifests, cfg) == Success(modules)
  {
  }

  // ---------------------------------------------------------------------------
  // load_blob

  /** The body of `load_blob` once the directory is known: the blob's path, then gunzip and parse. */
  function ReadBlob<O>(fs: Fs, objects: Path, codec: Codec<O>, digest: string): (r: Result<O, PyError>)
    ensures BlobPath(objects, digest) !in fs.files ==> r == Failure(FileNotFoundError(BlobPath(objects, digest)))
    ensures r.Success? <==> BlobPath(objects, digest) in fs.files && fs.files[BlobPath(objects, digest)].Gzipped? &&
                            codec.parse(fs.files[BlobPath(objects, digest)].data).Some?
    ensures r.Success? ==> codec.parse(fs.files[BlobPath(objects, digest)].data) == Some(r.value)
  {
    var p := BlobPath(objects, digest);
    if p !in fs.files then Failure(FileNotFoundError(p))
    else match fs.files[p]
      case Gzipped(data) => (match codec.parse(data) case Some(o) => Success(o) case None => Failure(DecodeError(p)))
      case _ => Failure(DecodeError(p))
  }

  /** `load_blob(digest, repo_root)` as written. */
  function LoadBlobAsWritten<O>(fs: Fs, cfg: Config, root: Path, codec: Codec<O>, digest: string): (r: Result<O, PyError>)
    ensures StrictObjectsDir(cfg, root).Failure? ==> r == Failure(StrictObjectsDir(cfg, root).error)
    ensures StrictObjectsDir(cfg, root).Success? ==> r == ReadBlob(fs, ObjectsDir(cfg, root), codec, digest)
  {
    var dir :- StrictObjectsDir(cfg, root);
    ReadBlob(fs, dir, codec, digest)
  }

  /** `load_blob(digest, repo_root)` with the store's default directory. */
  function LoadBlob<O>(fs: Fs, cfg: Config, root: Path, codec: Codec<O>, digest: string): Result<O, PyError> {
    ReadBlob(fs, ObjectsDir(cfg, root), codec, digest)
  }

  /**
   * In a content-addressed store whose data the digest tells apart, the
   * blob filed under the digest of an object's serialisation parses back
   * to that object.
   */
  lemma ReadBlobStored<O>(codec: Codec<O>, fs: Fs, objects: Path, o: O, known: set<Bytes>)
    requires Addressed(codec, fs, objects) && BlobPath(objects, DigestOf(codec, o)) in fs.files
    requires Stored(fs) <= known && codec.serialize(o) in known && Injective(known, codec.digest)
    requires codec.parse(codec.serialize(o)) == Some(o)
    ensures ReadBlob(fs, objects, codec, DigestOf(codec, o)) == Success(o)
  {
    var p := BlobPath(objects, DigestOf(codec, o));
    assert fs.files[p].data in Stored(fs);
  }

  /** Writing an object's blob and reading it back gives the object, unless its digest collides with stored data. */
  lemma ReadBlobAfterWrite<O>(codec: Codec<O>, fs: Fs, objects: Path, o: O)
    requires Addressed(codec, fs, objects) && Injective(Stored(fs) + {codec.serialize(o)}, codec.digest)
    requires codec.parse(codec.serialize(o)) == Some(o)
    ensures ReadBlob(WriteBlob(fs, objects, DigestOf(codec, o), codec.serialize(o)), objects, codec, DigestOf(codec, o)) == Success(o)
  {
    var data := codec.serialize(o);
    WriteBlobAddressed(codec, fs, objects, data);
    ReadBlobStored(codec, WriteBlob(fs, objects, codec.digest(data), data), objects, o, Stored(fs) + {data});
  }

  // ---------------------------------------------------------------------------
  // load_ast_results

  /** One loaded blob per manifest entry, in the manifest's order, stopping at the first failure. */
  ghost function LoadEach<O>(modules: map<string, string>, load: string -> Result<O, PyError>): Result<seq<O>, PyError> {
    EnumerateSpec(modules.Keys);
    AllOk(Loads(modules, load, Enumerate(modules.Keys)))
  }

  /** The loads of `names`' entries, in that order. */
  function Loads<O>(modules: map<string, string>, load: string -> Result<O, PyError>, names: seq<string>): (rs: seq<Result<O, PyError>>)
    requires Elems(names) <= modules.Keys
    ensures |rs| == |names|
  {
    seq(|names|, i requires 0 <= i < |names| => load(modules[names[i]]))
  }

  /**
   * Loading every entry of a manifest succeeds exactly when every entry's
   * blob loads, and then gives one result per entry: the loaded objects.
   */
  lemma LoadEachSpec<O>(modules: map<string, string>, load: string -> Result<O, PyError>)
    ensures LoadEach(modules, load).Success? <==> forall k :: k in modules ==> load(modules[k]).Success?
    ensures LoadEach(modules, load).Success? ==> |LoadEach(modules, load).value| == |modules|
    ensures LoadEach(modules, load).Success? ==>
              forall x :: x in LoadEach(modules, load).value <==> exists k :: k in modules && load(modules[k]) == Success(x)
    ensures LoadEach(modules, load).Failure? ==> exists k :: k in modules && load(modules[k]) == Failure(LoadEach(modules, load).error)
  {
    EnumerateSpec(modules.Keys);
    var names := Enumerate(modules.Keys);
    assert LoadEach(modules, load) == AllOk(Loads(modules, load, names));
    LoadsOk(modules, load, names);
    LoadsFail(modules, load, names);
    if AllOk(Loads(modules, load, names)).Success? {
      LoadsValues(modules, load, names);
    }
  }

  lemma LoadsOk<O>(modules: map<string, string>, load: string -> Result<O, PyError>, names: seq<string>)
    requires Elems(names) == modules.Keys
    ensures AllOk(Loads(modules, load, names)).Success? <==> forall k :: k in modules ==> load(modules[k]).Success?
  {
    var rs := Loads(modules, load, names);
    if forall i :: 0 <= i < |rs| ==> rs[i].Success? {
      forall k | k in modules ensures load(modules[k]).Success? {
        var i :| 0 <= i < |names| && names[i] == k;
        assert rs[i].Success?;
      }
    }
  }

  lemma LoadsFail<O>(modules: map<string, string>, load: string -> Result<O, PyError>, names: seq<string>)
    requires Elems(names) == modules.Keys
    ensures AllOk(Loads(modules, load, names)).Failure? ==>
              exists k :: k in modules && load(modules[k]) == Failure(AllOk(Loads(modules, load, names)).error)
  {
    var rs := Loads(modules, load, names);
    if AllOk(rs).Failure? {
      var i :| 0 <= i < |rs| && rs[i] == Failure(AllOk(rs).error);
      assert names[i] in Elems(names);
    }
  }

  lemma LoadsValues<O>(modules: map<string, string>, load: string -> Result<O, PyError>, names: seq<string>)
    requires Elems(names) == modules.Keys && Distinct(names) && |names| == |modules|
    requires AllOk(Loads(modules, load, names)).Success?
    ensures |AllOk(Loads(modules, load, names)).value| == |modules|
    ensures forall x :: x in AllOk(Loads(modules, load, names)).value <==> exists k :: k in modules && load(modules[k]) == Success(x)
  {
    var rs := Loads(modules, load, names);
    var v := AllOk(rs).value;
    forall x ensures x in v <==> exists k :: k in modules && load(modules[k]) == Success(x) {
      if x in v {
        var i :| 0 <= i < |v| && v[i] == x;
        assert names[i] in Elems(names);
        assert load(modules[names[i]]) == Success(x);
      }
      if exists k :: k in modules && load(modules[k]) == Success(x) {
        var k :| k in modules && load(modules[k]) == Success(x);
        var i :| 0 <= i < |names| && names[i] == k;
        assert rs[i] == Success(x);
      }
    }
  }

  /** `load_blob` as `load_ast_results` calls it, as written. */
  function BlobLoaderAsWritten<O>(fs: Fs, cfg: Config, root: Path, codec: Codec<O>): string -> Result<O, PyError> {
    d => LoadBlobAsWritten(fs, cfg, root, codec, d)
  }

  /** `load_blob` as `load_ast_results` calls it, with the store's default directory. */
  function BlobLoader<O>(fs: Fs, cfg: Config, root: Path, codec: Codec<O>): string -> Result<O, PyError> {
    d => LoadBlob(fs, cfg, root, codec, d)
  }

  /** `load_ast_results(repo_root)` as written. */
  ghost function LoadAstResultsAsWritten<O>(fs: Fs, cfg: Config, root: Path, codec: Codec<O>): Result<seq<O>, PyError> {
    var modules :- LoadManifestAsWritten(fs, cfg, root);
    LoadEach(modules, BlobLoaderAsWritten(fs, cfg, root, codec))
  }

  /** `load_ast_results(repo_root)` with the store's default directories. */
  ghost function LoadAstResults<O>(fs: Fs, cfg: Config, root: Path, codec: Codec<O>): Result<seq<O>, PyError> {
    var modules :- LoadManifest(fs, cfg, root);
    LoadEach(modules, BlobLoader(fs, cfg, root, codec))
  }

  /** Two loaders that agree on every digest load a manifest alike. */
  lemma LoadEachAgree<O>(modules: map<string, string>, l1: string -> Result<O, PyError>, l2: string -> Result<O, PyError>)
    requires forall d :: l1(d) == l2(d)
    ensures LoadEach(modules, l1) == LoadEach(modules, l2)
  {
    EnumerateSpec(modules.Keys);
    assert Loads(modules, l1, Enumerate(modules.Keys)) == Loads(modules, l2, Enumerate(modules.Keys));
  }

  /** With both directories configured, the retriever as written and the one with defaults agree. */
  lemma LoadAsWrittenAgrees<O>(fs: Fs, cfg: Config, root: Path, codec: Codec<O>)
    requires cfg.storage.Some? && cfg.storage.value.objectsDir.Some? && cfg.storage.value.manifestsDir.Some?
    ensures LoadManifestAsWritten(fs, cfg, root) == LoadManifest(fs, cfg, root)
    ensures LoadAstResultsAsWritten(fs, cfg, root, codec) == LoadAstResults(fs, cfg, root, codec)
  {
    if LoadManifest(fs, cfg, root).Success? {
      LoadEachAgree(LoadManifest(fs, cfg, root).value, BlobLoaderAsWritten(fs, cfg, root, codec), BlobLoader(fs, cfg, root, codec));
    }
  }

  // ---------------------------------------------------------------------------
  // Store, then load

  /** The blob of the last entry of a name loads as that entry's object. */
  lemma LastLoads<O>(codec: Codec<O>, fs: Fs, cfg: Config, root: Path, entries: seq<(string, O)>, known: set<Bytes>, j: int)
    requires 0 <= j < |entries| && BlobPath(ObjectsDir(cfg, root), DigestOf(codec, entries[j].1)) in fs.files
    requires Addressed(codec, fs, ObjectsDir(cfg, root))
    requires Stored(fs) <= known && Serialized(codec, entries) <= known && Injective(known, codec.digest)
    requires codec.parse(codec.serialize(entries[j].1)) == Some(entries[j].1)
    ensures BlobLoader(fs, cfg, root, codec)(DigestOf(codec, entries[j].1)) == Success(entries[j].1)
  {
    assert codec.serialize(entries[j].1) in Serialized(codec, entries);
    ReadBlobStored(codec, fs, ObjectsDir(cfg, root), entries[j].1, known);
  }

  /**
   * Loading after a commit: when the recorded commit's manifest maps the
   * entries' names to the digests of their last entries, and those blobs
   * are in a content-addressed store whose data the digest tells apart,
   * the results loaded are the last entry of each name, one per name.
   */
  lemma LoadCommitted<O>(codec: Codec<O>, fs: Fs, cfg: Config, root: Path, entries: seq<(string, O)>, m: map<string, string>, known: set<Bytes>)
    requires RecordedCommit(cfg).Success?
    requires ManifestPath(ManifestsDir(cfg, root), RecordedCommit(cfg).value) in fs.files
    requires fs.files[ManifestPath(ManifestsDir(cfg, root), RecordedCommit(cfg).value)] == ManifestJson(Some(m))
    requires m.Keys == Names(entries)
    requires forall i :: 0 <= i < |entries| && LastNamed(entries, i) ==>
               entries[i].0 in m && m[entries[i].0] == DigestOf(codec, entries[i].1) &&
               BlobPath(ObjectsDir(cfg, root), DigestOf(codec, entries[i].1)) in fs.files
    requires Addressed(codec, fs, ObjectsDir(cfg, root))
    requires Stored(fs) <= known && Serialized(codec, entries) <= known && Injective(known, codec.digest)
    requires forall i :: 0 <= i < |entries| ==> codec.parse(codec.serialize(entries[i].1)) == Some(entries[i].1)
    ensures LoadAstResults(fs, cfg, root, codec).Success?
    ensures |LoadAstResults(fs, cfg, root, codec).value| == |Names(entries)|
    ensures forall x :: x in LoadAstResults(fs, cfg, root, codec).value <==>
              exists i :: 0 <= i < |entries| && LastNamed(entries, i) && x == entries[i].1
  {
    var load := BlobLoader(fs, cfg, root, codec);
    assert LoadManifest(fs, cfg, root) == Success(m);
    LoadEachSpec(m, load);
    forall k | k in m
      ensures exists j :: 0 <= j < |entries| && LastNamed(entries, j) && entries[j].0 == k && load(m[k]) == Success(entries[j].1)
    {
      var i :| 0 <= i < |entries| && entries[i].0 == k;
      LastOfName(entries, i);
      var j :| i <= j < |entries| && entries[j].0 == k && LastNamed(entries, j);
      LastLoads(codec, fs, cfg, root, entries, known, j);
    }
    forall j | 0 <= j < |entries| && LastNamed(entries, j)
      ensures load(m[entries[j].0]) == Success(entries[j].1)
    {
      LastLoads(codec, fs, cfg, root, entries, known, j);
    }
  }

  /**
   * `store_ast_results` followed by `load_ast_results`: the results come
   * back, one per module name, each the last result stored under that
   * name (`entries` pairs each result with its name). Trimming is off or
   * the new manifest is newer than every other one, the commit is
   * non-empty, the store was content-addressed, the digest tells the data
   * apart, and parsing a serialisation gives the object back.
   */
  lemma StoreThenLoad<O>(codec: Codec<O>, fs: Fs, cfg: Config, root: Path, results: seq<O>, commit: string, branch: string, mtime: Path -> int,
                         entries: seq<(string, O)>, after: Fs, cfg': Config)
    requires Store(codec, fs, cfg, root, results, commit, branch, mtime) == Success((after, cfg'))
    requires NameAll(codec, root, results) == Success(entries)
    requires (KeepCount(cfg).None? || WrittenLast(fs, cfg, root, commit, mtime)) && commit != ""
    requires Addressed(codec, fs, ObjectsDir(cfg, root))
    requires Injective(Stored(fs) + Serialized(codec, entries), codec.digest)
    requires forall i :: 0 <= i < |results| ==> codec.parse(codec.serialize(results[i])) == Some(results[i])
    ensures LoadAstResults(after, cfg', root, codec).Success?
    ensures |LoadAstResults(after, cfg', root, codec).value| == |Names(entries)|
    ensures forall x :: x in LoadAstResults(after, cfg', root, codec).value <==>
              exists i :: 0 <= i < |results| && LastNamed(entries, i) && x == results[i]
  {
    StoreLeaves(codec, fs, cfg, root, results, commit, branch, mtime, entries, after, cfg');
    WrittenManifest(codec, fs, cfg, root, entries);
    LoadCommittedResults(codec, after, cfg', root, results, entries, Written(codec, fs, cfg, root, entries).1, Stored(fs) + Serialized(codec, entries));
  }

  /** What a store leaves when its manifest survives the trim, in the terms the retriever reads it by. */
  lemma StoreLeaves<O>(codec: Codec<O>, fs: Fs, cfg: Config, root: Path, results: seq<O>, commit: string, branch: string, mtime: Path -> int,
                       entries: seq<(string, O)>, after: Fs, cfg': Config)
    requires Store(codec, fs, cfg, root, results, commit, branch, mtime) == Success((after, cfg'))
    requires NameAll(codec, root, results) == Success(entries)
    requires (KeepCount(cfg).None? || WrittenLast(fs, cfg, root, commit, mtime)) && commit != ""
    requires Addressed(codec, fs, ObjectsDir(cfg, root))
    ensures |entries| == |results| && forall i :: 0 <= i < |results| ==> entries[i].1 == results[i]
    ensures RecordedCommit(cfg') == Success(commit)
    ensures ManifestsDir(cfg', root) == ManifestsDir(cfg, root) && ObjectsDir(cfg', root) == ObjectsDir(cfg, root)
    ensures ManifestPath(ManifestsDir(cfg, root), commit) in after.files
    ensures after.files[ManifestPath(ManifestsDir(cfg, root), commit)] == ManifestJson(Some(Written(codec, fs, cfg, root, entries).1))
    ensures forall i :: 0 <= i < |entries| && LastNamed(entries, i) ==> BlobPath(ObjectsDir(cfg, root), DigestOf(codec, entries[i].1)) in after.files
    ensures Addressed(codec, after, ObjectsDir(cfg, root))
    ensures Stored(after) <= Stored(fs) + Serialized(codec, entries)
  {
    StoreSucceeds(codec, fs, cfg, root, results, commit, branch, mtime);
    if KeepCount(cfg).None? {
      StoreOutcome(codec, fs, cfg, root, results, commit, branch, mtime);
    } else {
      StoreOutcomeTrimmed(codec, fs, cfg, root, results, commit, branch, mtime);
    }
  }

  /** `LoadCommitted` stated over the results the entries name. */
  lemma LoadCommittedResults<O>(codec: Codec<O>, fs: Fs, cfg: Config, root: Path, results: seq<O>, entries: seq<(string, O)>,
                                m: map<string, string>, known: set<Bytes>)
    requires |entries| == |results| && forall i :: 0 <= i < |results| ==> entries[i].1 == results[i]
    requires RecordedCommit(cfg).Success?
    requires ManifestPath(ManifestsDir(cfg, root), RecordedCommit(cfg).value) in fs.files
    requires fs.files[ManifestPath(ManifestsDir(cfg, root), RecordedCommit(cfg).value)] == ManifestJson(Some(m))
    requires m.Keys == Names(entries)
    requires forall i :: 0 <= i < |entries| && LastNamed(entries, i) ==>
               entries[i].0 in m && m[entries[i].0] == DigestOf(codec, entries[i].1) &&
               BlobPath(ObjectsDir(cfg, root), DigestOf(codec, entries[i].1)) in fs.files
    requires Addressed(codec, fs, ObjectsDir(cfg, root))
    requires Stored(fs) <= known && Serialized(codec, entries) <= known && Injective(known, codec.digest)
    requires forall i :: 0 <= i < |results| ==> codec.parse(codec.serialize(results[i])) == Some(results[i])
    ensures LoadAstResults(fs, cfg, root, codec).Success?
    ensures |LoadAstResults(fs, cfg, root, codec).value| == |Names(entries)|
    ensures forall x :: x in LoadAstResults(fs, cfg, root, codec).value <==>
              exists i :: 0 <= i < |results| && LastNamed(entries, i) && x == results[i]
  {
    LoadCommitted(codec, fs, cfg, root, entries, m, known);
  }

  // ---------------------------------------------------------------------------
  // A configuration without a "storage" section

  /** The configuration `init_repo` writes: no commit yet, and no "storage" or "housekeeping" section. */
  function InitialConfig(): (cfg: Config)
    ensures cfg.storage.None? && KeepCount(cfg).None? && !PruneOn(cfg)
  {
    Config(Some(RepoCfg(None, None)), None, None)
  }

  /**
   * Without a "storage" section the retriever as written fails with
   * `KeyError('storage')` before it looks at the commit or any file; with
   * the store's defaults it reports the missing commit instead.
   */
  lemma NoStorageSection<O>(fs: Fs, cfg: Config, root: Path, codec: Codec<O>)
    requires cfg.storage.None?
    ensures LoadManifestAsWritten(fs, cfg, root) == Failure(KeyError("storage"))
    ensures LoadAstResultsAsWritten(fs, cfg, root, codec) == Failure(KeyError("storage"))
    ensures RecordedCommit(cfg).Failure? ==> LoadAstResults(fs, cfg, root, codec) == Failure(ValueError(NoCommitMessage))
  {
  }

  /**
   * A repository as `init_repo` leaves it: after `store_ast_results` the
   * retriever as written cannot load anything, since the store kept the
   * configuration without a "storage" section, while with the store's
   * defaults every stored result comes back.
   */
  lemma InitialStoreThenLoad<O>(codec: Codec<O>, fs: Fs, root: Path, results: seq<O>, commit: string, branch: string, mtime: Path -> int,
                                entries: seq<(string, O)>, after: Fs, cfg': Config)
    requires Store(codec, fs, InitialConfig(), root, results, commit, branch, mtime) == Success((after, cfg')) && commit != ""
    requires NameAll(codec, root, results) == Success(entries)
    requires Addressed(codec, fs, ObjectsDir(InitialConfig(), root))
    requires Injective(Stored(fs) + Serialized(codec, entries), codec.digest)
    requires forall i :: 0 <= i < |results| ==> codec.parse(codec.serialize(results[i])) == Some(results[i])
    ensures LoadAstResultsAsWritten(after, cfg', root, codec) == Failure(KeyError("storage"))
    ensures LoadAstResults(after, cfg', root, codec).Success?
    ensures forall i :: 0 <= i < |results| && LastNamed(entries, i) ==> results[i] in LoadAstResults(after, cfg', root, codec).value
  {
    StoreSucceeds(codec, fs, InitialConfig(), root, results, commit, branch, mtime);
    NoStorageSection(after, cfg', root, codec);
    StoreThenLoad(codec, fs, InitialConfig(), root, results, commit, branch, mtime, entries, after, cfg');
  }
}
