/**
 * `mlgit.core.storage`: the content-addressed object store under
 * `objects_dir`, the per-commit manifests under `manifests_dir`, and the
 * housekeeping that prunes blobs and trims manifests.
 *
 * The file system is a map from paths to contents plus a set of
 * directories. gzip and the JSON text of a manifest are constructors of
 * `Content`, so what is decompressed or parsed is what was written; the
 * canonical serialisation of a module object, its parser and SHA-256 are
 * the fields of a `Codec`.
 */
module Storage {
  import opened Wrappers
  import opened Strings
  import opened Paths
  import opened Sets
  import opened Seqs

  type Bytes = seq<bv8>

  /** What a file holds, as far as the store can tell. */
  datatype Content =
    | Gzipped(data: Bytes)                                // a gzip stream of `data`
    | ManifestJson(modules: Option<map<string, string>>)  // a JSON object, with or without a "modules" mapping
    | Unreadable                                          // anything else: not gzip, not such a JSON object

  datatype Fs = Fs(files: map<Path, Content>, dirs: set<Path>)

  /**
   * The collaborators a module object meets on its way into the store:
   * `module_obj.get("module", "")`, whether `json.dumps` accepts the object
   * (it raises TypeError on bytes, complex numbers, Ellipsis and other values
   * JSON has no form for), the canonical `json.dumps(...).encode()` of one it
   * accepts, `json.load` of that text (`None` when it does not parse) and the
   * SHA-256 hex digest.
   */
  datatype Codec<!O> = Codec(moduleOf: O -> string, serializable: O -> bool, serialize: O -> Bytes, parse: Bytes -> Option<O>, digest: Bytes -> string)

  /** `p.mkdir(parents=True, exist_ok=True)`: `p` and each of its ancestors is a directory afterwards. */
  function MkDirs(fs: Fs, p: Path): (r: Fs)
    ensures r.files == fs.files && fs.dirs <= r.dirs && p in r.dirs
  {
    assert p == p[..|p|];
    fs.(dirs := fs.dirs + set k | 0 <= k <= |p| :: p[..k])
  }

  // ---------------------------------------------------------------------------
  // Layout

  const BlobSuffix: string := ".json.gz"

  /** A blob as `prune_unreferenced` finds it: `objects_dir/<two characters>/<tail>.json.gz`. */
  predicate InShard(objects: Path, p: Path) {
    |p| == |objects| + 2 && p[..|objects|] == objects && |p[|objects|]| == 2 && EndsWith(p[|objects| + 1], BlobSuffix)
  }

  /** `prefix.name + hex_tail`: the digest a blob path spells. */
  function ShardDigest(objects: Path, p: Path): string
    requires |p| == |objects| + 2 && EndsWith(p[|objects| + 1], BlobSuffix)
  {
    p[|objects|] + p[|objects| + 1][..|p[|objects| + 1]| - |BlobSuffix|]
  }

  /** `objects_dir / digest[:2] / f"{digest[2:]}.json.gz"`. */
  function BlobPath(objects: Path, digest: string): Path {
    objects + [Take(digest, 2), Drop(digest, 2) + BlobSuffix]
  }

  /** The blob path of a digest spells the digest back, and lies in a two-character shard exactly when the digest has two characters. */
  lemma BlobPathLayout(objects: Path, digest: string)
    ensures |BlobPath(objects, digest)| == |objects| + 2 && BlobPath(objects, digest)[..|objects|] == objects
    ensures EndsWith(BlobPath(objects, digest)[|objects| + 1], BlobSuffix)
    ensures ShardDigest(objects, BlobPath(objects, digest)) == digest
    ensures InShard(objects, BlobPath(objects, digest)) <==> |digest| >= 2
  {
    var p := BlobPath(objects, digest);
    assert p[|objects|] == Take(digest, 2) && p[|objects| + 1] == Drop(digest, 2) + BlobSuffix;
    assert p[|objects| + 1][..|p[|objects| + 1]| - |BlobSuffix|] == Drop(digest, 2);
  }

  /** Different digests have different blob paths. */
  lemma BlobPathInjective(objects: Path, d1: string, d2: string)
    requires BlobPath(objects, d1) == BlobPath(objects, d2)
    ensures d1 == d2
  {
    BlobPathLayout(objects, d1);
    BlobPathLayout(objects, d2);
  }

  /** A manifest as the globs find it: `manifests_dir/<name>.json`. */
  predicate IsManifestFile(manifests: Path, p: Path) {
    |p| == |manifests| + 1 && p[..|manifests|] == manifests && EndsWith(p[|manifests|], ".json")
  }

  /** `manifests_dir / f"{commit}.json"`, the commit id being one path component. */
  function ManifestPath(manifests: Path, commit: string): (p: Path)
    ensures IsManifestFile(manifests, p)
  {
    var p := manifests + [commit + ".json"];
    assert p[|manifests|] == commit + ".json";
    p
  }

  /** The last character of a name ending in `sfx` is the last character of `sfx`. */
  lemma EndsWithLast(n: string, sfx: string)
    ensures EndsWith(n, sfx) && |sfx| > 0 ==> n[|n| - 1] == sfx[|sfx| - 1]
  {
    if EndsWith(n, sfx) && |sfx| > 0 {
      assert n[|n| - |sfx|..][|sfx| - 1] == n[|n| - 1];
    }
  }

  /** A blob path is never a manifest path. */
  lemma BlobIsNotManifest(objects: Path, manifests: Path, digest: string, commit: string)
    ensures BlobPath(objects, digest) != ManifestPath(manifests, commit)
  {
    BlobPathLayout(objects, digest);
    var b := BlobPath(objects, digest);
    var m := ManifestPath(manifests, commit);
    EndsWithLast(b[|b| - 1], BlobSuffix);
    EndsWithLast(m[|m| - 1], ".json");
  }

  /** No name ends in both ".json" and ".json.gz": a manifest is never a blob. */
  lemma ManifestIsNotBlob(objects: Path, manifests: Path, p: Path)
    requires IsManifestFile(manifests, p)
    ensures !InShard(objects, p)
  {
    EndsWithLast(p[|p| - 1], ".json");
    EndsWithLast(p[|p| - 1], BlobSuffix);
  }

  // ---------------------------------------------------------------------------
  // Writing

  /** `write_blob(digest, data, objects_dir)`: create the shard directory, then write unless the blob exists. */
  function WriteBlob(fs: Fs, objects: Path, digest: string, data: Bytes): (r: Fs)
    ensures r.dirs == MkDirs(fs, objects + [Take(digest, 2)]).dirs
    ensures r.files.Keys == fs.files.Keys + {BlobPath(objects, digest)}
    ensures BlobPath(objects, digest) !in fs.files ==> r.files[BlobPath(objects, digest)] == Gzipped(data)
  {
    var fs' := MkDirs(fs, objects + [Take(digest, 2)]);
    if BlobPath(objects, digest) in fs'.files then fs'
    else fs'.(files := fs'.files[BlobPath(objects, digest) := Gzipped(data)])
  }

  /** A blob write never changes a file that exists. */
  lemma WriteBlobKeeps(fs: Fs, objects: Path, digest: string, data: Bytes)
    ensures forall p :: p in fs.files ==> WriteBlob(fs, objects, digest, data).files[p] == fs.files[p]
  {
  }

  /** Writing a digest a second time, whatever the data, leaves the store as the first write left it. */
  lemma WriteBlobTwice(fs: Fs, objects: Path, digest: string, data: Bytes, other: Bytes)
    ensures WriteBlob(WriteBlob(fs, objects, digest, data), objects, digest, other) == WriteBlob(fs, objects, digest, data)
  {
    var once := WriteBlob(fs, objects, digest, data);
    var twice := WriteBlob(once, objects, digest, other);
    assert twice.files == once.files;
    assert twice.dirs == once.dirs by {
      forall q ensures q in twice.dirs <==> q in once.dirs {
      }
    }
  }

  /** `write_manifest(commit, modules_map, manifests_dir)`: the commit's file becomes exactly `{"modules": modules_map}`. */
  function WriteManifest(fs: Fs, manifests: Path, commit: string, modules: map<string, string>): (r: Fs)
    ensures r.dirs == fs.dirs
    ensures r.files.Keys == fs.files.Keys + {ManifestPath(manifests, commit)}
    ensures r.files[ManifestPath(manifests, commit)] == ManifestJson(Some(modules))
    ensures forall p :: p in fs.files && p != ManifestPath(manifests, commit) ==> r.files[p] == fs.files[p]
  {
    fs.(files := fs.files[ManifestPath(manifests, commit) := ManifestJson(Some(modules))])
  }

  /** A second manifest for the same commit replaces the first outright: nothing of the first survives. */
  lemma WriteManifestReplaces(fs: Fs, manifests: Path, commit: string, first: map<string, string>, second: map<string, string>)
    ensures WriteManifest(WriteManifest(fs, manifests, commit, first), manifests, commit, second) == WriteManifest(fs, manifests, commit, second)
  {
    MapExt(WriteManifest(WriteManifest(fs, manifests, commit, first), manifests, commit, second).files,
           WriteManifest(fs, manifests, commit, second).files);
  }

  // ---------------------------------------------------------------------------
  // Pruning

  /** The digests a manifest file contributes: `.get("modules", {}).values()`, nothing when it does not parse. */
  function Digests(c: Content): set<string> {
    match c
    case ManifestJson(Some(m)) => m.Values
    case _ => {}
  }

  /** The digests named by the manifests of `manifests_dir`, collected before anything is deleted. */
  function Referenced(fs: Fs, manifests: Path): set<string> {
    set p, d | p in fs.files && IsManifestFile(manifests, p) && d in Digests(fs.files[p]) :: d
  }

  /** The blobs of two-character shard directories whose digest is not in `refs`. */
  function Unreferenced(fs: Fs, objects: Path, refs: set<string>): set<Path> {
    set p | p in fs.files && InShard(objects, p) && ShardDigest(objects, p) !in refs
  }

  /** A two-character directory directly under `objects_dir`. */
  predicate IsShardDir(objects: Path, q: Path) {
    |q| == |objects| + 1 && q[..|objects|] == objects && |q[|objects|]| == 2
  }

  predicate ChildOf(p: Path, q: Path) {
    |p| == |q| + 1 && p[..|q|] == q
  }

  /** `any(prefix.iterdir())`. */
  predicate HasEntries(files: map<Path, Content>, dirs: set<Path>, q: Path) {
    (exists p :: p in files && ChildOf(p, q)) || (exists d :: d in dirs && ChildOf(d, q))
  }

  function EmptyShards(files: map<Path, Content>, dirs: set<Path>, objects: Path): set<Path> {
    set q | q in dirs && IsShardDir(objects, q) && !HasEntries(files, dirs, q)
  }

  /**
   * `prune_unreferenced(objects_dir, manifests_dir)`: delete every shard
   * blob no manifest names, then every shard directory left empty.
   * Listing a missing `objects_dir` raises.
   */
  function Prune(fs: Fs, objects: Path, manifests: Path): (r: Result<Fs, PyError>)
    ensures r.Success? <==> objects in fs.dirs
  {
    if objects !in fs.dirs then Failure(FileNotFoundError(objects))
    else
      var files := fs.files - Unreferenced(fs, objects, Referenced(fs, manifests));
      Success(Fs(files, fs.dirs - EmptyShards(files, fs.dirs, objects)))
  }

  /** Pruning deletes exactly the unreferenced shard blobs, adds nothing and changes no content. */
  lemma PruneFiles(fs: Fs, objects: Path, manifests: Path)
    requires objects in fs.dirs
    ensures forall p :: p in fs.files ==>
              (p in Prune(fs, objects, manifests).value.files <==> !(InShard(objects, p) && ShardDigest(objects, p) !in Referenced(fs, manifests)))
    ensures forall p :: p in Prune(fs, objects, manifests).value.files ==>
              p in fs.files && Prune(fs, objects, manifests).value.files[p] == fs.files[p]
  {
  }

  /** Manifests are never blobs, so pruning keeps every manifest and the referenced set with them. */
  lemma PruneKeepsManifests(fs: Fs, objects: Path, manifests: Path)
    requires objects in fs.dirs
    ensures forall p :: p in fs.files && IsManifestFile(manifests, p) ==>
              p in Prune(fs, objects, manifests).value.files && Prune(fs, objects, manifests).value.files[p] == fs.files[p]
    ensures Referenced(Prune(fs, objects, manifests).value, manifests) == Referenced(fs, manifests)
  {
    var r := Prune(fs, objects, manifests).value;
    forall p | p in fs.files && IsManifestFile(manifests, p)
      ensures p in r.files && r.files[p] == fs.files[p]
    {
      ManifestIsNotBlob(objects, manifests, p);
    }
    assert Referenced(r, manifests) == Referenced(fs, manifests);
  }

  /** Every blob a manifest names survives pruning. */
  lemma PruneKeepsReferenced(fs: Fs, objects: Path, manifests: Path, d: string)
    requires objects in fs.dirs
    requires d in Referenced(fs, manifests) && BlobPath(objects, d) in fs.files
    ensures BlobPath(objects, d) in Prune(fs, objects, manifests).value.files
    ensures Prune(fs, objects, manifests).value.files[BlobPath(objects, d)] == fs.files[BlobPath(objects, d)]
  {
    BlobPathLayout(objects, d);
    PruneFiles(fs, objects, manifests);
  }

  /** After pruning, every blob left in a two-character shard directory is named by a manifest left in place. */
  lemma PruneLeavesOnlyReferenced(fs: Fs, objects: Path, manifests: Path)
    requires objects in fs.dirs
    ensures forall p :: p in Prune(fs, objects, manifests).value.files && InShard(objects, p) ==>
              ShardDigest(objects, p) in Referenced(Prune(fs, objects, manifests).value, manifests)
  {
    PruneKeepsManifests(fs, objects, manifests);
  }

  /** Pruning removes only empty shard directories, and no shard directory it leaves is empty. */
  lemma PruneDirs(fs: Fs, objects: Path, manifests: Path)
    requires objects in fs.dirs
    ensures forall q :: q in fs.dirs && q !in Prune(fs, objects, manifests).value.dirs ==> IsShardDir(objects, q)
    ensures Prune(fs, objects, manifests).value.dirs <= fs.dirs
    ensures forall q :: q in Prune(fs, objects, manifests).value.dirs && IsShardDir(objects, q) ==>
              HasEntries(Prune(fs, objects, manifests).value.files, fs.dirs, q)
  {
  }

  /** Pruning a pruned store changes nothing. */
  lemma {:induction false} PruneIdempotent(fs: Fs, objects: Path, manifests: Path)
    requires objects in fs.dirs
    ensures objects in Prune(fs, objects, manifests).value.dirs
    ensures Prune(Prune(fs, objects, manifests).value, objects, manifests) == Prune(fs, objects, manifests)
  {
    var r := Prune(fs, objects, manifests).value;
    assert !IsShardDir(objects, objects);
    PruneKeepsManifests(fs, objects, manifests);
    PruneLeavesOnlyReferenced(fs, objects, manifests);
    PruneDirs(fs, objects, manifests);
    assert Unreferenced(r, objects, Referenced(r, manifests)) == {};
    assert r.files - Unreferenced(r, objects, Referenced(r, manifests)) == r.files;
    forall q | q in r.dirs && IsShardDir(objects, q)
      ensures HasEntries(r.files, r.dirs, q)
    {
      assert HasEntries(r.files, fs.dirs, q);
      if d :| d in fs.dirs && ChildOf(d, q) {
        assert d !in EmptyShards(r.files, fs.dirs, objects) by {
          assert !IsShardDir(objects, d);
        }
      }
    }
    assert EmptyShards(r.files, r.dirs, objects) == {};
    assert r.dirs - EmptyShards(r.files, r.dirs, objects) == r.dirs;
    assert Prune(r, objects, manifests) == Success(Fs(r.files, r.dirs));
  }

  // ---------------------------------------------------------------------------
  // Trimming

  function ManifestFiles(fs: Fs, manifests: Path): set<Path> {
    set p | p in fs.files && IsManifestFile(manifests, p)
  }

  /** The modification times of `ms`, as the sort key reads them. */
  function Stamps(ms: set<Path>, mtime: Path -> int): (m: map<Path, int>)
    ensures m.Keys == ms
    ensures forall p :: p in m ==> m[p] == mtime(p)
  {
    map p | p in ms :: mtime(p)
  }

  /** `sorted(..., key=mtime, reverse=True)`: newest first, equal times in no particular order. */
  ghost function NewestFirst(ms: set<Path>, mtime: Path -> int): seq<Path>
    decreases |ms|
  {
    if ms == {} then []
    else
      var m := MaxOf(ms, Stamps(ms, mtime));
      [m] + NewestFirst(ms - {m}, mtime)
  }

  /** The newest manifest, then the others newest first. */
  lemma NewestFirstCons(ms: set<Path>, mtime: Path -> int)
    requires ms != {}
    ensures NewestFirst(ms, mtime) == [MaxOf(ms, Stamps(ms, mtime))] + NewestFirst(ms - {MaxOf(ms, Stamps(ms, mtime))}, mtime)
    ensures forall p :: p in ms ==> mtime(p) <= mtime(MaxOf(ms, Stamps(ms, mtime)))
  {
  }

  /** The sorted list holds every manifest. */
  lemma {:induction false} NewestFirstElems(ms: set<Path>, mtime: Path -> int)
    ensures Elems(NewestFirst(ms, mtime)) == ms && |NewestFirst(ms, mtime)| == |ms|
    decreases |ms|
  {
    if ms != {} {
      var m := MaxOf(ms, Stamps(ms, mtime));
      NewestFirstCons(ms, mtime);
      NewestFirstElems(ms - {m}, mtime);
      ElemsCons(m, NewestFirst(ms - {m}, mtime));
    }
  }

  /** The sorted list holds no manifest twice. */
  lemma {:induction false} NewestFirstDistinct(ms: set<Path>, mtime: Path -> int)
    ensures Distinct(NewestFirst(ms, mtime))
    decreases |ms|
  {
    if ms != {} {
      var m := MaxOf(ms, Stamps(ms, mtime));
      NewestFirstCons(ms, mtime);
      NewestFirstElems(ms - {m}, mtime);
      NewestFirstDistinct(ms - {m}, mtime);
      DistinctCons(m, NewestFirst(ms - {m}, mtime));
    }
  }

  /** The sorted list is newest first. */
  lemma {:induction false} NewestFirstSorted(ms: set<Path>, mtime: Path -> int)
    ensures forall i, j :: 0 <= i < j < |NewestFirst(ms, mtime)| ==> mtime(NewestFirst(ms, mtime)[j]) <= mtime(NewestFirst(ms, mtime)[i])
    decreases |ms|
  {
    if ms != {} {
      var m := MaxOf(ms, Stamps(ms, mtime));
      var rest := NewestFirst(ms - {m}, mtime);
      NewestFirstSorted(ms - {m}, mtime);
      NewestFirstElems(ms - {m}, mtime);
      assert NewestFirst(ms, mtime) == [m] + rest;
      forall i, j | 0 <= i < j < |[m] + rest| ensures mtime(([m] + rest)[j]) <= mtime(([m] + rest)[i]) {
        if i == 0 {
          assert rest[j - 1] in Elems(rest);
        }
      }
    }
  }

  /** Where Python's `files[keep:]` starts in a list of `n` elements, `keep` counting from the end when negative. */
  function SliceStart(n: nat, keep: int): (k: nat)
    ensures k <= n
    ensures keep >= 0 ==> k == if keep <= n then keep else n
    ensures keep < 0 ==> k == if -keep <= n then n + keep else 0
  {
    if keep >= 0 then (if keep <= n then keep else n)
    else if n + keep >= 0 then n + keep else 0
  }

  /** The manifests `files[keep:]` names. */
  ghost function Doomed(fs: Fs, manifests: Path, keep: int, mtime: Path -> int): set<Path> {
    var order := NewestFirst(ManifestFiles(fs, manifests), mtime);
    Elems(order[SliceStart(|order|, keep)..])
  }

  /** `trim_manifests(manifests_dir, keep)`: delete the manifests after the first `keep` of the newest-first list. */
  ghost function Trim(fs: Fs, manifests: Path, keep: int, mtime: Path -> int): Fs {
    fs.(files := fs.files - Doomed(fs, manifests, keep, mtime))
  }

  /** Trimming deletes exactly the manifests of `Doomed`. */
  lemma TrimFiles(fs: Fs, manifests: Path, keep: int, mtime: Path -> int)
    ensures Trim(fs, manifests, keep, mtime).dirs == fs.dirs
    ensures forall p :: p in Trim(fs, manifests, keep, mtime).files <==> p in fs.files && p !in Doomed(fs, manifests, keep, mtime)
    ensures forall p :: p in Trim(fs, manifests, keep, mtime).files ==> Trim(fs, manifests, keep, mtime).files[p] == fs.files[p]
    ensures ManifestFiles(Trim(fs, manifests, keep, mtime), manifests) == ManifestFiles(fs, manifests) - Doomed(fs, manifests, keep, mtime)
  {
  }

  /** The doomed manifests are the newest-first list from `SliceStart` on. */
  lemma DoomedSlice(fs: Fs, manifests: Path, keep: int, mtime: Path -> int)
    ensures Doomed(fs, manifests, keep, mtime) ==
              Elems(NewestFirst(ManifestFiles(fs, manifests), mtime)[SliceStart(|NewestFirst(ManifestFiles(fs, manifests), mtime)|, keep)..])
  {
  }

  /** Trimming deletes manifests only, and changes no content. */
  lemma TrimOnlyManifests(fs: Fs, manifests: Path, keep: int, mtime: Path -> int)
    ensures Trim(fs, manifests, keep, mtime).dirs == fs.dirs
    ensures forall p :: p in Trim(fs, manifests, keep, mtime).files ==>
              p in fs.files && Trim(fs, manifests, keep, mtime).files[p] == fs.files[p]
    ensures forall p :: p in fs.files && !IsManifestFile(manifests, p) ==> p in Trim(fs, manifests, keep, mtime).files
  {
    var order := NewestFirst(ManifestFiles(fs, manifests), mtime);
    NewestFirstElems(ManifestFiles(fs, manifests), mtime);
    DoomedSlice(fs, manifests, keep, mtime);
    ElemsSlices(order, SliceStart(|order|, keep));
    TrimFiles(fs, manifests, keep, mtime);
  }

  /** The manifests trimming keeps are the first `SliceStart` of the newest-first list. */
  lemma TrimKept(fs: Fs, manifests: Path, keep: int, mtime: Path -> int)
    ensures ManifestFiles(Trim(fs, manifests, keep, mtime), manifests) ==
              Elems(NewestFirst(ManifestFiles(fs, manifests), mtime)[..SliceStart(|NewestFirst(ManifestFiles(fs, manifests), mtime)|, keep)])
  {
    var order := NewestFirst(ManifestFiles(fs, manifests), mtime);
    NewestFirstElems(ManifestFiles(fs, manifests), mtime);
    NewestFirstDistinct(ManifestFiles(fs, manifests), mtime);
    DoomedSlice(fs, manifests, keep, mtime);
    DistinctSplit(order, SliceStart(|order|, keep));
    TrimFiles(fs, manifests, keep, mtime);
  }

  /** The number of manifests left is `keep` (or all, when fewer), counted from the end for a negative `keep`. */
  lemma TrimCount(fs: Fs, manifests: Path, keep: int, mtime: Path -> int)
    ensures keep >= 0 ==> |ManifestFiles(Trim(fs, manifests, keep, mtime), manifests)| ==
                            if keep <= |ManifestFiles(fs, manifests)| then keep else |ManifestFiles(fs, manifests)|
    ensures keep < 0 ==> |ManifestFiles(Trim(fs, manifests, keep, mtime), manifests)| ==
                           if -keep <= |ManifestFiles(fs, manifests)| then |ManifestFiles(fs, manifests)| + keep else 0
  {
    var order := NewestFirst(ManifestFiles(fs, manifests), mtime);
    NewestFirstElems(ManifestFiles(fs, manifests), mtime);
    NewestFirstDistinct(ManifestFiles(fs, manifests), mtime);
    TrimKept(fs, manifests, keep, mtime);
    DistinctPrefix(order, SliceStart(|order|, keep));
    DistinctCard(order[..SliceStart(|order|, keep)]);
  }

  /** No manifest kept is older than a manifest deleted. */
  lemma TrimKeepsNewest(fs: Fs, manifests: Path, keep: int, mtime: Path -> int, p: Path, q: Path)
    requires p in ManifestFiles(Trim(fs, manifests, keep, mtime), manifests)
    requires q in ManifestFiles(fs, manifests) && q !in Trim(fs, manifests, keep, mtime).files
    ensures mtime(q) <= mtime(p)
  {
    var order := NewestFirst(ManifestFiles(fs, manifests), mtime);
    TrimFiles(fs, manifests, keep, mtime);
    DoomedSlice(fs, manifests, keep, mtime);
    TrimKept(fs, manifests, keep, mtime);
    NewestFirstSorted(ManifestFiles(fs, manifests), mtime);
    SortedSplit(order, SliceStart(|order|, keep), mtime, p, q);
  }

  /** In a newest-first list, what comes before position `k` is no older than what comes from `k` on. */
  lemma SortedSplit(order: seq<Path>, k: nat, mtime: Path -> int, p: Path, q: Path)
    requires k <= |order|
    requires forall i, j :: 0 <= i < j < |order| ==> mtime(order[j]) <= mtime(order[i])
    requires p in Elems(order[..k]) && q in Elems(order[k..])
    ensures mtime(q) <= mtime(p)
  {
    var i :| 0 <= i < k && order[..k][i] == p;
    var j :| 0 <= j < |order| - k && order[k..][j] == q;
    assert order[i] == p && order[k + j] == q;
  }

  /** With at most `keep` manifests, trimming deletes nothing. */
  lemma TrimNothingToDo(fs: Fs, manifests: Path, keep: int, mtime: Path -> int)
    requires |ManifestFiles(fs, manifests)| <= keep
    ensures Trim(fs, manifests, keep, mtime) == fs
  {
    NewestFirstElems(ManifestFiles(fs, manifests), mtime);
    assert Doomed(fs, manifests, keep, mtime) == {};
    MapExt(Trim(fs, manifests, keep, mtime).files, fs.files);
  }

  // ---------------------------------------------------------------------------
  // Configuration

  /** The JSON values a housekeeping setting can hold; `JOther` stands for floats, lists and objects. */
  datatype Json = JNull | JBool(b: bool) | JInt(i: int) | JStr(s: string) | JOther(nonEmpty: bool) {
    /** Python truthiness. */
    predicate Truthy() {
      match this
      case JNull => false
      case JBool(b) => b
      case JInt(i) => i != 0
      case JStr(s) => s != ""
      case JOther(nonEmpty) => nonEmpty
    }
  }

  datatype RepoCfg = RepoCfg(commit: Option<string>, branch: Option<string>)
  datatype StorageCfg = StorageCfg(objectsDir: Option<string>, manifestsDir: Option<string>)
  datatype Housekeeping = Housekeeping(prune: Option<Json>, keep: Option<Json>)

  /** The keys of `.mlgit/config.json` the store reads and writes; `None` is an absent key. */
  datatype Config = Config(repo: Option<RepoCfg>, storage: Option<StorageCfg>, housekeeping: Option<Housekeeping>)

  /** `repo_root / storage_cfg.get("objects_dir", ".mlgit/objects")`. */
  function ObjectsDir(cfg: Config, root: Path): Path {
    root + FromSlashed(if cfg.storage.Some? && cfg.storage.value.objectsDir.Some? then cfg.storage.value.objectsDir.value else ".mlgit/objects")
  }

  /** `repo_root / storage_cfg.get("manifests_dir", ".mlgit/manifests")`. */
  function ManifestsDir(cfg: Config, root: Path): Path {
    root + FromSlashed(if cfg.storage.Some? && cfg.storage.value.manifestsDir.Some? then cfg.storage.value.manifestsDir.value else ".mlgit/manifests")
  }

  /** `hk_cfg.get("prune_unreferenced", False)` is truthy. */
  predicate PruneOn(cfg: Config) {
    cfg.housekeeping.Some? && cfg.housekeeping.value.prune.Some? && cfg.housekeeping.value.prune.value.Truthy()
  }

  /**
   * `keep` when `isinstance(keep, int) and keep > 0`; `bool` is a subclass
   * of `int`, so `true` keeps one manifest.
   */
  function KeepCount(cfg: Config): (r: Option<int>)
    ensures r.Some? ==> r.value >= 1
    ensures r.Some? <==> cfg.housekeeping.Some? && cfg.housekeeping.value.keep.Some? &&
                         (cfg.housekeeping.value.keep.value == JBool(true) ||
                          (cfg.housekeeping.value.keep.value.JInt? && cfg.housekeeping.value.keep.value.i > 0))
  {
    if cfg.housekeeping.None? || cfg.housekeeping.value.keep.None? then None
    else match cfg.housekeeping.value.keep.value
      case JBool(b) => if b then Some(1) else None
      case JInt(i) => if i > 0 then Some(i) else None
      case _ => None
  }

  // ---------------------------------------------------------------------------
  // store_ast_results

  /** `".".join(Path(module).relative_to(repo_root).with_suffix("").parts)`, or the ValueError. */
  function NameOf<O>(codec: Codec<O>, root: Path, o: O): Result<string, PyError> {
    var rel :- RelativeTo(FromSlashed(codec.moduleOf(o)), root);
    ModuleName(rel)
  }

  /** A result has a name exactly when its file lies strictly under the root; the name is the dotted relative path. */
  lemma NameOfSpec<O>(codec: Codec<O>, root: Path, o: O)
    ensures NameOf(codec, root, o).Success? <==> root <= FromSlashed(codec.moduleOf(o)) && |FromSlashed(codec.moduleOf(o))| > |root|
    ensures NameOf(codec, root, o).Success? ==> NameOf(codec, root, o).value == DottedName(FromSlashed(codec.moduleOf(o))[|root|..])
    ensures NameOf(codec, root, o).Failure? ==> NameOf(codec, root, o).error.ValueError?
  {
  }

  /** The digest of a module object's canonical serialisation. */
  function DigestOf<O>(codec: Codec<O>, o: O): string {
    codec.digest(codec.serialize(o))
  }

  /** Every name paired with its result, or the first failure among the names. */
  function Zip<O>(names: seq<Result<string, PyError>>, results: seq<O>): (r: Result<seq<(string, O)>, PyError>)
    requires |names| == |results|
    ensures r.Success? <==> forall i :: 0 <= i < |names| ==> names[i].Success?
    ensures r.Failure? ==> exists i :: 0 <= i < |names| && names[i] == Failure(r.error) && forall j :: 0 <= j < i ==> names[j].Success?
    ensures r.Success? ==> |r.value| == |results|
    ensures r.Success? ==> forall i :: 0 <= i < |results| ==> r.value[i] == (names[i].value, results[i])
    decreases |names|
  {
    if names == [] then Success([])
    else if names[0].Failure? then Failure(names[0].error)
    else
      var rest := Zip(names[1..], results[1..]);
      assert forall i :: 0 < i < |names| ==> names[i] == names[1..][i - 1] && results[i] == results[1..][i - 1];
      if rest.Failure? then rest
      else Success([(names[0].value, results[0])] + rest.value)
  }

  /** A result the loop of `store_ast_results` gets past: it has a module name and `json.dumps` accepts it. */
  predicate Storable<O>(codec: Codec<O>, root: Path, o: O) {
    NameOf(codec, root, o).Success? && codec.serializable(o)
  }

  /**
   * One turn of the `store_ast_results` loop up to the write: the module
   * name, then the `json.dumps` of the object, each of which can raise.
   */
  function NameAndDump<O>(codec: Codec<O>, root: Path, o: O): (r: Result<string, PyError>)
    ensures r.Success? <==> Storable(codec, root, o)
    ensures r.Success? ==> r.value == NameOf(codec, root, o).value
    ensures r.Failure? ==> if NameOf(codec, root, o).Failure? then r.error.ValueError? else !codec.serializable(o) && r.error.TypeError?
  {
    NameOfSpec(codec, root, o);
    var name :- NameOf(codec, root, o);
    if codec.serializable(o) then Success(name) else Failure(TypeError("Object is not JSON serializable"))
  }

  /**
   * A name for every result, or the error of the first result the loop
   * stops at: the ValueError of one without a name, or the TypeError of one
   * `json.dumps` refuses.
   */
  function NameAll<O>(codec: Codec<O>, root: Path, results: seq<O>): (r: Result<seq<(string, O)>, PyError>)
    ensures r.Success? <==> forall i :: 0 <= i < |results| ==> Storable(codec, root, results[i])
    ensures r.Failure? ==>
              exists i :: (0 <= i < |results| && NameAndDump(codec, root, results[i]) == Failure(r.error) &&
                           forall j :: 0 <= j < i ==> Storable(codec, root, results[j]))
    ensures r.Success? ==> |r.value| == |results|
    ensures r.Success? ==> forall i :: 0 <= i < |results| ==> r.value[i] == (NameOf(codec, root, results[i]).value, results[i])
  {
    var names := seq(|results|, i requires 0 <= i < |results| => NameAndDump(codec, root, results[i]));
    var r := Zip(names, results);
    assert forall i :: 0 <= i < |results| ==> names[i] == NameAndDump(codec, root, results[i]);
    r
  }

  /** The module names entries are filed under. */
  function Names<O>(entries: seq<(string, O)>): set<string> {
    set i | 0 <= i < |entries| :: entries[i].0
  }

  /** No later entry is filed under the name of entry `i`. */
  predicate LastNamed<O>(entries: seq<(string, O)>, i: int)
    requires 0 <= i < |entries|
  {
    forall j :: i < j < |entries| ==> entries[j].0 != entries[i].0
  }

  /**
   * The loop of `store_ast_results` over named results, from `acc` on:
   * write each blob, then record its digest under its name.
   */
  function WriteEntries<O>(codec: Codec<O>, objects: Path, fs: Fs, entries: seq<(string, O)>, acc: map<string, string>)
    : (r: (Fs, map<string, string>))
    decreases |entries|
  {
    if entries == [] then (fs, acc)
    else
      var data := codec.serialize(entries[0].1);
      WriteEntries(codec, objects, WriteBlob(fs, objects, codec.digest(data), data), entries[1..], acc[entries[0].0 := codec.digest(data)])
  }

  /** The names of a list of entries are the name of its head and the names of its tail. */
  lemma NamesCons<O>(entries: seq<(string, O)>)
    requires entries != []
    ensures Names(entries) == {entries[0].0} + Names(entries[1..])
  {
    forall k | k in Names(entries) ensures k == entries[0].0 || k in Names(entries[1..]) {
      var i :| 0 <= i < |entries| && entries[i].0 == k;
      if i > 0 {
        assert entries[1..][i - 1].0 == k;
      }
    }
  }

  /** The names of the entries are the keys the loop adds. */
  lemma {:induction false} WriteEntriesKeys<O>(codec: Codec<O>, objects: Path, fs: Fs, entries: seq<(string, O)>, acc: map<string, string>)
    ensures WriteEntries(codec, objects, fs, entries, acc).1.Keys == acc.Keys + Names(entries)
    decreases |entries|
  {
    if entries != [] {
      var d := DigestOf(codec, entries[0].1);
      WriteEntriesKeys(codec, objects, WriteBlob(fs, objects, d, codec.serialize(entries[0].1)), entries[1..], acc[entries[0].0 := d]);
      NamesCons(entries);
    }
  }

  /** A later entry of the same name overwrites an earlier one: each name maps to the digest of its last entry. */
  lemma {:induction false} WriteEntriesLastWins<O>(codec: Codec<O>, objects: Path, fs: Fs, entries: seq<(string, O)>, acc: map<string, string>, i: int)
    requires 0 <= i < |entries| && LastNamed(entries, i)
    ensures entries[i].0 in WriteEntries(codec, objects, fs, entries, acc).1
    ensures WriteEntries(codec, objects, fs, entries, acc).1[entries[i].0] == DigestOf(codec, entries[i].1)
    decreases |entries|
  {
    var d := DigestOf(codec, entries[0].1);
    var fs' := WriteBlob(fs, objects, d, codec.serialize(entries[0].1));
    if i == 0 {
      WriteEntriesKept(codec, objects, fs', entries[1..], acc[entries[0].0 := d], entries[0].0);
    } else {
      assert LastNamed(entries[1..], i - 1);
      WriteEntriesLastWins(codec, objects, fs', entries[1..], acc[entries[0].0 := d], i - 1);
    }
  }

  /** A key no entry is filed under keeps its value from `acc`. */
  lemma {:induction false} WriteEntriesKept<O>(codec: Codec<O>, objects: Path, fs: Fs, entries: seq<(string, O)>, acc: map<string, string>, k: string)
    requires k in acc && forall i :: 0 <= i < |entries| ==> entries[i].0 != k
    ensures k in WriteEntries(codec, objects, fs, entries, acc).1
    ensures WriteEntries(codec, objects, fs, entries, acc).1[k] == acc[k]
    decreases |entries|
  {
    if entries != [] {
      var d := DigestOf(codec, entries[0].1);
      assert forall i :: 0 <= i < |entries| - 1 ==> entries[1..][i] == entries[i + 1];
      WriteEntriesKept(codec, objects, WriteBlob(fs, objects, d, codec.serialize(entries[0].1)), entries[1..], acc[entries[0].0 := d], k);
    }
  }

  /** The blob paths of the entries' digests. */
  function EntryBlobs<O>(codec: Codec<O>, objects: Path, entries: seq<(string, O)>): set<Path> {
    set i | 0 <= i < |entries| :: BlobPath(objects, DigestOf(codec, entries[i].1))
  }

  lemma EntryBlobsCons<O>(codec: Codec<O>, objects: Path, entries: seq<(string, O)>)
    requires entries != []
    ensures EntryBlobs(codec, objects, entries) ==
              {BlobPath(objects, DigestOf(codec, entries[0].1))} + EntryBlobs(codec, objects, entries[1..])
  {
    forall p | p in EntryBlobs(codec, objects, entries)
      ensures p == BlobPath(objects, DigestOf(codec, entries[0].1)) || p in EntryBlobs(codec, objects, entries[1..])
    {
      var i :| 0 <= i < |entries| && p == BlobPath(objects, DigestOf(codec, entries[i].1));
      if i > 0 {
        assert entries[1..][i - 1] == entries[i];
      }
    }
  }

  /**
   * The files of the loop: the files there were are untouched, the blob of
   * every entry is present, and nothing else is new; equal objects give one
   * digest and so one blob.
   */
  lemma {:induction false} WriteEntriesFiles<O>(codec: Codec<O>, objects: Path, fs: Fs, entries: seq<(string, O)>, acc: map<string, string>)
    ensures WriteEntries(codec, objects, fs, entries, acc).0.files.Keys == fs.files.Keys + EntryBlobs(codec, objects, entries)
    ensures forall p :: p in fs.files ==> WriteEntries(codec, objects, fs, entries, acc).0.files[p] == fs.files[p]
    ensures fs.dirs <= WriteEntries(codec, objects, fs, entries, acc).0.dirs
    decreases |entries|
  {
    if entries != [] {
      var d := DigestOf(codec, entries[0].1);
      WriteBlobKeeps(fs, objects, d, codec.serialize(entries[0].1));
      WriteEntriesFiles(codec, objects, WriteBlob(fs, objects, d, codec.serialize(entries[0].1)), entries[1..], acc[entries[0].0 := d]);
      EntryBlobsCons(codec, objects, entries);
    }
  }

  /** A second run of the loop over the same entries writes no new file and builds the same map. */
  lemma WriteEntriesTwice<O>(codec: Codec<O>, objects: Path, fs: Fs, entries: seq<(string, O)>, acc: map<string, string>)
    ensures WriteEntries(codec, objects, WriteEntries(codec, objects, fs, entries, acc).0, entries, acc).0.files ==
              WriteEntries(codec, objects, fs, entries, acc).0.files
    ensures WriteEntries(codec, objects, WriteEntries(codec, objects, fs, entries, acc).0, entries, acc).1 ==
              WriteEntries(codec, objects, fs, entries, acc).1
  {
    var once := WriteEntries(codec, objects, fs, entries, acc).0;
    WriteEntriesFiles(codec, objects, fs, entries, acc);
    WriteEntriesFiles(codec, objects, once, entries, acc);
    MapExt(WriteEntries(codec, objects, once, entries, acc).0.files, once.files);
    WriteEntriesMapOnly(codec, objects, fs, once, entries, acc);
  }

  /** The map the loop builds does not depend on the store. */
  lemma {:induction false} WriteEntriesMapOnly<O>(codec: Codec<O>, objects: Path, fs: Fs, fs': Fs, entries: seq<(string, O)>, acc: map<string, string>)
    ensures WriteEntries(codec, objects, fs, entries, acc).1 == WriteEntries(codec, objects, fs', entries, acc).1
    decreases |entries|
  {
    if entries != [] {
      var d := DigestOf(codec, entries[0].1);
      WriteEntriesMapOnly(codec, objects, WriteBlob(fs, objects, d, codec.serialize(entries[0].1)),
                          WriteBlob(fs', objects, d, codec.serialize(entries[0].1)), entries[1..], acc[entries[0].0 := d]);
    }
  }

  // ---------------------------------------------------------------------------
  // Content addressing

  /** Every blob holds data whose digest its path spells. */
  ghost predicate Addressed<O>(codec: Codec<O>, fs: Fs, objects: Path) {
    forall d {:trigger BlobPath(objects, d)} :: BlobPath(objects, d) in fs.files ==>
      fs.files[BlobPath(objects, d)].Gzipped? && codec.digest(fs.files[BlobPath(objects, d)].data) == d
  }

  /** The data of every gzip file of the store. */
  function Stored(fs: Fs): set<Bytes> {
    set p | p in fs.files && fs.files[p].Gzipped? :: fs.files[p].data
  }

  /** The serialisations of the entries' objects. */
  function Serialized<O>(codec: Codec<O>, entries: seq<(string, O)>): set<Bytes> {
    set i | 0 <= i < |entries| :: codec.serialize(entries[i].1)
  }

  /** Writing data under its own digest keeps the store content-addressed, and adds no data but this. */
  lemma WriteBlobAddressed<O>(codec: Codec<O>, fs: Fs, objects: Path, data: Bytes)
    requires Addressed(codec, fs, objects)
    ensures Addressed(codec, WriteBlob(fs, objects, codec.digest(data), data), objects)
    ensures Stored(WriteBlob(fs, objects, codec.digest(data), data)) <= Stored(fs) + {data}
  {
    var r := WriteBlob(fs, objects, codec.digest(data), data);
    forall d | BlobPath(objects, d) in r.files
      ensures r.files[BlobPath(objects, d)].Gzipped? && codec.digest(r.files[BlobPath(objects, d)].data) == d
    {
      if BlobPath(objects, d) == BlobPath(objects, codec.digest(data)) {
        BlobPathInjective(objects, d, codec.digest(data));
      }
    }
  }

  lemma SerializedCons<O>(codec: Codec<O>, entries: seq<(string, O)>)
    requires entries != []
    ensures Serialized(codec, entries) == {codec.serialize(entries[0].1)} + Serialized(codec, entries[1..])
  {
    forall x | x in Serialized(codec, entries) ensures x == codec.serialize(entries[0].1) || x in Serialized(codec, entries[1..]) {
      var i :| 0 <= i < |entries| && x == codec.serialize(entries[i].1);
      if i > 0 {
        assert entries[1..][i - 1] == entries[i];
      }
    }
  }

  /** The loop keeps the store content-addressed, and the only data it adds is the entries' serialisations. */
  lemma {:induction false} WriteEntriesAddressed<O>(codec: Codec<O>, objects: Path, fs: Fs, entries: seq<(string, O)>, acc: map<string, string>)
    requires Addressed(codec, fs, objects)
    ensures Addressed(codec, WriteEntries(codec, objects, fs, entries, acc).0, objects)
    ensures Stored(WriteEntries(codec, objects, fs, entries, acc).0) <= Stored(fs) + Serialized(codec, entries)
    decreases |entries|
  {
    if entries != [] {
      var data := codec.serialize(entries[0].1);
      WriteBlobAddressed(codec, fs, objects, data);
      WriteEntriesAddressed(codec, objects, WriteBlob(fs, objects, codec.digest(data), data), entries[1..], acc[entries[0].0 := codec.digest(data)]);
      SerializedCons(codec, entries);
    }
  }

  // ---------------------------------------------------------------------------
  // store_ast_results

  /**
   * `store_ast_results(results, repo_root)` with the commit and branch git
   * reports and the modification times the trim reads: name every result,
   * write the blobs and the manifest, record the commit in the
   * configuration, then prune and trim as the housekeeping settings say.
   * The result is the store and the configuration afterwards.
   */
  ghost function Store<O>(codec: Codec<O>, fs: Fs, cfg: Config, root: Path, results: seq<O>, commit: string, branch: string, mtime: Path -> int)
    : (r: Result<(Fs, Config), PyError>)
  {
    var entries :- NameAll(codec, root, results);
    var written := Written(codec, fs, cfg, root, entries);
    var pruned :- if PruneOn(cfg) then Prune(WriteManifest(written.0, ManifestsDir(cfg, root), commit, written.1), ObjectsDir(cfg, root), ManifestsDir(cfg, root))
                  else Success(WriteManifest(written.0, ManifestsDir(cfg, root), commit, written.1));
    var trimmed := if KeepCount(cfg).Some? then Trim(pruned, ManifestsDir(cfg, root), KeepCount(cfg).value, mtime) else pruned;
    Success((trimmed, cfg.(repo := Some(RepoCfg(Some(commit), Some(branch))))))
  }

  /** `ensure_dirs`, then the loop from an empty map. */
  function Written<O>(codec: Codec<O>, fs: Fs, cfg: Config, root: Path, entries: seq<(string, O)>): (r: (Fs, map<string, string>))
    ensures ObjectsDir(cfg, root) in r.0.dirs
  {
    var ready := MkDirs(MkDirs(fs, ObjectsDir(cfg, root)), ManifestsDir(cfg, root));
    WriteEntriesFiles(codec, ObjectsDir(cfg, root), ready, entries, map[]);
    WriteEntries(codec, ObjectsDir(cfg, root), ready, entries, map[])
  }

  /**
   * The store fails exactly when some result has no module name under the
   * root or is refused by `json.dumps`, and then with the ValueError or
   * TypeError of the first such result.
   */
  lemma StoreSucceeds<O>(codec: Codec<O>, fs: Fs, cfg: Config, root: Path, results: seq<O>, commit: string, branch: string, mtime: Path -> int)
    ensures Store(codec, fs, cfg, root, results, commit, branch, mtime).Success? <==>
              forall i :: 0 <= i < |results| ==> NameOf(codec, root, results[i]).Success? && codec.serializable(results[i])
    ensures Store(codec, fs, cfg, root, results, commit, branch, mtime).Failure? ==>
              exists i :: (0 <= i < |results| && (forall j :: 0 <= j < i ==> Storable(codec, root, results[j])) &&
                           if NameOf(codec, root, results[i]).Failure? then Store(codec, fs, cfg, root, results, commit, branch, mtime).error.ValueError?
                           else !codec.serializable(results[i]) && Store(codec, fs, cfg, root, results, commit, branch, mtime).error.TypeError?)
    ensures Store(codec, fs, cfg, root, results, commit, branch, mtime).Success? ==>
              Store(codec, fs, cfg, root, results, commit, branch, mtime).value.1 == cfg.(repo := Some(RepoCfg(Some(commit), Some(branch))))
  {
  }

  /** The store after the blobs and the manifest are written, before housekeeping. */
  function Committed<O>(codec: Codec<O>, fs: Fs, cfg: Config, root: Path, entries: seq<(string, O)>, commit: string): Fs {
    WriteManifest(Written(codec, fs, cfg, root, entries).0, ManifestsDir(cfg, root), commit, Written(codec, fs, cfg, root, entries).1)
  }

  /** A store whose files are some of another's, with the same contents. */
  predicate SubStore(small: Fs, big: Fs) {
    forall p :: p in small.files ==> p in big.files && small.files[p] == big.files[p]
  }

  /** Deleting files keeps a store content-addressed and adds no data. */
  lemma SubStoreAddressed<O>(codec: Codec<O>, small: Fs, big: Fs, objects: Path)
    requires SubStore(small, big) && Addressed(codec, big, objects)
    ensures Addressed(codec, small, objects) && Stored(small) <= Stored(big)
  {
  }

  /** Writing a manifest keeps the store content-addressed and adds no data. */
  lemma WriteManifestAddressed<O>(codec: Codec<O>, fs: Fs, objects: Path, manifests: Path, commit: string, modules: map<string, string>)
    requires Addressed(codec, fs, objects)
    ensures Addressed(codec, WriteManifest(fs, manifests, commit, modules), objects)
    ensures Stored(WriteManifest(fs, manifests, commit, modules)) <= Stored(fs)
  {
    forall d ensures BlobPath(objects, d) != ManifestPath(manifests, commit) {
      BlobIsNotManifest(objects, manifests, d, commit);
    }
  }

  /** Without trimming, the store ends as the committed store, pruned when pruning is on. */
  lemma StoreUntrimmed<O>(codec: Codec<O>, fs: Fs, cfg: Config, root: Path, results: seq<O>, commit: string, branch: string, mtime: Path -> int)
    requires Store(codec, fs, cfg, root, results, commit, branch, mtime).Success? && KeepCount(cfg).None?
    ensures NameAll(codec, root, results).Success?
    ensures ObjectsDir(cfg, root) in Committed(codec, fs, cfg, root, NameAll(codec, root, results).value, commit).dirs
    ensures Store(codec, fs, cfg, root, results, commit, branch, mtime).value.0 ==
              if PruneOn(cfg) then Prune(Committed(codec, fs, cfg, root, NameAll(codec, root, results).value, commit), ObjectsDir(cfg, root), ManifestsDir(cfg, root)).value
              else Committed(codec, fs, cfg, root, NameAll(codec, root, results).value, commit)
  {
  }

  /**
   * What a store without trimming leaves: the manifest of the commit maps
   * each name to a digest, the blob of every entry is present, the store
   * stays content-addressed, and its data is old data or the entries'.
   */
  lemma StoreOutcome<O>(codec: Codec<O>, fs: Fs, cfg: Config, root: Path, results: seq<O>, commit: string, branch: string, mtime: Path -> int)
    requires Store(codec, fs, cfg, root, results, commit, branch, mtime).Success? && KeepCount(cfg).None?
    requires Addressed(codec, fs, ObjectsDir(cfg, root))
    ensures NameAll(codec, root, results).Success?
    ensures ManifestPath(ManifestsDir(cfg, root), commit) in Store(codec, fs, cfg, root, results, commit, branch, mtime).value.0.files
    ensures Store(codec, fs, cfg, root, results, commit, branch, mtime).value.0.files[ManifestPath(ManifestsDir(cfg, root), commit)] ==
              ManifestJson(Some(Written(codec, fs, cfg, root, NameAll(codec, root, results).value).1))
    ensures forall i :: 0 <= i < |results| && LastNamed(NameAll(codec, root, results).value, i) ==>
              BlobPath(ObjectsDir(cfg, root), DigestOf(codec, results[i])) in Store(codec, fs, cfg, root, results, commit, branch, mtime).value.0.files
    ensures Addressed(codec, Store(codec, fs, cfg, root, results, commit, branch, mtime).value.0, ObjectsDir(cfg, root))
    ensures Stored(Store(codec, fs, cfg, root, results, commit, branch, mtime).value.0) <=
              Stored(fs) + Serialized(codec, NameAll(codec, root, results).value)
  {
    StoreUntrimmed(codec, fs, cfg, root, results, commit, branch, mtime);
    var entries := NameAll(codec, root, results).value;
    var objects := ObjectsDir(cfg, root);
    var manifests := ManifestsDir(cfg, root);
    CommittedOutcome(codec, fs, cfg, root, entries, commit);
    var c := Committed(codec, fs, cfg, root, entries, commit);
    if PruneOn(cfg) {
      PruneFiles(c, objects, manifests);
      PruneKeepsManifests(c, objects, manifests);
      SubStoreAddressed(codec, Prune(c, objects, manifests).value, c, objects);
      forall i | 0 <= i < |results| && LastNamed(entries, i)
        ensures BlobPath(objects, DigestOf(codec, results[i])) in Prune(c, objects, manifests).value.files
      {
        assert entries[i].1 == results[i];
        CommittedReferenced(codec, fs, cfg, root, entries, commit, i);
        PruneKeepsReferenced(c, objects, manifests, DigestOf(codec, results[i]));
      }
    }
  }

  /** The same settings with `keep_last_manifests` taken out. */
  function WithoutTrim(cfg: Config): (c: Config)
    ensures KeepCount(c).None?
    ensures c.repo == cfg.repo && c.storage == cfg.storage && PruneOn(c) == PruneOn(cfg)
  {
    if cfg.housekeeping.None? then cfg else cfg.(housekeeping := Some(cfg.housekeeping.value.(keep := None)))
  }

  /** The manifest of `commit` is newer than every other manifest already in the store, as a clock that moves on makes it. */
  predicate WrittenLast(fs: Fs, cfg: Config, root: Path, commit: string, mtime: Path -> int) {
    forall q :: q in ManifestFiles(fs, ManifestsDir(cfg, root)) && q != ManifestPath(ManifestsDir(cfg, root), commit) ==>
      mtime(q) < mtime(ManifestPath(ManifestsDir(cfg, root), commit))
  }

  /** A store with trimming is the store without it, trimmed afterwards. */
  lemma StoreThenTrim<O>(codec: Codec<O>, fs: Fs, cfg: Config, root: Path, results: seq<O>, commit: string, branch: string, mtime: Path -> int)
    requires Store(codec, fs, cfg, root, results, commit, branch, mtime).Success? && KeepCount(cfg).Some?
    ensures Store(codec, fs, WithoutTrim(cfg), root, results, commit, branch, mtime).Success?
    ensures Store(codec, fs, cfg, root, results, commit, branch, mtime).value.0 ==
              Trim(Store(codec, fs, WithoutTrim(cfg), root, results, commit, branch, mtime).value.0, ManifestsDir(cfg, root), KeepCount(cfg).value, mtime)
  {
  }

  /** A blob is never among the manifests: its name ends in ".json.gz", not ".json". */
  lemma BlobIsNotManifestFile(objects: Path, manifests: Path, digest: string)
    ensures !IsManifestFile(manifests, BlobPath(objects, digest))
  {
    var p := BlobPath(objects, digest);
    BlobPathLayout(objects, digest);
    EndsWithLast(p[|p| - 1], ".json");
    EndsWithLast(p[|p| - 1], BlobSuffix);
  }

  /** Before the trim, the store's manifests are the old ones and the one just written. */
  lemma UntrimmedManifests<O>(codec: Codec<O>, fs: Fs, cfg: Config, root: Path, results: seq<O>, commit: string, branch: string, mtime: Path -> int)
    requires Store(codec, fs, cfg, root, results, commit, branch, mtime).Success? && KeepCount(cfg).None?
    ensures ManifestFiles(Store(codec, fs, cfg, root, results, commit, branch, mtime).value.0, ManifestsDir(cfg, root)) <=
              ManifestFiles(fs, ManifestsDir(cfg, root)) + {ManifestPath(ManifestsDir(cfg, root), commit)}
  {
    StoreUntrimmed(codec, fs, cfg, root, results, commit, branch, mtime);
    var entries := NameAll(codec, root, results).value;
    var objects := ObjectsDir(cfg, root);
    var manifests := ManifestsDir(cfg, root);
    var ready := MkDirs(MkDirs(fs, objects), manifests);
    WriteEntriesFiles(codec, objects, ready, entries, map[]);
    var c := Committed(codec, fs, cfg, root, entries, commit);
    forall q | q in c.files && IsManifestFile(manifests, q)
      ensures q in fs.files || q == ManifestPath(manifests, commit)
    {
      if q in EntryBlobs(codec, objects, entries) {
        var i :| 0 <= i < |entries| && q == BlobPath(objects, DigestOf(codec, entries[i].1));
        BlobIsNotManifestFile(objects, manifests, DigestOf(codec, entries[i].1));
      }
    }
    if PruneOn(cfg) {
      PruneFiles(c, objects, manifests);
    }
  }

  /**
   * What a store with trimming leaves when its manifest is the newest: the
   * trim keeps at least one manifest, the newest one among them, so
   * everything `StoreOutcome` promises holds after it as well.
   */
  lemma StoreOutcomeTrimmed<O>(codec: Codec<O>, fs: Fs, cfg: Config, root: Path, results: seq<O>, commit: string, branch: string, mtime: Path -> int)
    requires Store(codec, fs, cfg, root, results, commit, branch, mtime).Success? && KeepCount(cfg).Some?
    requires Addressed(codec, fs, ObjectsDir(cfg, root))
    requires WrittenLast(fs, cfg, root, commit, mtime)
    ensures NameAll(codec, root, results).Success?
    ensures ManifestPath(ManifestsDir(cfg, root), commit) in Store(codec, fs, cfg, root, results, commit, branch, mtime).value.0.files
    ensures Store(codec, fs, cfg, root, results, commit, branch, mtime).value.0.files[ManifestPath(ManifestsDir(cfg, root), commit)] ==
              ManifestJson(Some(Written(codec, fs, cfg, root, NameAll(codec, root, results).value).1))
    ensures forall i :: 0 <= i < |results| && LastNamed(NameAll(codec, root, results).value, i) ==>
              BlobPath(ObjectsDir(cfg, root), DigestOf(codec, results[i])) in Store(codec, fs, cfg, root, results, commit, branch, mtime).value.0.files
    ensures Addressed(codec, Store(codec, fs, cfg, root, results, commit, branch, mtime).value.0, ObjectsDir(cfg, root))
    ensures Stored(Store(codec, fs, cfg, root, results, commit, branch, mtime).value.0) <=
              Stored(fs) + Serialized(codec, NameAll(codec, root, results).value)
  {
    StoreThenTrim(codec, fs, cfg, root, results, commit, branch, mtime);
    var cfg0 := WithoutTrim(cfg);
    StoreOutcome(codec, fs, cfg0, root, results, commit, branch, mtime);
    UntrimmedManifests(codec, fs, cfg0, root, results, commit, branch, mtime);
    var pre := Store(codec, fs, cfg0, root, results, commit, branch, mtime).value.0;
    TrimKeepsLatest(pre, ManifestFiles(fs, ManifestsDir(cfg, root)), ManifestsDir(cfg, root), KeepCount(cfg).value, mtime, ManifestPath(ManifestsDir(cfg, root), commit));
    TrimKeepsBlobs(codec, pre, ObjectsDir(cfg, root), ManifestsDir(cfg, root), KeepCount(cfg).value, mtime);
  }

  /**
   * A trim that keeps at least one manifest keeps one that is newer than
   * every other: `older` holds the other manifests there are.
   */
  lemma TrimKeepsLatest(fs: Fs, older: set<Path>, manifests: Path, keep: int, mtime: Path -> int, latest: Path)
    requires keep >= 1
    requires latest in ManifestFiles(fs, manifests) && ManifestFiles(fs, manifests) <= older + {latest}
    requires forall q :: q in older && q != latest ==> mtime(q) < mtime(latest)
    ensures latest in Trim(fs, manifests, keep, mtime).files && Trim(fs, manifests, keep, mtime).files[latest] == fs.files[latest]
  {
    TrimFiles(fs, manifests, keep, mtime);
    if latest !in Trim(fs, manifests, keep, mtime).files {
      TrimCount(fs, manifests, keep, mtime);
      var p :| p in ManifestFiles(Trim(fs, manifests, keep, mtime), manifests);
      TrimKeepsNewest(fs, manifests, keep, mtime, p, latest);
      assert false;
    }
  }

  /** Trimming keeps every blob, keeps the store content-addressed and adds no data. */
  lemma TrimKeepsBlobs<O>(codec: Codec<O>, fs: Fs, objects: Path, manifests: Path, keep: int, mtime: Path -> int)
    requires Addressed(codec, fs, objects)
    ensures forall d :: BlobPath(objects, d) in fs.files ==> BlobPath(objects, d) in Trim(fs, manifests, keep, mtime).files
    ensures Addressed(codec, Trim(fs, manifests, keep, mtime), objects)
    ensures Stored(Trim(fs, manifests, keep, mtime)) <= Stored(fs)
  {
    TrimOnlyManifests(fs, manifests, keep, mtime);
    SubStoreAddressed(codec, Trim(fs, manifests, keep, mtime), fs, objects);
    forall d | BlobPath(objects, d) in fs.files
      ensures BlobPath(objects, d) in Trim(fs, manifests, keep, mtime).files
    {
      BlobIsNotManifestFile(objects, manifests, d);
    }
  }

  /** The committed store: its manifest, its blobs, content addressing and data. */
  lemma CommittedOutcome<O>(codec: Codec<O>, fs: Fs, cfg: Config, root: Path, entries: seq<(string, O)>, commit: string)
    requires Addressed(codec, fs, ObjectsDir(cfg, root))
    ensures Committed(codec, fs, cfg, root, entries, commit).files[ManifestPath(ManifestsDir(cfg, root), commit)] ==
              ManifestJson(Some(Written(codec, fs, cfg, root, entries).1))
    ensures forall i :: 0 <= i < |entries| ==>
              BlobPath(ObjectsDir(cfg, root), DigestOf(codec, entries[i].1)) in Committed(codec, fs, cfg, root, entries, commit).files
    ensures Addressed(codec, Committed(codec, fs, cfg, root, entries, commit), ObjectsDir(cfg, root))
    ensures Stored(Committed(codec, fs, cfg, root, entries, commit)) <= Stored(fs) + Serialized(codec, entries)
  {
    var objects := ObjectsDir(cfg, root);
    var ready := MkDirs(MkDirs(fs, objects), ManifestsDir(cfg, root));
    assert Stored(ready) == Stored(fs);
    WriteEntriesFiles(codec, objects, ready, entries, map[]);
    WriteEntriesAddressed(codec, objects, ready, entries, map[]);
    WriteManifestAddressed(codec, Written(codec, fs, cfg, root, entries).0, objects, ManifestsDir(cfg, root), commit, Written(codec, fs, cfg, root, entries).1);
    forall i | 0 <= i < |entries|
      ensures BlobPath(objects, DigestOf(codec, entries[i].1)) in Committed(codec, fs, cfg, root, entries, commit).files
    {
      assert BlobPath(objects, DigestOf(codec, entries[i].1)) in EntryBlobs(codec, objects, entries);
    }
  }

  /** The digest of the last entry of each name is named by the committed manifest. */
  lemma CommittedReferenced<O>(codec: Codec<O>, fs: Fs, cfg: Config, root: Path, entries: seq<(string, O)>, commit: string, i: int)
    requires 0 <= i < |entries| && LastNamed(entries, i)
    ensures DigestOf(codec, entries[i].1) in Referenced(Committed(codec, fs, cfg, root, entries, commit), ManifestsDir(cfg, root))
  {
    var ready := MkDirs(MkDirs(fs, ObjectsDir(cfg, root)), ManifestsDir(cfg, root));
    WriteEntriesLastWins(codec, ObjectsDir(cfg, root), ready, entries, map[], i);
    var m := Written(codec, fs, cfg, root, entries).1;
    assert m[entries[i].0] == DigestOf(codec, entries[i].1);
    var p := ManifestPath(ManifestsDir(cfg, root), commit);
    assert Committed(codec, fs, cfg, root, entries, commit).files[p] == ManifestJson(Some(m));
    assert DigestOf(codec, entries[i].1) in Digests(ManifestJson(Some(m)));
  }

  /** Every name has a last entry, at or after any entry of that name. */
  lemma {:induction false} LastOfName<O>(entries: seq<(string, O)>, i: int)
    requires 0 <= i < |entries|
    ensures exists j :: i <= j < |entries| && entries[j].0 == entries[i].0 && LastNamed(entries, j)
    decreases |entries| - i
  {
    if !LastNamed(entries, i) {
      var j :| i < j < |entries| && entries[j].0 == entries[i].0;
      LastOfName(entries, j);
    }
  }

  /** The mapping the store writes into the manifest: the names, each with the digest of its last result. */
  lemma WrittenManifest<O>(codec: Codec<O>, fs: Fs, cfg: Config, root: Path, entries: seq<(string, O)>)
    ensures Written(codec, fs, cfg, root, entries).1.Keys == Names(entries)
    ensures forall i :: 0 <= i < |entries| && LastNamed(entries, i) ==>
              entries[i].0 in Written(codec, fs, cfg, root, entries).1 &&
              Written(codec, fs, cfg, root, entries).1[entries[i].0] == DigestOf(codec, entries[i].1)
  {
    var ready := MkDirs(MkDirs(fs, ObjectsDir(cfg, root)), ManifestsDir(cfg, root));
    WriteEntriesKeys(codec, ObjectsDir(cfg, root), ready, entries, map[]);
    forall i | 0 <= i < |entries| && LastNamed(entries, i)
      ensures entries[i].0 in Written(codec, fs, cfg, root, entries).1 &&
              Written(codec, fs, cfg, root, entries).1[entries[i].0] == DigestOf(codec, entries[i].1)
    {
      WriteEntriesLastWins(codec, ObjectsDir(cfg, root), ready, entries, map[], i);
    }
  }
}
