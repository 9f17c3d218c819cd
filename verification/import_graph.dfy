/**
 * The file-level import graph of a repository: every committed `.py` file
 * mapped to the set of repository files its import statements resolve to,
 * each imported dotted name resolving to its longest prefix that names a
 * module of the repository.
 */
module ImportGraph {
  import opened Wrappers
  import opened Strings
  import opened Paths
  import opened PyAst

  /** Each file to the files it imports (`Dict[Path, Set[Path]]`). */
  type Graph = map<Path, set<Path>>

  /** Dotted module name to the file that defines it. */
  type ModuleMap = map<string, Path>

  /** A listed file whose name ends in ".py". */
  predicate IsPyFile(rel: Path) {
    |rel| > 0 && EndsWith(rel[|rel| - 1], ".py")
  }

  /** The `.py` entries of the listing, in listing order. */
  function PyListing(listing: seq<Path>): (rels: seq<Path>)
    ensures forall rel :: rel in rels <==> rel in listing && IsPyFile(rel)
    ensures forall i :: 0 <= i < |rels| ==> IsPyFile(rels[i])
  {
    if listing == [] then []
    else
      var rest := PyListing(listing[1..]);
      if IsPyFile(listing[0]) then [listing[0]] + rest else rest
  }

  /** The absolute paths of the listed `.py` files. */
  function Files(root: Path, rels: seq<Path>): (files: seq<Path>)
    ensures |files| == |rels|
    ensures forall i :: 0 <= i < |rels| ==> files[i] == root + rels[i]
  {
    seq(|rels|, i requires 0 <= i < |rels| => root + rels[i])
  }

  /** Each listed file's `(dotted module name, absolute path)`, in listing order. */
  function ModuleEntries(root: Path, rels: seq<Path>): (entries: seq<(string, Path)>)
    ensures |entries| == |rels|
    ensures forall i :: 0 <= i < |rels| ==> entries[i] == (DottedName(rels[i]), root + rels[i])
  {
    seq(|rels|, i requires 0 <= i < |rels| => (DottedName(rels[i]), root + rels[i]))
  }

  /** The position of the last entry named `name`. */
  predicate LastWithName(entries: seq<(string, Path)>, name: string, j: int) {
    && 0 <= j < |entries|
    && entries[j].0 == name
    && forall k :: j < k < |entries| ==> entries[k].0 != name
  }

  /** The module map built in listing order: its keys are exactly the entries' names. */
  function BuildModuleMap(entries: seq<(string, Path)>): (mm: ModuleMap)
    ensures forall j :: 0 <= j < |entries| ==> entries[j].0 in mm
    ensures forall name :: name in mm ==> exists j :: 0 <= j < |entries| && entries[j].0 == name
  {
    if entries == [] then map[]
    else
      var n := |entries| - 1;
      var prev := BuildModuleMap(entries[..n]);
      assert forall j :: 0 <= j < n ==> entries[..n][j] == entries[j];
      prev[entries[n].0 := entries[n].1]
  }

  /** A name shared by several files maps to the last of them: later entries overwrite earlier ones. */
  lemma {:induction false} ModuleMapLastWins(entries: seq<(string, Path)>, name: string)
    requires name in BuildModuleMap(entries)
    ensures exists j :: LastWithName(entries, name, j) && BuildModuleMap(entries)[name] == entries[j].1
  {
    if entries == [] {
      assert false;
    }
    var n := |entries| - 1;
    if entries[n].0 == name {
      assert LastWithName(entries, name, n);
    } else {
      ModuleMapStep(entries, name);
      ModuleMapLastWins(entries[..n], name);
      var j :| LastWithName(entries[..n], name, j) && BuildModuleMap(entries[..n])[name] == entries[..n][j].1;
      LastWithNameExtend(entries, name, j);
    }
  }

  /** An entry with another name leaves `name`'s binding as the earlier entries made it. */
  lemma ModuleMapStep(entries: seq<(string, Path)>, name: string)
    requires entries != [] && entries[|entries| - 1].0 != name
    ensures name in BuildModuleMap(entries) <==> name in BuildModuleMap(entries[..|entries| - 1])
    ensures name in BuildModuleMap(entries) ==>
              BuildModuleMap(entries)[name] == BuildModuleMap(entries[..|entries| - 1])[name]
  {
  }

  /** The last entry named `name` among all but the final entry stays last when the final one has another name. */
  lemma LastWithNameExtend(entries: seq<(string, Path)>, name: string, j: int)
    requires entries != [] && entries[|entries| - 1].0 != name
    requires LastWithName(entries[..|entries| - 1], name, j)
    ensures LastWithName(entries, name, j) && entries[..|entries| - 1][j] == entries[j]
  {
    assert forall k :: j < k < |entries| - 1 ==> entries[..|entries| - 1][k] == entries[k];
  }

  /** Whether the first `i` dotted parts name a known module. */
  predicate PrefixKnown(parts: seq<string>, mm: ModuleMap, i: int) {
    1 <= i <= |parts| && Join(parts[..i], '.') in mm
  }

  /**
   * The loop `for i in range(k, 0, -1)`: the module of the longest known
   * prefix of at most `k` parts, if any.
   */
  function LongestPrefix(parts: seq<string>, mm: ModuleMap, k: nat): (r: Option<Path>)
    requires k <= |parts|
    ensures r.Some? <==> exists i :: i <= k && PrefixKnown(parts, mm, i)
    ensures r.Some? ==> exists i ::
      && i <= k && PrefixKnown(parts, mm, i) && r.value == mm[Join(parts[..i], '.')]
      && forall j :: i < j <= k ==> !PrefixKnown(parts, mm, j)
  {
    if k == 0 then None
    else if Join(parts[..k], '.') in mm then
      assert PrefixKnown(parts, mm, k);
      Some(mm[Join(parts[..k], '.')])
    else
      LongestPrefix(parts, mm, k - 1)
  }

  /** The file an imported dotted name resolves to, if any. */
  function Resolve(name: string, mm: ModuleMap): Option<Path> {
    var parts := Split(name, '.');
    LongestPrefix(parts, mm, |parts|)
  }

  /** A name that is itself a module resolves to that module: the whole name is the longest prefix. */
  lemma ResolveExact(name: string, mm: ModuleMap)
    requires name in mm
    ensures Resolve(name, mm) == Some(mm[name])
  {
    var parts := Split(name, '.');
    JoinSplit(name, '.');
    assert parts[..|parts|] == parts;
  }

  /** Resolution never goes past the module map's values. */
  lemma ResolveInMap(name: string, mm: ModuleMap)
    ensures Resolve(name, mm).Some? ==> Resolve(name, mm).value in mm.Values
  {
  }

  /** The dotted name a from-import alias is looked up under (`f"{module}.{name}"` when the module is set). */
  function FromName(fromModule: Option<string>, name: string): string {
    match fromModule
    case Some(m) => if m != "" then m + "." + name else name
    case None => name
  }

  /** The names a from-import asks for, star imports skipped. */
  function FromNames(fromModule: Option<string>, aliases: seq<Alias>): (names: seq<string>)
    ensures forall n :: n in names <==> exists a :: a in aliases && a.name != "*" && n == FromName(fromModule, a.name)
  {
    if aliases == [] then []
    else
      var rest := FromNames(fromModule, aliases[1..]);
      if aliases[0].name == "*" then rest else [FromName(fromModule, aliases[0].name)] + rest
  }

  /** The names a plain import asks for. */
  function AliasNames(aliases: seq<Alias>): (names: seq<string>)
    ensures forall n :: n in names <==> exists a :: a in aliases && n == a.name
  {
    if aliases == [] then [] else [aliases[0].name] + AliasNames(aliases[1..])
  }

  /** The dotted names one import node asks for, star imports skipped. */
  function ImportedNames(node: ImportNode): seq<string> {
    match node
    case Import(aliases) => AliasNames(aliases)
    case ImportFrom(m, aliases, _) => FromNames(m, aliases)
  }

  /** Every dotted name imported anywhere in a file, in walk order. */
  function AllImportedNames(nodes: seq<ImportNode>): seq<string> {
    if nodes == [] then [] else ImportedNames(nodes[0]) + AllImportedNames(nodes[1..])
  }

  /** The files one parsed file imports: one resolution per imported name, unresolved names dropped. */
  function Edges(nodes: seq<ImportNode>, mm: ModuleMap): (targets: set<Path>)
    ensures forall t :: t in targets <==> exists n :: n in AllImportedNames(nodes) && Resolve(n, mm) == Some(t)
  {
    set n | n in AllImportedNames(nodes) && Resolve(n, mm).Some? :: Resolve(n, mm).value
  }

  /** The graph over `files`, or the error of the first file that fails to parse. */
  function GraphOf(files: seq<Path>, mm: ModuleMap, parse: Path -> Result<Module, string>): (r: Result<Graph, PyError>)
    ensures r.Success? <==> forall i :: 0 <= i < |files| ==> parse(files[i]).Success?
    ensures r.Success? ==> forall f :: f in r.value <==> f in files
    ensures r.Success? ==> forall f :: f in r.value ==> r.value[f] == Edges(parse(f).value.walkedImports, mm)
  {
    if files == [] then Success(map[])
    else
      var n := |files| - 1;
      var f := files[n];
      assert forall i :: 0 <= i < n ==> files[..n][i] == files[i];
      assert files == files[..n] + [f];
      var g :- GraphOf(files[..n], mm, parse);
      var m :- ParseFile(f, parse);
      Success(g[f := (if f in g then g[f] else {}) + Edges(m.walkedImports, mm)])
  }

  /** `read_text` and `ast.parse` of one file, failures reported with the file's path. */
  function ParseFile(f: Path, parse: Path -> Result<Module, string>): (r: Result<Module, PyError>)
    ensures r.Success? <==> parse(f).Success?
    ensures r.Success? ==> r.value == parse(f).value
    ensures r.Failure? ==> r.error == SyntaxOrReadError(f, parse(f).error)
  {
    match parse(f)
    case Success(m) => Success(m)
    case Failure(msg) => Failure(SyntaxOrReadError(f, msg))
  }

  /** A failed build reports the first file, in listing order, that could not be parsed. */
  lemma {:induction false} GraphOfFirstFailure(files: seq<Path>, mm: ModuleMap, parse: Path -> Result<Module, string>)
    requires GraphOf(files, mm, parse).Failure?
    ensures exists i ::
      && 0 <= i < |files| && parse(files[i]).Failure?
      && (forall k :: 0 <= k < i ==> parse(files[k]).Success?)
      && GraphOf(files, mm, parse).error == SyntaxOrReadError(files[i], parse(files[i]).error)
  {
    var n := |files| - 1;
    assert forall i :: 0 <= i < n ==> files[..n][i] == files[i];
    if GraphOf(files[..n], mm, parse).Failure? {
      GraphOfFirstFailure(files[..n], mm, parse);
    } else {
      assert parse(files[n]).Failure?;
    }
  }

  /** The absolute file list holds `root + rel` for exactly the listed `.py` entries. */
  lemma FilesOfListing(root: Path, listing: seq<Path>)
    ensures forall rel :: rel in listing && IsPyFile(rel) ==> root + rel in Files(root, PyListing(listing))
    ensures forall f :: f in Files(root, PyListing(listing)) ==> exists rel :: rel in listing && IsPyFile(rel) && f == root + rel
  {
    var rels := PyListing(listing);
    var files := Files(root, rels);
    forall rel | rel in listing && IsPyFile(rel)
      ensures root + rel in files
    {
      var i :| 0 <= i < |rels| && rels[i] == rel;
      assert files[i] == root + rel;
    }
    forall f | f in files
      ensures exists rel :: rel in listing && IsPyFile(rel) && f == root + rel
    {
      var i :| 0 <= i < |files| && files[i] == f;
      var rel := rels[i];
      assert rel in rels;
      assert rel in listing && IsPyFile(rel) && f == root + rel;
    }
  }

  /**
   * `build_import_graph` given the committed file listing (each entry split at
   * '/') and a parser standing for reading and `ast.parse`.
   */
  function BuildImportGraph(root: Path, listing: seq<Path>, parse: Path -> Result<Module, string>): (r: Result<Graph, PyError>)
    ensures r.Success? <==> forall rel :: rel in listing && IsPyFile(rel) ==> parse(root + rel).Success?
    ensures r.Success? ==> forall rel :: rel in listing && IsPyFile(rel) ==> root + rel in r.value
    ensures r.Success? ==> forall f :: f in r.value ==> exists rel :: rel in listing && IsPyFile(rel) && f == root + rel
  {
    var rels := PyListing(listing);
    var files := Files(root, rels);
    FilesOfListing(root, listing);
    GraphOf(files, BuildModuleMap(ModuleEntries(root, rels)), parse)
  }

  /** Every edge of a built graph ends at a key of the graph: targets come from the same file list. */
  lemma EdgeTargetsAreKeys(root: Path, listing: seq<Path>, parse: Path -> Result<Module, string>, f: Path, t: Path)
    requires BuildImportGraph(root, listing, parse).Success?
    requires f in BuildImportGraph(root, listing, parse).value
    requires t in BuildImportGraph(root, listing, parse).value[f]
    ensures t in BuildImportGraph(root, listing, parse).value
  {
    var rels := PyListing(listing);
    var files := Files(root, rels);
    var entries := ModuleEntries(root, rels);
    var mm := BuildModuleMap(entries);
    var g := GraphOf(files, mm, parse).value;
    assert g == BuildImportGraph(root, listing, parse).value;
    assert g[f] == Edges(parse(f).value.walkedImports, mm);
    var name :| name in AllImportedNames(parse(f).value.walkedImports) && Resolve(name, mm) == Some(t);
    ResolveInMap(name, mm);
    var key :| key in mm && mm[key] == t;
    ModuleMapLastWins(entries, key);
    var j :| LastWithName(entries, key, j) && mm[key] == entries[j].1;
    assert t == files[j];
  }
}
