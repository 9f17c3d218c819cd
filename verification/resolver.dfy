/**
 * `resolve_imported_module_path`: the file an import names, among the
 * paths of the index entries, or nothing.
 *
 * An absolute import (or any import at level 0) is looked up under the
 * repository root; a relative one under a directory found by climbing from
 * the importing file. Either way the `.py` file is tried before the
 * package's `__init__.py`. `Resolve` climbs as the code does;
 * `ResolveFixed` climbs as Python's import system does, one directory less.
 */
module Resolver {
  import opened Wrappers
  import opened Strings
  import opened Paths
  import opened AstIndexer

  /** `ast_paths`: the path of every entry of the index, failed ones included. */
  function IndexedPaths(results: seq<ModuleInfo>): (paths: set<Path>)
    ensures forall i :: 0 <= i < |results| ==> results[i].path in paths
    ensures forall p :: p in paths ==> exists i :: 0 <= i < |results| && results[i].path == p
  {
    set i | 0 <= i < |results| :: results[i].path
  }

  /** The test that sends an import down the absolute branch. */
  predicate IsAbsoluteBranch(imp: ImportRecord) {
    imp.kind == Absolute || imp.level == 0
  }

  /** The two files tried, in order. */
  datatype Candidates = Candidates(py: Path, init: Path)

  /** `rel.py` and `rel/__init__.py` under `dir`, with the dots of the module name turned into slashes. */
  function ModuleCandidates(dir: Path, base: string): (c: Candidates)
    ensures dir <= c.py && dir <= c.init
    ensures c.init == dir + FromSlashed(ReplaceChar(base, '.', '/')) + ["__init__.py"]
  {
    var rel := ReplaceChar(base, '.', '/');
    Candidates(dir + FromSlashed(rel + ".py"), dir + FromSlashed(rel) + ["__init__.py"])
  }

  /** The candidates of a relative import: with no module name, only the directory's `__init__.py`. */
  function RelativeCandidates(dir: Path, base: string): (c: Candidates)
    ensures dir <= c.py && dir <= c.init
    ensures base == "" ==> c.py == c.init == dir + ["__init__.py"]
  {
    if base != "" then ModuleCandidates(dir, base) else Candidates(dir + ["__init__.py"], dir + ["__init__.py"])
  }

  /** The directory a relative import is looked up in, as written: the file's parent, then `level` more parents. */
  function SearchDir(target: Path, level: nat): (dir: Path)
    ensures dir <= target
    ensures |target| > level ==> |dir| == |target| - level - 1
  {
    Climb(Parent(target), level)
  }

  /** The candidates of an import from the file `target`. */
  function CandidatesFor(imp: ImportRecord, target: Path, root: Path): (c: Candidates)
    ensures IsAbsoluteBranch(imp) ==> c == ModuleCandidates(root, imp.moduleName)
    ensures !IsAbsoluteBranch(imp) ==> c == RelativeCandidates(SearchDir(target, imp.level), imp.moduleName)
  {
    if IsAbsoluteBranch(imp) then ModuleCandidates(root, imp.moduleName)
    else RelativeCandidates(SearchDir(target, imp.level), imp.moduleName)
  }

  /** The first candidate that is indexed. */
  function Choose(c: Candidates, paths: set<Path>): (r: Option<Path>)
    ensures r.Some? ==> r.value in paths && (r.value == c.py || r.value == c.init)
    ensures r.None? <==> c.py !in paths && c.init !in paths
    ensures c.py in paths ==> r == Some(c.py)
  {
    if c.py in paths then Some(c.py)
    else if c.init in paths then Some(c.init)
    else None
  }

  /** `resolve_imported_module_path(imp, target, repo_root, ast_results)`. */
  function Resolve(imp: ImportRecord, target: Path, root: Path, results: seq<ModuleInfo>): (r: Option<Path>)
    ensures r.Some? ==> r.value in IndexedPaths(results)
    ensures r.None? <==> CandidatesFor(imp, target, root).py !in IndexedPaths(results) &&
                         CandidatesFor(imp, target, root).init !in IndexedPaths(results)
    ensures CandidatesFor(imp, target, root).py in IndexedPaths(results) ==> r == Some(CandidatesFor(imp, target, root).py)
  {
    Choose(CandidatesFor(imp, target, root), IndexedPaths(results))
  }

  // ---------------------------------------------------------------------------
  // Properties

  /** The absolute branch looks under the root only: the importing file does not matter. */
  lemma AbsoluteIgnoresTarget(imp: ImportRecord, t1: Path, t2: Path, root: Path, results: seq<ModuleInfo>)
    requires IsAbsoluteBranch(imp)
    ensures Resolve(imp, t1, root, results) == Resolve(imp, t2, root, results)
    ensures Resolve(imp, t1, root, results).Some? ==> root <= Resolve(imp, t1, root, results).value
  {
  }

  /** A relative import is looked up `level + 1` directories above the importing file, whatever the root. */
  lemma RelativeClimbs(imp: ImportRecord, target: Path, root: Path, results: seq<ModuleInfo>)
    requires !IsAbsoluteBranch(imp) && |target| > imp.level
    ensures Resolve(imp, target, root, results).Some? ==>
              target[..|target| - imp.level - 1] <= Resolve(imp, target, root, results).value
    ensures forall root' :: Resolve(imp, target, root', results) == Resolve(imp, target, root, results)
  {
    var dir := SearchDir(target, imp.level);
    assert dir == target[..|target| - imp.level - 1];
  }

  /** `from . import x` and the like can only resolve to a package's `__init__.py`. */
  lemma RelativeEmptyBase(imp: ImportRecord, target: Path, root: Path, results: seq<ModuleInfo>)
    requires !IsAbsoluteBranch(imp) && imp.moduleName == ""
    ensures Resolve(imp, target, root, results).Some? ==>
              Resolve(imp, target, root, results).value == SearchDir(target, imp.level) + ["__init__.py"]
    ensures Resolve(imp, target, root, results).Some? <==> SearchDir(target, imp.level) + ["__init__.py"] in IndexedPaths(results)
  {
  }

  /** With both candidates indexed, the module file wins over the package. */
  lemma PreferModuleFile(imp: ImportRecord, target: Path, root: Path, results: seq<ModuleInfo>)
    requires CandidatesFor(imp, target, root).py in IndexedPaths(results)
    requires CandidatesFor(imp, target, root).init in IndexedPaths(results)
    ensures Resolve(imp, target, root, results) == Some(CandidatesFor(imp, target, root).py)
    ensures CandidatesFor(imp, target, root).py != CandidatesFor(imp, target, root).init ==>
              Resolve(imp, target, root, results) != Some(CandidatesFor(imp, target, root).init)
  {
  }

  // ---------------------------------------------------------------------------
  // The relative search directory, corrected

  /**
   * The directory Python's import system searches for an import with
   * `level` leading dots: the importing file's own package for one dot, and
   * one parent further for each further dot.
   */
  function SearchDirFixed(target: Path, level: nat): (dir: Path)
    ensures dir <= target
    ensures |target| >= level && level >= 1 ==> |dir| == |target| - level
  {
    if level == 0 then Parent(target) else Climb(Parent(target), level - 1)
  }

  /** `resolve_imported_module_path` with the search directory corrected. */
  function ResolveFixed(imp: ImportRecord, target: Path, root: Path, results: seq<ModuleInfo>): (r: Option<Path>)
    ensures r.Some? ==> r.value in IndexedPaths(results)
    ensures IsAbsoluteBranch(imp) ==> r == Resolve(imp, target, root, results)
  {
    var c := if IsAbsoluteBranch(imp) then ModuleCandidates(root, imp.moduleName)
             else RelativeCandidates(SearchDirFixed(target, imp.level), imp.moduleName);
    Choose(c, IndexedPaths(results))
  }

  /** A plain name with no separator is a single path component. */
  lemma FromSlashedPlain(x: string)
    requires x != "" && x != "." && '/' !in x
    ensures FromSlashed(x) == [x]
  {
    BeforeAbsent(x, '/');
    assert Split(x, '/') == [x];
  }

  /** A name without dots is not changed by turning dots into slashes. */
  lemma ReplaceAbsent(x: string)
    requires '.' !in x
    ensures ReplaceChar(x, '.', '/') == x
  {
    assert forall i :: 0 <= i < |x| ==> x[i] != '.';
  }

  /**
   * `from .b import X` in `pkg/a.py` names `pkg/b.py`. The corrected
   * lookup finds it whenever it is indexed; the lookup as written never
   * returns it, because it searches the directory above `pkg`.
   */
  lemma SiblingImport(imp: ImportRecord, target: Path, root: Path, results: seq<ModuleInfo>)
    requires imp.kind == Relative && imp.level == 1
    requires imp.moduleName != "" && imp.moduleName != "__init__" && '.' !in imp.moduleName && '/' !in imp.moduleName
    requires |target| >= 2
    ensures Resolve(imp, target, root, results) != Some(Parent(target) + [imp.moduleName + ".py"])
    ensures Parent(target) + [imp.moduleName + ".py"] in IndexedPaths(results) ==>
              ResolveFixed(imp, target, root, results) == Some(Parent(target) + [imp.moduleName + ".py"])
  {
    var name := imp.moduleName;
    ReplaceAbsent(name);
    assert '/' !in name + ".py" && (name + ".py")[|name|] == '.';
    FromSlashedPlain(name + ".py");
    FromSlashedPlain(name);
    var sibling := Parent(target) + [name + ".py"];
    var c := CandidatesFor(imp, target, root);
    assert c.py == SearchDir(target, 1) + [name + ".py"];
    assert c.init == SearchDir(target, 1) + [name, "__init__.py"];
    assert |c.py| == |target| - 1 && |sibling| == |target|;
    assert c.init[|c.init| - 1] == "__init__.py" && sibling[|sibling| - 1] == name + ".py";
    assert (name + ".py")[..|name|] == name && "__init__.py"[..8] == "__init__";
  }
}
