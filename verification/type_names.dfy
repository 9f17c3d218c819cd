/**
 * `get_type_names`: the classes and type aliases a module can name in its
 * annotations, and the external modules and identifiers it imports.
 *
 * The module's own classes and aliases come first under their bare names.
 * Then every broadly imported module (`import m`) that resolves inside the
 * repository adds its classes and aliases as `m.Name`, and those that do not
 * resolve are external modules. Then every module imported from
 * specifically (`from m import X`), unless also imported broadly, adds the
 * named classes or aliases when it resolves, and otherwise maps each name
 * to the module as an external identifier.
 */
module TypeNames {
  import opened Wrappers
  import opened Strings
  import opened Paths
  import opened Sets
  import opened Seqs
  import opened AstIndexer
  import opened Resolver

  /** What is kept of a class: its docstring, attributes and methods. */
  datatype ClassInfo = ClassInfo(docstring: Option<string>, attributes: seq<ConstantRecord>, methods: seq<FunctionRecord>)

  function InfoOf(c: ClassRecord): ClassInfo {
    ClassInfo(c.docstring, c.attributes, c.methods)
  }

  /** The four collections `get_type_names` returns. */
  datatype Names = Names(
    classes: map<string, ClassInfo>,
    aliases: map<string, string>,
    externalModules: seq<string>,
    externalIdentifiers: map<string, string>)

  const NoNames: Names := Names(map[], map[], [], map[])

  /** The importing file, the repository root, and the index. */
  datatype Env = Env(target: Path, root: Path, results: seq<ModuleInfo>)

  // ---------------------------------------------------------------------------
  // Lookups

  /** `path_map`: each path to its entry, a later entry with the same path replacing an earlier one. */
  function PathMap(results: seq<ModuleInfo>): (m: map<Path, ModuleInfo>)
    ensures forall p :: p in m ==> m[p].path == p && m[p] in results
    decreases |results|
  {
    if results == [] then map[]
    else PathMap(results[..|results| - 1])[results[|results| - 1].path := results[|results| - 1]]
  }

  /** The path map has exactly the indexed paths as keys. */
  lemma {:induction false} PathMapKeys(results: seq<ModuleInfo>)
    ensures forall p :: p in PathMap(results) <==> p in IndexedPaths(results)
    decreases |results|
  {
    if results != [] {
      var init := results[..|results| - 1];
      PathMapKeys(init);
      forall p | p in IndexedPaths(init) ensures p in IndexedPaths(results) {
        var i :| 0 <= i < |init| && init[i].path == p;
        assert results[i].path == p;
      }
      forall p | p in IndexedPaths(results) && p != results[|results| - 1].path ensures p in IndexedPaths(init) {
        var i :| 0 <= i < |results| && results[i].path == p;
        assert init[i].path == p;
      }
    }
  }

  /** The entry the path map keeps for a path is the last one with that path. */
  lemma {:induction false} PathMapLast(results: seq<ModuleInfo>, i: nat)
    requires i < |results| && forall j :: i < j < |results| ==> results[j].path != results[i].path
    ensures results[i].path in PathMap(results) && PathMap(results)[results[i].path] == results[i]
    decreases |results|
  {
    if i < |results| - 1 {
      PathMapLast(results[..|results| - 1], i);
    }
  }

  /** The import `get_type_names` resolves for a module name: absolute, at level 0. */
  function AbsoluteImport(name: string): ImportRecord {
    ImportRecord(name, None, None, Absolute, 0)
  }

  /** Resolve a module name and fetch its entry; nothing when either step fails. */
  function Lookup(name: string, env: Env): (r: Option<ModuleInfo>)
    ensures r.Some? ==> Resolve(AbsoluteImport(name), env.target, env.root, env.results).Some?
  {
    var p := Resolve(AbsoluteImport(name), env.target, env.root, env.results);
    if p.None? then None
    else if p.value !in PathMap(env.results) then None
    else Some(PathMap(env.results)[p.value])
  }

  /** The second failure test never fires: a resolved path is always in the path map. */
  lemma LookupResolved(name: string, env: Env)
    ensures Lookup(name, env).Some? <==> Resolve(AbsoluteImport(name), env.target, env.root, env.results).Some?
    ensures Lookup(name, env).Some? ==>
              Lookup(name, env).value.path == Resolve(AbsoluteImport(name), env.target, env.root, env.results).value
  {
    PathMapKeys(env.results);
  }

  // ---------------------------------------------------------------------------
  // Writing names into a dictionary

  /** `(name, value)` for each class, in order. */
  function ClassEntries(cs: seq<ClassRecord>): (es: seq<(string, ClassInfo)>)
    ensures |es| == |cs| && forall i :: 0 <= i < |cs| ==> es[i] == (cs[i].name, InfoOf(cs[i]))
  {
    seq(|cs|, i requires 0 <= i < |cs| => (cs[i].name, InfoOf(cs[i])))
  }

  /** `(name, definition)` for each type alias, in order. */
  function AliasEntries(as_: seq<AliasRecord>): (es: seq<(string, string)>)
    ensures |es| == |as_| && forall i :: 0 <= i < |as_| ==> es[i] == (as_[i].name, as_[i].definition)
  {
    seq(|as_|, i requires 0 <= i < |as_| => (as_[i].name, as_[i].definition))
  }

  /** Some entry with a non-empty name is written under `k`. */
  predicate Adds<V>(prefix: string, es: seq<(string, V)>, k: string) {
    exists i :: 0 <= i < |es| && es[i].0 != "" && k == prefix + es[i].0
  }

  /** `for e in es: if e.name: m[prefix + e.name] = e.value`. */
  function AddAll<V>(m: map<string, V>, prefix: string, es: seq<(string, V)>): (r: map<string, V>)
    ensures forall k :: k in r <==> k in m || Adds(prefix, es, k)
    decreases |es|
  {
    if es == [] then m
    else
      var m' := if es[0].0 != "" then m[prefix + es[0].0 := es[0].1] else m;
      var r := AddAll(m', prefix, es[1..]);
      assert forall k :: Adds(prefix, es, k) <==> (es[0].0 != "" && k == prefix + es[0].0) || Adds(prefix, es[1..], k) by {
        forall k | Adds(prefix, es[1..], k) ensures Adds(prefix, es, k) {
          var i :| 0 <= i < |es[1..]| && es[1..][i].0 != "" && k == prefix + es[1..][i].0;
          assert es[i + 1] == es[1..][i];
        }
        forall k | Adds(prefix, es, k) && !(es[0].0 != "" && k == prefix + es[0].0) ensures Adds(prefix, es[1..], k) {
          var i :| 0 <= i < |es| && es[i].0 != "" && k == prefix + es[i].0;
          assert es[1..][i - 1] == es[i];
        }
      }
      r
  }

  /** A name written twice keeps the later value. */
  lemma {:induction false} AddAllLast<V>(m: map<string, V>, prefix: string, es: seq<(string, V)>, i: nat)
    requires i < |es| && es[i].0 != ""
    requires forall j :: i < j < |es| ==> es[j].0 != es[i].0
    ensures prefix + es[i].0 in AddAll(m, prefix, es) && AddAll(m, prefix, es)[prefix + es[i].0] == es[i].1
    decreases |es|
  {
    var m' := if es[0].0 != "" then m[prefix + es[0].0 := es[0].1] else m;
    assert AddAll(m, prefix, es) == AddAll(m', prefix, es[1..]);
    if i == 0 {
      forall j | 0 <= j < |es[1..]| ensures es[1..][j].0 == "" || prefix + es[1..][j].0 != prefix + es[0].0 {
        assert es[1..][j] == es[j + 1];
        PrefixInjective(prefix, es[j + 1].0, es[0].0);
      }
      AddAllUntouched(m', prefix, es[1..], prefix + es[0].0);
    } else {
      AddAllLast(m', prefix, es[1..], i - 1);
    }
  }

  /** The same prefix before different names gives different keys. */
  lemma PrefixInjective(prefix: string, a: string, b: string)
    ensures prefix + a == prefix + b ==> a == b
  {
    assert (prefix + a)[|prefix|..] == a && (prefix + b)[|prefix|..] == b;
  }

  /** A key no entry writes keeps its value. */
  lemma {:induction false} AddAllUntouched<V>(m: map<string, V>, prefix: string, es: seq<(string, V)>, k: string)
    requires k in m && forall j :: 0 <= j < |es| ==> es[j].0 == "" || prefix + es[j].0 != k
    ensures AddAll(m, prefix, es)[k] == m[k]
    decreases |es|
  {
    if es != [] {
      var m' := if es[0].0 != "" then m[prefix + es[0].0 := es[0].1] else m;
      AddAllUntouched(m', prefix, es[1..], k);
    }
  }

  /** `{c['name']: c for c in classes}`: the last class with each name. */
  function ClassMap(cs: seq<ClassRecord>): (m: map<string, ClassRecord>)
    ensures forall x :: x in m ==> m[x].name == x && exists i :: 0 <= i < |cs| && cs[i] == m[x]
    ensures forall i :: 0 <= i < |cs| ==> cs[i].name in m
    decreases |cs|
  {
    if cs == [] then map[]
    else
      var init := ClassMap(cs[..|cs| - 1]);
      assert forall i :: 0 <= i < |cs| - 1 ==> cs[..|cs| - 1][i] == cs[i];
      init[cs[|cs| - 1].name := cs[|cs| - 1]]
  }

  /** `{a['name']: a for a in type_aliases}`, keeping each alias's definition. */
  function AliasMap(as_: seq<AliasRecord>): (m: map<string, string>)
    ensures forall x :: x in m <==> exists i :: 0 <= i < |as_| && as_[i].name == x
    decreases |as_|
  {
    if as_ == [] then map[]
    else
      var init := AliasMap(as_[..|as_| - 1]);
      assert forall i :: 0 <= i < |as_| - 1 ==> as_[..|as_| - 1][i] == as_[i];
      init[as_[|as_| - 1].name := as_[|as_| - 1].definition]
  }

  // ---------------------------------------------------------------------------
  // The imports

  /** `broad_imports`: the modules imported whole. */
  function Broad(imports: seq<ImportRecord>): (b: set<string>)
    ensures forall i :: 0 <= i < |imports| && imports[i].identifier.None? ==> imports[i].moduleName in b
    ensures forall x :: x in b ==> exists i :: 0 <= i < |imports| && imports[i].identifier.None? && imports[i].moduleName == x
  {
    set i | 0 <= i < |imports| && imports[i].identifier.None? :: imports[i].moduleName
  }

  /** The names imported from `name` by `from name import ...`. */
  function Idents(imports: seq<ImportRecord>, name: string): (ids: set<string>)
    ensures forall x :: x in ids <==> exists i :: 0 <= i < |imports| && imports[i].moduleName == name && imports[i].identifier == Some(x)
  {
    set i | 0 <= i < |imports| && imports[i].moduleName == name && imports[i].identifier.Some? :: imports[i].identifier.value
  }

  /** The modules of the specific imports, each once, in order of first appearance (a dict's key order). */
  function FirstAppearance(imports: seq<ImportRecord>): (mods: seq<string>)
    ensures Distinct(mods)
    ensures forall x :: x in Elems(mods) <==> exists i :: 0 <= i < |imports| && imports[i].identifier.Some? && imports[i].moduleName == x
    decreases |imports|
  {
    if imports == [] then []
    else
      var init := FirstAppearance(imports[..|imports| - 1]);
      var last := imports[|imports| - 1];
      assert forall i :: 0 <= i < |imports| - 1 ==> imports[..|imports| - 1][i] == imports[i];
      if last.identifier.None? || last.moduleName in Elems(init) then init
      else
        assert Elems(init + [last.moduleName]) == Elems(init) + {last.moduleName};
        assert forall j :: 0 <= j < |init| ==> (init + [last.moduleName])[j] == init[j];
        init + [last.moduleName]
  }

  /** Keep the elements of `xs` not in `drop`, in order. */
  function Without(xs: seq<string>, drop: set<string>): (r: seq<string>)
    ensures forall x :: x in Elems(r) <==> x in Elems(xs) && x !in drop
    ensures Distinct(xs) ==> Distinct(r)
    decreases |xs|
  {
    if xs == [] then []
    else
      var rest := Without(xs[1..], drop);
      assert Elems(xs) == {xs[0]} + Elems(xs[1..]);
      if xs[0] in drop then rest
      else
        assert Elems([xs[0]] + rest) == {xs[0]} + Elems(rest);
        assert Distinct(xs) ==> Distinct(xs[1..]) && xs[0] !in Elems(xs[1..]) by {
          if Distinct(xs) {
            assert forall i, j :: 0 <= i < j < |xs| - 1 ==> xs[1..][i] == xs[i + 1] && xs[1..][j] == xs[j + 1];
          }
        }
        assert Distinct(xs) ==> Distinct([xs[0]] + rest) by {
          if Distinct(xs) { DistinctCons(xs[0], rest); }
        }
        [xs[0]] + rest
  }

  /** The keys of `specific_imports` once the broadly imported modules are deleted. */
  function SpecificMods(imports: seq<ImportRecord>): (mods: seq<string>)
    ensures Distinct(mods)
    ensures forall x :: x in Elems(mods) <==> x !in Broad(imports) && exists i :: 0 <= i < |imports| && imports[i].identifier.Some? && imports[i].moduleName == x
  {
    Without(FirstAppearance(imports), Broad(imports))
  }

  // ---------------------------------------------------------------------------
  // The two loops

  /** What the loops build: classes, aliases, the external module set and the external identifiers. */
  datatype Acc = Acc(classes: map<string, ClassInfo>, aliases: map<string, string>, external: set<string>, identifiers: map<string, string>)

  /** The entry a module name resolves to, if any: `Lookup` with the environment fixed. */
  type Look = string -> Option<ModuleInfo>

  function LookIn(env: Env): (look: Look)
    ensures forall x :: look(x) == Lookup(x, env)
  {
    x => Lookup(x, env)
  }

  /** A broadly imported module's contributions under `name.`. */
  predicate BroadClass(name: string, look: Look, k: string) {
    look(name).Some? && Adds(name + ".", ClassEntries(look(name).value.Classes()), k)
  }

  predicate BroadAlias(name: string, look: Look, k: string) {
    look(name).Some? && Adds(name + ".", AliasEntries(look(name).value.Aliases()), k)
  }

  /** One pass of the broad loop. */
  function BroadStep(acc: Acc, name: string, look: Look): (r: Acc)
    ensures r.identifiers == acc.identifiers
    ensures r.external == if look(name).None? then acc.external + {name} else acc.external
    ensures forall k :: k in r.classes <==> k in acc.classes || BroadClass(name, look, k)
    ensures forall k :: k in r.aliases <==> k in acc.aliases || BroadAlias(name, look, k)
  {
    match look(name)
    case None => acc.(external := acc.external + {name})
    case Some(meta) =>
      acc.(classes := AddAll(acc.classes, name + ".", ClassEntries(meta.Classes())),
           aliases := AddAll(acc.aliases, name + ".", AliasEntries(meta.Aliases())))
  }

  /** The broad loop over the modules in `names`. */
  function BroadLoop(acc: Acc, names: seq<string>, look: Look): (r: Acc)
    ensures r.identifiers == acc.identifiers
    decreases |names|
  {
    if names == [] then acc else BroadLoop(BroadStep(acc, names[0], look), names[1..], look)
  }

  /** The broad loop adds exactly the modules in `names` that do not resolve to the external set. */
  lemma {:induction false} BroadLoopExternal(acc: Acc, names: seq<string>, look: Look, x: string)
    ensures x in BroadLoop(acc, names, look).external <==> x in acc.external || (x in names && look(x).None?)
    decreases |names|
  {
    if names != [] {
      BroadLoopExternal(BroadStep(acc, names[0], look), names[1..], look, x);
      assert x in names <==> x == names[0] || x in names[1..];
    }
  }

  /** A class key after the broad loop was there before or comes from one of the resolved modules. */
  lemma {:induction false} BroadLoopClasses(acc: Acc, names: seq<string>, look: Look, k: string)
    ensures k in BroadLoop(acc, names, look).classes <==> k in acc.classes || exists x :: x in names && BroadClass(x, look, k)
    decreases |names|
  {
    if names != [] {
      BroadLoopClasses(BroadStep(acc, names[0], look), names[1..], look, k);
      assert forall x :: x in names <==> x == names[0] || x in names[1..];
    }
  }

  /** The same for alias keys. */
  lemma {:induction false} BroadLoopAliases(acc: Acc, names: seq<string>, look: Look, k: string)
    ensures k in BroadLoop(acc, names, look).aliases <==> k in acc.aliases || exists x :: x in names && BroadAlias(x, look, k)
    decreases |names|
  {
    if names != [] {
      BroadLoopAliases(BroadStep(acc, names[0], look), names[1..], look, k);
      assert forall x :: x in names <==> x == names[0] || x in names[1..];
    }
  }

  /** A specifically imported module's contributions. */
  predicate SpecificClass(name: string, imports: seq<ImportRecord>, look: Look, k: string) {
    look(name).Some? && k in Idents(imports, name) && k in ClassMap(look(name).value.Classes())
  }

  predicate SpecificAlias(name: string, imports: seq<ImportRecord>, look: Look, k: string) {
    look(name).Some? && k in Idents(imports, name) &&
    k !in ClassMap(look(name).value.Classes()) && k in AliasMap(look(name).value.Aliases())
  }

  predicate SpecificExternal(name: string, imports: seq<ImportRecord>, look: Look, k: string) {
    look(name).None? && k in Idents(imports, name)
  }

  /** One pass of the specific loop. */
  function SpecificStep(acc: Acc, name: string, imports: seq<ImportRecord>, look: Look): (r: Acc)
    ensures r.external == acc.external
    ensures forall k :: k in r.classes <==> k in acc.classes || SpecificClass(name, imports, look, k)
    ensures forall k :: k in r.aliases <==> k in acc.aliases || SpecificAlias(name, imports, look, k)
    ensures forall k :: k in r.identifiers <==> k in acc.identifiers || SpecificExternal(name, imports, look, k)
    ensures forall k :: k in r.identifiers ==>
              (SpecificExternal(name, imports, look, k) && r.identifiers[k] == name) ||
              (!SpecificExternal(name, imports, look, k) && r.identifiers[k] == acc.identifiers[k])
  {
    var idents := Idents(imports, name);
    match look(name)
    case None => acc.(identifiers := acc.identifiers + map x | x in idents :: name)
    case Some(meta) =>
      var cm := ClassMap(meta.Classes());
      var am := AliasMap(meta.Aliases());
      acc.(classes := acc.classes + map x | x in idents && x in cm :: InfoOf(cm[x]),
           aliases := acc.aliases + map x | x in idents && x !in cm && x in am :: am[x])
  }

  /** The specific loop over the modules in `names`. */
  function SpecificLoop(acc: Acc, names: seq<string>, imports: seq<ImportRecord>, look: Look): (r: Acc)
    ensures r.external == acc.external
    decreases |names|
  {
    if names == [] then acc else SpecificLoop(SpecificStep(acc, names[0], imports, look), names[1..], imports, look)
  }

  /** A class key after the specific loop was there before or was imported by name from a resolved module. */
  lemma {:induction false} SpecificLoopClasses(acc: Acc, names: seq<string>, imports: seq<ImportRecord>, look: Look, k: string)
    ensures k in SpecificLoop(acc, names, imports, look).classes <==>
              k in acc.classes || exists x :: x in names && SpecificClass(x, imports, look, k)
    decreases |names|
  {
    if names != [] {
      SpecificLoopClasses(SpecificStep(acc, names[0], imports, look), names[1..], imports, look, k);
      assert forall x :: x in names <==> x == names[0] || x in names[1..];
    }
  }

  /** The same for alias keys. */
  lemma {:induction false} SpecificLoopAliases(acc: Acc, names: seq<string>, imports: seq<ImportRecord>, look: Look, k: string)
    ensures k in SpecificLoop(acc, names, imports, look).aliases <==>
              k in acc.aliases || exists x :: x in names && SpecificAlias(x, imports, look, k)
    decreases |names|
  {
    if names != [] {
      SpecificLoopAliases(SpecificStep(acc, names[0], imports, look), names[1..], imports, look, k);
      assert forall x :: x in names <==> x == names[0] || x in names[1..];
    }
  }

  /**
   * An external identifier after the specific loop was there before, or was
   * imported by name from a module that does not resolve; in the latter
   * case it maps to such a module.
   */
  lemma {:induction false} SpecificLoopIdentifiers(acc: Acc, names: seq<string>, imports: seq<ImportRecord>, look: Look, k: string)
    ensures k in SpecificLoop(acc, names, imports, look).identifiers <==>
              k in acc.identifiers || exists x :: x in names && SpecificExternal(x, imports, look, k)
    ensures k in SpecificLoop(acc, names, imports, look).identifiers ==>
              (k in acc.identifiers && SpecificLoop(acc, names, imports, look).identifiers[k] == acc.identifiers[k]) ||
              (SpecificLoop(acc, names, imports, look).identifiers[k] in names &&
               SpecificExternal(SpecificLoop(acc, names, imports, look).identifiers[k], imports, look, k))
    decreases |names|
  {
    if names != [] {
      SpecificLoopIdentifiers(SpecificStep(acc, names[0], imports, look), names[1..], imports, look, k);
      assert forall x :: x in names <==> x == names[0] || x in names[1..];
    }
  }

  // ---------------------------------------------------------------------------
  // get_type_names

  /** The module's own classes and aliases, under their bare names. */
  function Local(meta: ModuleInfo): (acc: Acc)
    ensures acc.external == {} && acc.identifiers == map[]
    ensures forall k :: k in acc.classes <==> Adds("", ClassEntries(meta.Classes()), k)
    ensures forall k :: k in acc.aliases <==> Adds("", AliasEntries(meta.Aliases()), k)
  {
    Acc(AddAll(map[], "", ClassEntries(meta.Classes())), AddAll(map[], "", AliasEntries(meta.Aliases())), {}, map[])
  }

  /** Both loops, from the local names, with the broad modules in the set's iteration order. */
  ghost function Loops(meta: ModuleInfo, look: Look): Acc {
    var imports := meta.Imports();
    SpecificLoop(BroadLoop(Local(meta), Enumerate(Broad(imports)), look), SpecificMods(imports), imports, look)
  }

  /** `get_type_names(target_module_path, ast_results, repo_root)`. */
  ghost function GetTypeNames(target: Path, results: seq<ModuleInfo>, root: Path): (r: Names)
    ensures target !in IndexedPaths(results) ==> r == NoNames
    ensures target in IndexedPaths(results) ==> SortedStrings(r.externalModules)
  {
    PathMapKeys(results);
    var pm := PathMap(results);
    if target !in pm then NoNames
    else
      var acc := Loops(pm[target], LookIn(Env(target, root, results)));
      Names(acc.classes, acc.aliases, Sort(Enumerate(acc.external)), acc.identifiers)
  }

  // ---------------------------------------------------------------------------
  // Properties

  /** The entry of an indexed file: the last index entry with its path. */
  function EntryOf(target: Path, results: seq<ModuleInfo>): (e: ModuleInfo)
    requires target in IndexedPaths(results)
    ensures e.path == target && e in results
  {
    PathMapKeys(results);
    PathMap(results)[target]
  }

  /** The loops' result for an indexed file. */
  lemma Unfold(target: Path, results: seq<ModuleInfo>, root: Path)
    requires target in IndexedPaths(results)
    ensures GetTypeNames(target, results, root).classes == Loops(EntryOf(target, results), LookIn(Env(target, root, results))).classes
    ensures GetTypeNames(target, results, root).aliases == Loops(EntryOf(target, results), LookIn(Env(target, root, results))).aliases
    ensures GetTypeNames(target, results, root).externalIdentifiers == Loops(EntryOf(target, results), LookIn(Env(target, root, results))).identifiers
    ensures GetTypeNames(target, results, root).externalModules == Sort(Enumerate(Loops(EntryOf(target, results), LookIn(Env(target, root, results))).external))
  {
    PathMapKeys(results);
  }

  /** A member of a set's enumeration is a member of the set. */
  lemma EnumerateHas<T>(s: set<T>, x: T)
    ensures x in Enumerate(s) <==> x in s
  {
    EnumerateSpec(s);
    assert x in Elems(Enumerate(s)) <==> x in Enumerate(s);
  }

  /**
   * The external modules are, in sorted order, exactly the broadly imported
   * modules that do not resolve inside the repository.
   */
  lemma ExternalModules(target: Path, results: seq<ModuleInfo>, root: Path, x: string)
    requires target in IndexedPaths(results)
    ensures SortedStrings(GetTypeNames(target, results, root).externalModules)
    ensures x in GetTypeNames(target, results, root).externalModules <==>
              x in Broad(EntryOf(target, results).Imports()) && Resolve(AbsoluteImport(x), target, root, results).None?
  {
    var meta := EntryOf(target, results);
    var env := Env(target, root, results);
    var broad := Broad(meta.Imports());
    Unfold(target, results, root);
    EnumerateHas(broad, x);
    BroadLoopExternal(Local(meta), Enumerate(broad), LookIn(env), x);
    LookupResolved(x, env);
    var ext := Loops(meta, LookIn(env)).external;
    EnumerateHas(ext, x);
    assert x in multiset(Sort(Enumerate(ext))) <==> x in multiset(Enumerate(ext));
  }

  /** Class keys of the two loops, for the entry `meta`. */
  lemma LoopsClasses(meta: ModuleInfo, look: Look, k: string)
    ensures k in Loops(meta, look).classes <==>
              Adds("", ClassEntries(meta.Classes()), k) ||
              (exists x :: x in Broad(meta.Imports()) && BroadClass(x, look, k)) ||
              (exists x :: x in SpecificMods(meta.Imports()) && SpecificClass(x, meta.Imports(), look, k))
  {
    var broad := Enumerate(Broad(meta.Imports()));
    forall x ensures x in broad <==> x in Broad(meta.Imports()) {
      EnumerateHas(Broad(meta.Imports()), x);
    }
    BroadLoopClasses(Local(meta), broad, look, k);
    SpecificLoopClasses(BroadLoop(Local(meta), broad, look), SpecificMods(meta.Imports()), meta.Imports(), look, k);
  }

  /** Alias keys of the two loops. */
  lemma LoopsAliases(meta: ModuleInfo, look: Look, k: string)
    ensures k in Loops(meta, look).aliases <==>
              Adds("", AliasEntries(meta.Aliases()), k) ||
              (exists x :: x in Broad(meta.Imports()) && BroadAlias(x, look, k)) ||
              (exists x :: x in SpecificMods(meta.Imports()) && SpecificAlias(x, meta.Imports(), look, k))
  {
    var broad := Enumerate(Broad(meta.Imports()));
    forall x ensures x in broad <==> x in Broad(meta.Imports()) {
      EnumerateHas(Broad(meta.Imports()), x);
    }
    BroadLoopAliases(Local(meta), broad, look, k);
    SpecificLoopAliases(BroadLoop(Local(meta), broad, look), SpecificMods(meta.Imports()), meta.Imports(), look, k);
  }

  /** External identifiers of the two loops. */
  lemma LoopsIdentifiers(meta: ModuleInfo, look: Look, k: string)
    ensures k in Loops(meta, look).identifiers <==>
              exists x :: x in SpecificMods(meta.Imports()) && SpecificExternal(x, meta.Imports(), look, k)
    ensures k in Loops(meta, look).identifiers ==>
              Loops(meta, look).identifiers[k] in SpecificMods(meta.Imports()) &&
              SpecificExternal(Loops(meta, look).identifiers[k], meta.Imports(), look, k)
  {
    var broad := Enumerate(Broad(meta.Imports()));
    SpecificLoopIdentifiers(BroadLoop(Local(meta), broad, look), SpecificMods(meta.Imports()), meta.Imports(), look, k);
  }

  /**
   * A class name is available exactly when the module defines a class of
   * that name, or it is `m.Name` for a class `Name` of a broadly imported
   * module `m` that resolves, or it is imported by name from a resolving
   * module (not also imported broadly) that defines such a class.
   */
  lemma ClassKeys(target: Path, results: seq<ModuleInfo>, root: Path, k: string)
    requires target in IndexedPaths(results)
    ensures k in GetTypeNames(target, results, root).classes <==>
              Adds("", ClassEntries(EntryOf(target, results).Classes()), k) ||
              (exists x :: x in Broad(EntryOf(target, results).Imports()) && BroadClass(x, LookIn(Env(target, root, results)), k)) ||
              (exists x :: x in SpecificMods(EntryOf(target, results).Imports()) &&
                           SpecificClass(x, EntryOf(target, results).Imports(), LookIn(Env(target, root, results)), k))
  {
    Unfold(target, results, root);
    LoopsClasses(EntryOf(target, results), LookIn(Env(target, root, results)), k);
  }

  /** The same for type aliases; a name imported by name counts as an alias only when no class has it. */
  lemma AliasKeys(target: Path, results: seq<ModuleInfo>, root: Path, k: string)
    requires target in IndexedPaths(results)
    ensures k in GetTypeNames(target, results, root).aliases <==>
              Adds("", AliasEntries(EntryOf(target, results).Aliases()), k) ||
              (exists x :: x in Broad(EntryOf(target, results).Imports()) && BroadAlias(x, LookIn(Env(target, root, results)), k)) ||
              (exists x :: x in SpecificMods(EntryOf(target, results).Imports()) &&
                           SpecificAlias(x, EntryOf(target, results).Imports(), LookIn(Env(target, root, results)), k))
  {
    Unfold(target, results, root);
    LoopsAliases(EntryOf(target, results), LookIn(Env(target, root, results)), k);
  }

  /**
   * A name is an external identifier exactly when it is imported by name
   * from a module that does not resolve and is not also imported broadly;
   * it maps to such a module.
   */
  lemma ExternalIdentifiers(target: Path, results: seq<ModuleInfo>, root: Path, k: string)
    requires target in IndexedPaths(results)
    ensures k in GetTypeNames(target, results, root).externalIdentifiers <==>
              exists x :: x in SpecificMods(EntryOf(target, results).Imports()) &&
                          SpecificExternal(x, EntryOf(target, results).Imports(), LookIn(Env(target, root, results)), k)
    ensures k in GetTypeNames(target, results, root).externalIdentifiers ==>
              var x := GetTypeNames(target, results, root).externalIdentifiers[k];
              x !in Broad(EntryOf(target, results).Imports()) && Resolve(AbsoluteImport(x), target, root, results).None? &&
              k in Idents(EntryOf(target, results).Imports(), x)
  {
    var env := Env(target, root, results);
    var meta := EntryOf(target, results);
    Unfold(target, results, root);
    LoopsIdentifiers(meta, LookIn(env), k);
    if k in GetTypeNames(target, results, root).externalIdentifiers {
      var x := GetTypeNames(target, results, root).externalIdentifiers[k];
      LookupResolved(x, env);
      assert x in Elems(SpecificMods(meta.Imports()));
    }
  }

  /** A class `Name` of a broadly imported module `m` that resolves is available as `m.Name`. */
  lemma QualifiedClass(target: Path, results: seq<ModuleInfo>, root: Path, x: string, i: nat)
    requires target in IndexedPaths(results)
    requires x in Broad(EntryOf(target, results).Imports())
    requires Lookup(x, Env(target, root, results)).Some?
    requires i < |Lookup(x, Env(target, root, results)).value.Classes()|
    requires Lookup(x, Env(target, root, results)).value.Classes()[i].name != ""
    ensures x + "." + Lookup(x, Env(target, root, results)).value.Classes()[i].name in GetTypeNames(target, results, root).classes
  {
    var env := Env(target, root, results);
    var k := x + "." + Lookup(x, env).value.Classes()[i].name;
    assert ClassEntries(Lookup(x, env).value.Classes())[i].0 == Lookup(x, env).value.Classes()[i].name;
    assert BroadClass(x, LookIn(env), k);
    ClassKeys(target, results, root, k);
  }
}
