/**
 * Per-file metadata extraction: signatures, imports, constants, type aliases,
 * functions, classes and the main guard, computed over the abstract syntax
 * tree of `PyAst`.
 */
module AstIndexer {
  import opened Wrappers
  import opened Seqs
  import opened PyAst
  import opened Paths

  datatype Param = Param(name: string, annotation: Option<string>, default: Option<string>)

  datatype Signature = Signature(parameters: seq<Param>, returnType: Option<string>)

  datatype Kind = Absolute | Relative

  datatype ImportRecord = ImportRecord(moduleName: string, identifier: Option<string>, alias: Option<string>, kind: Kind, level: nat)

  datatype ConstantRecord = ConstantRecord(name: string, value: Const)

  datatype AliasRecord = AliasRecord(name: string, definition: string)

  datatype FunctionRecord = FunctionRecord(name: string, signature: Signature, docstring: Option<string>, decorators: seq<string>)

  datatype ClassRecord = ClassRecord(
    name: string,
    bases: seq<string>,
    docstring: Option<string>,
    decorators: seq<string>,
    attributes: seq<ConstantRecord>,
    methods: seq<FunctionRecord>)

  /** The dictionary `index_file` returns, or the error record `ast_index_modules` puts in its place. */
  datatype ModuleInfo =
    | Indexed(
        path: Path,
        docstring: Option<string>,
        imports: seq<ImportRecord>,
        constants: seq<ConstantRecord>,
        typeAliases: seq<AliasRecord>,
        functions: seq<FunctionRecord>,
        classes: seq<ClassRecord>,
        mainGuard: bool)
    | Unindexable(path: Path, error: string)
  {
    /** `meta.get('imports', [])` and friends: an error record has none. */
    function Imports(): seq<ImportRecord> {
      if Indexed? then imports else []
    }

    function Classes(): seq<ClassRecord> {
      if Indexed? then classes else []
    }

    function Aliases(): seq<AliasRecord> {
      if Indexed? then typeAliases else []
    }
  }

  // ---------------------------------------------------------------- signatures

  function UnparseOpt(e: Option<Expr>): Option<string> {
    match e
    case Some(x) => Some(Unparse(x))
    case None => None
  }

  function ParamOf(a: Arg, default: Option<Expr>): Param {
    Param(a.name, UnparseOpt(a.annotation), UnparseOpt(default))
  }

  /** The Python binding rule: the last `|defaults|` of the positional parameters take the defaults, in order. */
  function BoundDefault(positional: nat, defaults: seq<Expr>, j: nat): Option<Expr>
    requires |defaults| <= positional && j < positional
  {
    if j >= positional - |defaults| then Some(defaults[j - (positional - |defaults|)]) else None
  }

  /** `[None] * (len(args) - len(defaults)) + list(defaults)`; a negative repeat count gives an empty list. */
  function PaddedDefaults(n: nat, defaults: seq<Expr>): (r: seq<Option<Expr>>)
    ensures |r| == if n >= |defaults| then n else |defaults|
  {
    var pad := if n >= |defaults| then n - |defaults| else 0;
    seq(pad, _ => None) + seq(|defaults|, i requires 0 <= i < |defaults| => Some(defaults[i]))
  }

  /** `zip(kwonlyargs, kw_defaults)`: stops at the shorter list. */
  function KeywordOnly(a: Arguments): (ps: seq<Param>)
    ensures |ps| == if |a.kwonlyargs| <= |a.kwDefaults| then |a.kwonlyargs| else |a.kwDefaults|
  {
    var n := if |a.kwonlyargs| <= |a.kwDefaults| then |a.kwonlyargs| else |a.kwDefaults|;
    seq(n, i requires 0 <= i < n => ParamOf(a.kwonlyargs[i], a.kwDefaults[i]))
  }

  function Star(prefix: string, a: Option<Arg>): seq<Param> {
    match a
    case Some(x) => [Param(prefix + x.name, UnparseOpt(x.annotation), None)]
    case None => []
  }

  /** Positional parameters, then `*vararg`, then keyword-only ones, then `**kwarg`. */
  function Assemble(positional: seq<Param>, a: Arguments, returnAnnotation: Option<Expr>): Signature {
    Signature(positional + Star("*", a.vararg) + KeywordOnly(a) + Star("**", a.kwarg), UnparseOpt(returnAnnotation))
  }

  /**
   * `get_signature` as written: the padded defaults are zipped against `args`
   * alone although Python's `defaults` also covers `posonlyargs`.
   */
  function GetSignatureAsWritten(a: Arguments, returnAnnotation: Option<Expr>): Signature {
    var padded := PaddedDefaults(|a.args|, a.defaults);
    Assemble(seq(|a.args|, k requires 0 <= k < |a.args| => ParamOf(a.args[k], padded[k])), a, returnAnnotation)
  }

  /** The default Python binds to `args[k]` once `defaults` is aligned to `posonlyargs + args`. */
  function AlignedDefault(a: Arguments, k: nat): Option<Expr>
    requires k < |a.args|
  {
    var offset := k + |a.defaults| - |a.args|;
    if offset >= 0 then Some(a.defaults[offset]) else None
  }

  /**
   * `get_signature` with the defaults aligned to the end of all positional
   * parameters; positional-only parameters stay unlisted, as in the source.
   */
  function GetSignature(a: Arguments, returnAnnotation: Option<Expr>): (sig: Signature)
    ensures |sig.parameters| == |a.args| + |Star("*", a.vararg)| + |KeywordOnly(a)| + |Star("**", a.kwarg)|
    ensures forall k :: 0 <= k < |a.args| ==> sig.parameters[k].name == a.args[k].name
    ensures forall k :: 0 <= k < |a.args| && k < |a.args| - |a.defaults| ==> sig.parameters[k].default == None
    ensures forall k :: 0 <= k < |a.args| && k >= |a.args| - |a.defaults| ==>
      sig.parameters[k].default == Some(Unparse(a.defaults[k + |a.defaults| - |a.args|]))
    ensures a.vararg.Some? ==>
      sig.parameters[|a.args|] == Param("*" + a.vararg.value.name, UnparseOpt(a.vararg.value.annotation), None)
    ensures a.kwarg.Some? ==>
      sig.parameters[|sig.parameters| - 1] == Param("**" + a.kwarg.value.name, UnparseOpt(a.kwarg.value.annotation), None)
    ensures sig.returnType.None? <==> returnAnnotation.None?
  {
    Assemble(seq(|a.args|, k requires 0 <= k < |a.args| => ParamOf(a.args[k], AlignedDefault(a, k))), a, returnAnnotation)
  }

  /** Every listed positional parameter carries exactly the default Python binds to it. */
  lemma SignatureDefaultsBound(a: Arguments, returnAnnotation: Option<Expr>, k: nat)
    requires WellFormedArguments(a) && k < |a.args|
    ensures GetSignature(a, returnAnnotation).parameters[k].default
         == UnparseOpt(BoundDefault(|a.posonlyargs| + |a.args|, a.defaults, |a.posonlyargs| + k))
  {
  }

  /** Without positional-only defaults the source's zip agrees with the binding rule. */
  lemma AsWrittenAgreesWithoutPositionalOnlyDefaults(a: Arguments, returnAnnotation: Option<Expr>)
    requires |a.defaults| <= |a.args|
    ensures GetSignatureAsWritten(a, returnAnnotation) == GetSignature(a, returnAnnotation)
  {
    var padded := PaddedDefaults(|a.args|, a.defaults);
    var p1 := seq(|a.args|, k requires 0 <= k < |a.args| => ParamOf(a.args[k], padded[k]));
    var p2 := seq(|a.args|, k requires 0 <= k < |a.args| => ParamOf(a.args[k], AlignedDefault(a, k)));
    assert p1 == p2 by {
      forall k | 0 <= k < |a.args|
        ensures p1[k] == p2[k]
      {
        if k >= |a.args| - |a.defaults| {
          assert padded[k] == Some(a.defaults[k - (|a.args| - |a.defaults|)]);
        }
      }
    }
  }

  /**
   * `def f(a=1, /, b=2)`: the source reports `b`'s default as "1", the
   * default that belongs to the positional-only `a`.
   */
  lemma AsWrittenMisalignsPositionalOnlyDefaults()
    ensures
      var one := Constant(IntConst(1), "1");
      var two := Constant(IntConst(2), "2");
      var a := Arguments([Arg("a", None)], [Arg("b", None)], None, [], [], None, [one, two]);
      && WellFormedArguments(a)
      && GetSignatureAsWritten(a, None).parameters[0] == Param("b", None, Some("1"))
      && GetSignature(a, None).parameters[0] == Param("b", None, Some("2"))
  {
  }

  // ------------------------------------------------------------------ imports

  function AliasRecordOf(node: ImportNode, al: Alias): ImportRecord {
    match node
    case Import(_) => ImportRecord(al.name, None, al.asname, Absolute, 0)
    case ImportFrom(m, _, level) => ImportRecord(ModuleOrEmpty(m), Some(al.name), al.asname, if level > 0 then Relative else Absolute, level)
  }

  /** The records one import node contributes: one per alias, star imports of a from-import skipped. */
  function NodeRecords(node: ImportNode): seq<ImportRecord> {
    match node
    case Import(names) => seq(|names|, i requires 0 <= i < |names| => AliasRecordOf(node, names[i]))
    case ImportFrom(_, names, _) => FromRecords(node, names)
  }

  function FromRecords(node: ImportNode, names: seq<Alias>): seq<ImportRecord> {
    if names == [] then []
    else (if names[0].name == "*" then [] else [AliasRecordOf(node, names[0])]) + FromRecords(node, names[1..])
  }

  function ImportRecords(nodes: seq<ImportNode>): seq<ImportRecord> {
    Flatten(seq(|nodes|, i requires 0 <= i < |nodes| => NodeRecords(nodes[i])))
  }

  lemma {:induction false} FromRecordsMembership(node: ImportNode, names: seq<Alias>, r: ImportRecord)
    ensures r in FromRecords(node, names) <==> exists al :: al in names && al.name != "*" && r == AliasRecordOf(node, al)
  {
    if names != [] {
      FromRecordsMembership(node, names[1..], r);
      assert forall al :: al in names <==> al == names[0] || al in names[1..];
    }
  }

  /** Which records the file's import nodes produce, in both directions. */
  lemma ImportRecordsMembership(nodes: seq<ImportNode>, r: ImportRecord)
    ensures r in ImportRecords(nodes) <==>
      exists i, al :: 0 <= i < |nodes| && al in nodes[i].names && r == AliasRecordOf(nodes[i], al)
                      && (nodes[i].ImportFrom? ==> al.name != "*")
  {
    var pieces := seq(|nodes|, i requires 0 <= i < |nodes| => NodeRecords(nodes[i]));
    FlattenMembership(pieces, r);
    forall i | 0 <= i < |nodes|
      ensures r in pieces[i] <==> exists al :: al in nodes[i].names && r == AliasRecordOf(nodes[i], al)
                                              && (nodes[i].ImportFrom? ==> al.name != "*")
    {
      match nodes[i]
      case Import(names) =>
        PlainRecordsMembership(nodes[i], r);
      case ImportFrom(_, names, _) =>
        FromRecordsMembership(nodes[i], names, r);
    }
  }

  lemma PlainRecordsMembership(node: ImportNode, r: ImportRecord)
    requires node.Import?
    ensures r in NodeRecords(node) <==> exists al :: al in node.names && r == AliasRecordOf(node, al)
  {
    var recs := NodeRecords(node);
    if r in recs {
      var j :| 0 <= j < |recs| && recs[j] == r;
      assert node.names[j] in node.names;
    }
    if al :| al in node.names && r == AliasRecordOf(node, al) {
      var j :| 0 <= j < |node.names| && node.names[j] == al;
      assert recs[j] == r;
    }
  }

  /** Classification of every import record: plain imports are absolute at level 0 with no identifier, from-imports are relative exactly when their level is positive. */
  lemma ImportRecordsClassified(nodes: seq<ImportNode>, r: ImportRecord)
    requires r in ImportRecords(nodes)
    ensures r.identifier.None? ==> r.kind == Absolute && r.level == 0
    ensures r.identifier.Some? ==> r.identifier.value != "*" && (r.kind == Relative <==> r.level > 0)
  {
    var pieces := seq(|nodes|, i requires 0 <= i < |nodes| => NodeRecords(nodes[i]));
    FlattenMembership(pieces, r);
    var i :| 0 <= i < |pieces| && r in pieces[i];
    match nodes[i]
    case Import(names) =>
      var j :| 0 <= j < |names| && pieces[i][j] == r;
    case ImportFrom(_, names, _) =>
      FromRecordsMembership(nodes[i], names, r);
  }

  // ----------------------------------------------------- constants and aliases

  function NameTargets(targets: seq<Expr>): seq<string> {
    if targets == [] then []
    else (if targets[0].Name? then [targets[0].id] else []) + NameTargets(targets[1..])
  }

  /** The constants one top-level statement contributes. */
  function ConstantsOf(s: Stmt): seq<ConstantRecord> {
    match s
    case Assign(targets, value) =>
      if value.Constant? then
        var names := NameTargets(targets);
        seq(|names|, i requires 0 <= i < |names| => ConstantRecord(names[i], value.value))
      else []
    case _ => []
  }

  /** The type aliases one top-level statement contributes. */
  function AliasesOf(s: Stmt): seq<AliasRecord> {
    match s
    case Assign(targets, value) =>
      if value.Constant? then []
      else
        var names := NameTargets(targets);
        seq(|names|, i requires 0 <= i < |names| => AliasRecord(names[i], Unparse(value)))
    case AnnAssign(target, annotation, _) =>
      if target.Name? then [AliasRecord(target.id, Unparse(annotation))] else []
    case _ => []
  }

  /** A top-level assignment lands in exactly one of the two lists, one record per named target. */
  lemma AssignSplit(s: Stmt)
    requires s.Assign?
    ensures ConstantsOf(s) == [] || AliasesOf(s) == []
    ensures |ConstantsOf(s)| + |AliasesOf(s)| == |NameTargets(s.targets)|
    ensures ConstantsOf(s) != [] ==> s.value.Constant?
    ensures AliasesOf(s) != [] ==> !s.value.Constant?
  {
  }

  function Constants(body: seq<Stmt>): seq<ConstantRecord> {
    Flatten(seq(|body|, i requires 0 <= i < |body| => ConstantsOf(body[i])))
  }

  function TypeAliases(body: seq<Stmt>): seq<AliasRecord> {
    Flatten(seq(|body|, i requires 0 <= i < |body| => AliasesOf(body[i])))
  }

  lemma {:induction false} NameTargetsMembership(targets: seq<Expr>, n: string)
    ensures n in NameTargets(targets) <==> Name(n) in targets
  {
    if targets != [] {
      NameTargetsMembership(targets[1..], n);
      assert forall e :: e in targets <==> e == targets[0] || e in targets[1..];
    }
  }

  /** A name is recorded as a constant exactly when some top-level assignment of a constant targets it. */
  lemma ConstantsMembership(body: seq<Stmt>, c: ConstantRecord)
    ensures c in Constants(body) <==>
      exists i :: 0 <= i < |body| && body[i].Assign? && body[i].value.Constant?
                  && Name(c.name) in body[i].targets && c.value == body[i].value.value
  {
    var pieces := seq(|body|, i requires 0 <= i < |body| => ConstantsOf(body[i]));
    FlattenMembership(pieces, c);
    forall i | 0 <= i < |body|
      ensures c in pieces[i] <==> body[i].Assign? && body[i].value.Constant?
                                  && Name(c.name) in body[i].targets && c.value == body[i].value.value
    {
      if body[i].Assign? && body[i].value.Constant? {
        var names := NameTargets(body[i].targets);
        NameTargetsMembership(body[i].targets, c.name);
        if c in pieces[i] {
          var j :| 0 <= j < |names| && pieces[i][j] == c;
        }
        if c.name in names && c.value == body[i].value.value {
          var j :| 0 <= j < |names| && names[j] == c.name;
          assert pieces[i][j] == c;
        }
      }
    }
  }

  // ------------------------------------------------------ functions and classes

  /** How a `def`'s arguments become its signature: the source's `get_signature` or the corrected one. */
  type SignatureRule = (Arguments, Option<Expr>) -> Signature

  function FunctionsOf(s: Stmt, sigOf: SignatureRule): seq<FunctionRecord> {
    match s
    case FunctionDef(name, args, ret, doc, decorators) =>
      [FunctionRecord(name, sigOf(args, ret), doc, UnparseAll(decorators))]
    case _ => []
  }

  function UnparseAll(es: seq<Expr>): (r: seq<string>)
    ensures |r| == |es|
  {
    seq(|es|, i requires 0 <= i < |es| => Unparse(es[i]))
  }

  function Functions(body: seq<Stmt>, sigOf: SignatureRule): seq<FunctionRecord> {
    Flatten(seq(|body|, i requires 0 <= i < |body| => FunctionsOf(body[i], sigOf)))
  }

  function ClassesOf(s: Stmt, sigOf: SignatureRule): seq<ClassRecord> {
    match s
    case ClassDef(name, bases, doc, decorators, body) =>
      [ClassRecord(name, UnparseAll(bases), doc, UnparseAll(decorators), Constants(body), Functions(body, sigOf))]
    case _ => []
  }

  function Classes(body: seq<Stmt>, sigOf: SignatureRule): seq<ClassRecord> {
    Flatten(seq(|body|, i requires 0 <= i < |body| => ClassesOf(body[i], sigOf)))
  }

  /** Only plain `def` statements are listed; `async def` ones are skipped. */
  lemma FunctionsAreDefs(body: seq<Stmt>, sigOf: SignatureRule, f: FunctionRecord)
    ensures f in Functions(body, sigOf) <==>
      exists i :: 0 <= i < |body| && body[i].FunctionDef? && f == FunctionsOf(body[i], sigOf)[0]
  {
    var pieces := seq(|body|, i requires 0 <= i < |body| => FunctionsOf(body[i], sigOf));
    FlattenMembership(pieces, f);
    forall i | 0 <= i < |body|
      ensures f in pieces[i] <==> body[i].FunctionDef? && f == FunctionsOf(body[i], sigOf)[0]
    {
    }
  }

  /** A single statement lists the functions it defines itself. */
  lemma FunctionsOfOne(s: Stmt, sigOf: SignatureRule)
    ensures Functions([s], sigOf) == FunctionsOf(s, sigOf)
  {
    var pieces := seq(1, i requires 0 <= i < 1 => FunctionsOf([s][i], sigOf));
    assert pieces[1..] == [];
    assert Flatten(pieces) == pieces[0] + Flatten(pieces[1..]);
  }

  /** No `def` among these statements gives defaults to positional-only parameters. */
  predicate DefaultsWithinArgs(body: seq<Stmt>) {
    forall i :: 0 <= i < |body| && body[i].FunctionDef? ==> |body[i].args.defaults| <= |body[i].args.args|
  }

  /** Neither a top-level `def` nor a method of a top-level class gives defaults to positional-only parameters. */
  predicate NoPositionalOnlyDefaults(body: seq<Stmt>) {
    DefaultsWithinArgs(body) && forall i :: 0 <= i < |body| && body[i].ClassDef? ==> DefaultsWithinArgs(body[i].body)
  }

  /** Where no positional-only parameter has a default, both signature rules list the same functions. */
  lemma {:induction false} FunctionsAgree(body: seq<Stmt>)
    requires DefaultsWithinArgs(body)
    ensures Functions(body, GetSignatureAsWritten) == Functions(body, GetSignature)
  {
    var p1 := seq(|body|, i requires 0 <= i < |body| => FunctionsOf(body[i], GetSignatureAsWritten));
    var p2 := seq(|body|, i requires 0 <= i < |body| => FunctionsOf(body[i], GetSignature));
    assert p1 == p2 by {
      forall i | 0 <= i < |body|
        ensures p1[i] == p2[i]
      {
        if body[i].FunctionDef? {
          AsWrittenAgreesWithoutPositionalOnlyDefaults(body[i].args, body[i].returnAnnotation);
        }
      }
    }
  }

  /** Where no method has positional-only defaults, both signature rules list the same classes. */
  lemma {:induction false} ClassesAgree(body: seq<Stmt>)
    requires forall i :: 0 <= i < |body| && body[i].ClassDef? ==> DefaultsWithinArgs(body[i].body)
    ensures Classes(body, GetSignatureAsWritten) == Classes(body, GetSignature)
  {
    var p1 := seq(|body|, i requires 0 <= i < |body| => ClassesOf(body[i], GetSignatureAsWritten));
    var p2 := seq(|body|, i requires 0 <= i < |body| => ClassesOf(body[i], GetSignature));
    assert p1 == p2 by {
      forall i | 0 <= i < |body|
        ensures p1[i] == p2[i]
      {
        if body[i].ClassDef? {
          FunctionsAgree(body[i].body);
        }
      }
    }
  }

  /** An `if` at top level whose test is a comparison with the name `__name__` on its left. */
  predicate IsMainGuard(s: Stmt) {
    s.If? && s.test.Compare? && s.test.left == Name("__name__")
  }

  function HasMainGuard(body: seq<Stmt>): (b: bool)
    ensures b <==> exists i :: 0 <= i < |body| && IsMainGuard(body[i])
  {
    if body == [] then false
    else IsMainGuard(body[0]) || (assert forall i :: 0 <= i < |body[1..]| ==> body[1..][i] == body[i + 1]; HasMainGuard(body[1..]))
  }

  /** The entry `index_file` builds for a parsed module, its signatures made by `sigOf`. */
  function IndexWith(path: Path, m: Module, sigOf: SignatureRule): ModuleInfo {
    Indexed(
      path,
      m.docstring,
      ImportRecords(m.walkedImports),
      Constants(m.body),
      TypeAliases(m.body),
      Functions(m.body, sigOf),
      Classes(m.body, sigOf),
      HasMainGuard(m.body))
  }

  /**
   * `index_file` over an already parsed module, as written: every signature
   * comes from the source's `get_signature`.
   */
  function IndexFile(path: Path, m: Module): (info: ModuleInfo)
    ensures info.Indexed? && info.path == path
    ensures info.mainGuard <==> exists i :: 0 <= i < |m.body| && IsMainGuard(m.body[i])
    ensures forall r :: r in info.imports ==>
      (r.identifier.None? ==> r.kind == Absolute && r.level == 0) &&
      (r.identifier.Some? ==> r.identifier.value != "*" && (r.kind == Relative <==> r.level > 0))
    ensures forall i :: 0 <= i < |m.body| && m.body[i].FunctionDef? ==>
      FunctionRecord(m.body[i].name, GetSignatureAsWritten(m.body[i].args, m.body[i].returnAnnotation),
                     m.body[i].docstring, UnparseAll(m.body[i].decorators)) in info.functions
  {
    forall r | r in ImportRecords(m.walkedImports) {
      ImportRecordsClassified(m.walkedImports, r);
    }
    forall i | 0 <= i < |m.body| && m.body[i].FunctionDef?
      ensures FunctionsOf(m.body[i], GetSignatureAsWritten)[0] in Functions(m.body, GetSignatureAsWritten)
    {
      FunctionsAreDefs(m.body, GetSignatureAsWritten, FunctionsOf(m.body[i], GetSignatureAsWritten)[0]);
    }
    IndexWith(path, m, GetSignatureAsWritten)
  }

  /**
   * `index_file` with the corrected `get_signature`: only the signatures of
   * functions and methods differ from the source's entry.
   */
  function IndexFileFixed(path: Path, m: Module): (info: ModuleInfo)
    ensures info.Indexed? && IndexFile(path, m).Indexed?
    ensures info.(functions := [], classes := []) == IndexFile(path, m).(functions := [], classes := [])
    ensures forall i :: 0 <= i < |m.body| && m.body[i].FunctionDef? ==>
      FunctionRecord(m.body[i].name, GetSignature(m.body[i].args, m.body[i].returnAnnotation),
                     m.body[i].docstring, UnparseAll(m.body[i].decorators)) in info.functions
  {
    forall i | 0 <= i < |m.body| && m.body[i].FunctionDef?
      ensures FunctionsOf(m.body[i], GetSignature)[0] in Functions(m.body, GetSignature)
    {
      FunctionsAreDefs(m.body, GetSignature, FunctionsOf(m.body[i], GetSignature)[0]);
    }
    IndexWith(path, m, GetSignature)
  }

  /** Without positional-only defaults the source's entry is the corrected one. */
  lemma IndexFileAgrees(path: Path, m: Module)
    requires NoPositionalOnlyDefaults(m.body)
    ensures IndexFile(path, m) == IndexFileFixed(path, m)
  {
    FunctionsAgree(m.body);
    ClassesAgree(m.body);
  }

  /** For a module holding only `def f(a=1, /, b=2)` the source's entry and the corrected one differ. */
  lemma IndexFileMisaligns()
    ensures
      var a := Arguments([Arg("a", None)], [Arg("b", None)], None, [], [], None,
                         [Constant(IntConst(1), "1"), Constant(IntConst(2), "2")]);
      var m := Module(None, [FunctionDef("f", a, None, None, [])], []);
      && IndexFile(["m.py"], m).functions[0].signature.parameters[0].default == Some("1")
      && IndexFileFixed(["m.py"], m).functions[0].signature.parameters[0].default == Some("2")
  {
    var a := Arguments([Arg("a", None)], [Arg("b", None)], None, [], [], None,
                       [Constant(IntConst(1), "1"), Constant(IntConst(2), "2")]);
    var m := Module(None, [FunctionDef("f", a, None, None, [])], []);
    AsWrittenMisalignsPositionalOnlyDefaults();
    FunctionsOfOne(m.body[0], GetSignatureAsWritten);
    FunctionsOfOne(m.body[0], GetSignature);
  }

  /**
   * `ast_index_modules`: one entry per input path, in input order; a file that
   * cannot be read or parsed yields an error record carrying its path.
   */
  function AstIndexModules(paths: seq<Path>, parse: Path -> Result<Module, string>): (infos: seq<ModuleInfo>)
    ensures |infos| == |paths|
    ensures forall i :: 0 <= i < |paths| ==> infos[i].path == paths[i]
    ensures forall i :: 0 <= i < |paths| ==> (infos[i].Unindexable? <==> parse(paths[i]).Failure?)
    ensures forall i :: 0 <= i < |paths| && parse(paths[i]).Success? ==> infos[i] == IndexFile(paths[i], parse(paths[i]).value)
  {
    seq(|paths|, i requires 0 <= i < |paths| =>
      match parse(paths[i])
      case Success(m) => IndexFile(paths[i], m)
      case Failure(e) => Unindexable(paths[i], e))
  }
}
