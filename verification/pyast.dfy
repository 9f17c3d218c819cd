/**
 * An abstract Python syntax tree: only the node shapes the indexer and the
 * graph builder inspect are distinguished. Every expression carries the text
 * `ast.unparse` would print for it, so unparsing is a field read.
 */
module PyAst {
  import opened Wrappers

  /** The payload of an `ast.Constant`. */
  datatype Const = IntConst(i: int) | StrConst(s: string) | BoolConst(b: bool) | NoneConst | OtherConst(repr: string)

  datatype Expr =
    | Constant(value: Const, src: string)
    | Name(id: string)
    | Compare(left: Expr, src: string)
    | OtherExpr(src: string)

  /** `ast.unparse(e)`. */
  function Unparse(e: Expr): string {
    match e
    case Constant(_, src) => src
    case Name(id) => id
    case Compare(_, src) => src
    case OtherExpr(src) => src
  }

  datatype Arg = Arg(name: string, annotation: Option<Expr>)

  /**
   * `ast.arguments`. Python's `defaults` belongs to the parameters that can be
   * passed positionally, `posonlyargs + args`, and is aligned to their end;
   * `kwDefaults` runs parallel to `kwonlyargs`, `None` meaning "no default".
   */
  datatype Arguments = Arguments(
    posonlyargs: seq<Arg>,
    args: seq<Arg>,
    vararg: Option<Arg>,
    kwonlyargs: seq<Arg>,
    kwDefaults: seq<Option<Expr>>,
    kwarg: Option<Arg>,
    defaults: seq<Expr>)

  /** The shape the Python parser guarantees for an argument list. */
  predicate WellFormedArguments(a: Arguments) {
    && |a.defaults| <= |a.posonlyargs| + |a.args|
    && |a.kwDefaults| == |a.kwonlyargs|
  }

  datatype Alias = Alias(name: string, asname: Option<string>)

  datatype ImportNode =
    | Import(names: seq<Alias>)
    | ImportFrom(fromModule: Option<string>, names: seq<Alias>, level: nat)

  /** `node.module or ''`. */
  function ModuleOrEmpty(m: Option<string>): string {
    match m
    case Some(s) => s
    case None => ""
  }

  datatype Stmt =
    | Assign(targets: seq<Expr>, value: Expr)
    | AnnAssign(target: Expr, annotation: Expr, rhs: Option<Expr>)
    | FunctionDef(name: string, args: Arguments, returnAnnotation: Option<Expr>, docstring: Option<string>, decorators: seq<Expr>)
    | AsyncFunctionDef(name: string, args: Arguments, returnAnnotation: Option<Expr>, docstring: Option<string>, decorators: seq<Expr>)
    | ClassDef(name: string, bases: seq<Expr>, docstring: Option<string>, decorators: seq<Expr>, body: seq<Stmt>)
    | If(test: Expr)
    | ImportStmt(node: ImportNode)
    | OtherStmt

  /**
   * A parsed module: its docstring (`ast.get_docstring`), its top-level
   * statements, and every import node of the whole tree in `ast.walk` order.
   */
  datatype Module = Module(docstring: Option<string>, body: seq<Stmt>, walkedImports: seq<ImportNode>)
}
