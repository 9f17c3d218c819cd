/**
 * `validate_type`: the recursive-descent recogniser for the type
 * annotations the language-model passes may write, and the grammar it
 * recognises.
 *
 * `ParseType`, `ParseArgs` and `ParseMore` follow `parse_type`,
 * `parse_args` and the comma loop of `parse_args`, returning the same
 * `(ok, position)` pairs. `TypeExpr`, `Render` and `WellFormed` are an
 * independent description of the accepted language; `AcceptsGrammar`
 * proves the two agree.
 */
module Annotation {
  import opened Strings

  /** Heads that may be subscripted. */
  const Containers: set<string> := {
    "List", "Dict", "Tuple", "Set", "FrozenSet",
    "Deque", "DefaultDict", "Counter", "OrderedDict",
    "Iterable", "Iterator", "Sequence", "MutableSequence",
    "Mapping", "MutableMapping",
    "AbstractSet", "Container", "Collection", "Reversible",
    "Callable", "Awaitable", "Coroutine",
    "AsyncIterable", "AsyncIterator", "AsyncContextManager",
    "Generator", "AsyncGenerator",
    "Optional", "Union", "Literal", "Final", "ClassVar", "Type",
    "NoReturn", "Annotated",
    "list", "dict", "tuple", "set", "frozenset", "range"
  }

  /** Names accepted whatever the module defines. */
  const Basic: set<string> := {
    "int", "float", "complex", "str", "bool", "bytes", "bytearray",
    "memoryview", "Any", "None"
  }

  /** The four collections `validate_type` takes besides the annotation. */
  datatype Known = Known(classes: set<string>, aliases: set<string>, identifiers: set<string>, modules: set<string>)

  /** `simple_allowed`. */
  function SimpleAllowed(known: Known): set<string> {
    Basic + known.classes + known.aliases + known.identifiers
  }

  /**
   * What the recogniser consults: the heads that may be subscripted, the
   * names accepted outright, and the modules whose dotted names are
   * accepted.
   */
  datatype Lexicon = Lexicon(containers: set<string>, allowed: set<string>, modules: set<string>)

  /** The lexicon `validate_type` builds from its arguments. */
  function LexiconOf(known: Known): (g: Lexicon)
    ensures g.containers == Containers && g.modules == known.modules
    ensures forall x :: x in g.allowed <==> x in Basic || x in known.classes || x in known.aliases || x in known.identifiers
  {
    Lexicon(Containers, SimpleAllowed(known), known.modules)
  }

  /** `str.isalnum` on ASCII characters. */
  predicate IsAlnum(c: char) {
    ('a' <= c <= 'z') || ('A' <= c <= 'Z') || ('0' <= c <= '9')
  }

  /** The characters a name is scanned over. */
  predicate IsNameChar(c: char) {
    IsAlnum(c) || c == '_' || c == '.'
  }

  /** A non-empty run of name characters. */
  predicate IsName(x: string) {
    x != [] && forall k :: 0 <= k < |x| ==> IsNameChar(x[k])
  }

  /** An unsubscripted name is accepted when allowed outright or qualified by an external module. */
  predicate SimpleOk(name: string, g: Lexicon) {
    name in g.allowed || Before(name, '.') in g.modules
  }

  // ---------------------------------------------------------------------------
  // The recogniser

  /** The end of the run of name characters from `i`. */
  function NameEnd(s: string, i: nat): (j: nat)
    requires i <= |s|
    ensures i <= j <= |s|
    ensures forall k :: i <= k < j ==> IsNameChar(s[k])
    ensures j < |s| ==> !IsNameChar(s[j])
    decreases |s| - i
  {
    if i < |s| && IsNameChar(s[i]) then NameEnd(s, i + 1) else i
  }

  /** `parse_type(s, i)`: a name, subscripted by a bracketed argument list when a '[' follows it. */
  function ParseType(s: string, i: nat, g: Lexicon): (r: (bool, nat))
    requires i <= |s|
    ensures r.0 ==> i < r.1 <= |s|
    ensures !r.0 ==> r.1 == i
    decreases |s| - i, 0
  {
    var j := NameEnd(s, i);
    if j == i then (false, i)
    else if j < |s| && s[j] == '[' then
      if s[i..j] !in g.containers then (false, i)
      else
        var args := ParseArgs(s, j + 1, g);
        if !args.0 || args.1 >= |s| || s[args.1] != ']' then (false, i) else (true, args.1 + 1)
    else if SimpleOk(s[i..j], g) then (true, j)
    else (false, i)
  }

  /** `parse_args(s, i)`: one type, then the comma-separated rest. */
  function ParseArgs(s: string, i: nat, g: Lexicon): (r: (bool, nat))
    requires i <= |s|
    ensures r.0 ==> i < r.1 <= |s|
    ensures !r.0 ==> r.1 == i
    decreases |s| - i, 1
  {
    var first := ParseType(s, i, g);
    if !first.0 then (false, i)
    else
      var rest := ParseMore(s, first.1, g);
      if !rest.0 then (false, i) else (true, rest.1)
  }

  /** The `while j < n and s[j] == ','` loop of `parse_args`, from `j`. */
  function ParseMore(s: string, j: nat, g: Lexicon): (r: (bool, nat))
    requires j <= |s|
    ensures r.0 ==> j <= r.1 <= |s|
    decreases |s| - j, 2
  {
    if j < |s| && s[j] == ',' then
      var next := ParseType(s, j + 1, g);
      if !next.0 then (false, j) else ParseMore(s, next.1, g)
    else (true, j)
  }

  /** The recogniser run over a whole annotation: spaces removed, one type that spans the string. */
  function Accepts(annotation: string, g: Lexicon): bool {
    var s := RemoveChar(annotation, ' ');
    var r := ParseType(s, 0, g);
    r.0 && r.1 == |s|
  }

  /** `validate_type(annotation, classes, aliases, identifiers, modules)`. */
  function Validate(annotation: string, known: Known): bool {
    Accepts(annotation, LexiconOf(known))
  }

  // ---------------------------------------------------------------------------
  // The grammar

  /** An annotation as a tree: a name, or a head subscripted by arguments. */
  datatype TypeExpr = Name(name: string) | Subscript(head: string, args: seq<TypeExpr>)

  function Render(t: TypeExpr): string
    decreases t, 1
  {
    match t
    case Name(name) => name
    case Subscript(head, args) => head + "[" + RenderArgs(args) + "]"
  }

  /** Arguments separated by commas. */
  function RenderArgs(ts: seq<TypeExpr>): string
    decreases ts, 0
  {
    if ts == [] then "" else Render(ts[0]) + RenderTail(ts[1..])
  }

  /** Each argument after the first, with the comma before it. */
  function RenderTail(ts: seq<TypeExpr>): string
    decreases ts, 0
  {
    if ts == [] then "" else "," + Render(ts[0]) + RenderTail(ts[1..])
  }

  /** Allowed names, containers with at least one argument, and nothing else. */
  predicate WellFormed(t: TypeExpr, g: Lexicon)
    decreases t
  {
    match t
    case Name(name) => IsName(name) && SimpleOk(name, g)
    case Subscript(head, args) =>
      IsName(head) && head in g.containers && |args| >= 1 &&
      forall k :: 0 <= k < |args| ==> WellFormed(args[k], g)
  }

  /** What may follow a type: the end, or a character that neither continues a name nor opens a subscript. */
  predicate Ends(s: string, k: nat) {
    k >= |s| || (!IsNameChar(s[k]) && s[k] != '[')
  }

  // ---------------------------------------------------------------------------
  // Slices

  /** A slice is its two halves. */
  lemma Joined(s: string, i: nat, j: nat, k: nat)
    requires i <= j <= k <= |s|
    ensures s[i..k] == s[i..j] + s[j..k]
  {
  }

  /** A slice that spells `x + y` spells `x` and then `y`. */
  lemma SplitAt(s: string, i: nat, x: string, y: string)
    requires i + |x| + |y| <= |s| && s[i..i + |x| + |y|] == x + y
    ensures s[i..i + |x|] == x && s[i + |x|..i + |x| + |y|] == y
  {
    forall k | 0 <= k < |x| ensures s[i..i + |x|][k] == x[k] {
      assert s[i..i + |x| + |y|][k] == (x + y)[k];
    }
    forall k | 0 <= k < |y| ensures s[i + |x|..i + |x| + |y|][k] == y[k] {
      assert s[i..i + |x| + |y|][|x| + k] == (x + y)[|x| + k];
    }
  }

  /** A name, '[', arguments and ']' laid side by side. */
  lemma Bracketed(s: string, i: nat, j: nat, e: nat, head: string, args: string)
    requires i <= j < e < |s| && s[i..j] == head && s[j] == '[' && s[j + 1..e] == args && s[e] == ']'
    ensures s[i..e + 1] == head + "[" + args + "]"
  {
    var r := head + "[" + args + "]";
    assert |r| == e + 1 - i;
    forall k | 0 <= k < |r| ensures s[i..e + 1][k] == r[k] {
      if k < j - i {
        assert s[i..j][k] == head[k];
      } else if j - i < k < e - i {
        assert s[j + 1..e][k - (j - i) - 1] == args[k - (j - i) - 1];
      }
    }
  }

  /** A comma, one argument and the rest laid side by side. */
  lemma Prefixed(s: string, j: nat, m: nat, e: nat, first: string, rest: string)
    requires j < m <= e <= |s| && s[j] == ',' && s[j + 1..m] == first && s[m..e] == rest
    ensures s[j..e] == "," + first + rest
  {
    var r := "," + first + rest;
    assert |r| == e - j;
    forall k | 0 <= k < |r| ensures s[j..e][k] == r[k] {
      if 0 < k < m - j {
        assert s[j + 1..m][k - 1] == first[k - 1];
      } else if m - j <= k {
        assert s[m..e][k - (m - j)] == rest[k - (m - j)];
      }
    }
  }

  /** A slice that spells a bracketed list spells its parts. */
  lemma Unbracket(s: string, i: nat, head: string, args: string)
    requires i + |head| + |args| + 2 <= |s| && s[i..i + |head| + |args| + 2] == head + "[" + args + "]"
    ensures s[i..i + |head|] == head && s[i + |head|] == '['
    ensures s[i + |head| + 1..i + |head| + 1 + |args|] == args && s[i + |head| + 1 + |args|] == ']'
  {
    var r := head + "[" + args + "]";
    forall k | 0 <= k < |head| ensures s[i..i + |head|][k] == head[k] {
      assert s[i..i + |r|][k] == r[k];
    }
    forall k | 0 <= k < |args| ensures s[i + |head| + 1..i + |head| + 1 + |args|][k] == args[k] {
      assert s[i..i + |r|][|head| + 1 + k] == r[|head| + 1 + k];
    }
    assert s[i..i + |r|][|head|] == r[|head|];
    assert s[i..i + |r|][|head| + 1 + |args|] == r[|head| + 1 + |args|];
  }

  /** A slice that spells a comma, an argument and a rest spells each of them. */
  lemma Unprefix(s: string, j: nat, first: string, rest: string)
    requires j + 1 + |first| + |rest| <= |s| && s[j..j + 1 + |first| + |rest|] == "," + first + rest
    ensures s[j] == ',' && s[j + 1..j + 1 + |first|] == first
    ensures s[j + 1 + |first|..j + 1 + |first| + |rest|] == rest
  {
    var r := "," + first + rest;
    forall k | 0 <= k < |first| ensures s[j + 1..j + 1 + |first|][k] == first[k] {
      assert s[j..j + |r|][1 + k] == r[1 + k];
    }
    forall k | 0 <= k < |rest| ensures s[j + 1 + |first|..j + 1 + |first| + |rest|][k] == rest[k] {
      assert s[j..j + |r|][1 + |first| + k] == r[1 + |first| + k];
    }
    assert s[j..j + |r|][0] == r[0];
  }

  // ---------------------------------------------------------------------------
  // Soundness: what the recogniser accepts is a rendered well-formed tree

  lemma {:induction false} ParseTypeSound(s: string, i: nat, g: Lexicon) returns (t: TypeExpr)
    requires i <= |s| && ParseType(s, i, g).0
    ensures WellFormed(t, g) && s[i..ParseType(s, i, g).1] == Render(t)
    decreases |s| - i, 0
  {
    var j := NameEnd(s, i);
    assert IsName(s[i..j]);
    if j < |s| && s[j] == '[' {
      var e := ParseArgs(s, j + 1, g).1;
      assert ParseType(s, i, g) == (true, e + 1);
      var ts := ParseArgsSound(s, j + 1, g);
      t := Subscript(s[i..j], ts);
      Bracketed(s, i, j, e, s[i..j], RenderArgs(ts));
    } else {
      t := Name(s[i..j]);
    }
  }

  lemma {:induction false} ParseArgsSound(s: string, i: nat, g: Lexicon) returns (ts: seq<TypeExpr>)
    requires i <= |s| && ParseArgs(s, i, g).0
    ensures |ts| >= 1 && (forall k :: 0 <= k < |ts| ==> WellFormed(ts[k], g))
    ensures s[i..ParseArgs(s, i, g).1] == RenderArgs(ts)
    decreases |s| - i, 1
  {
    var m := ParseType(s, i, g).1;
    var t := ParseTypeSound(s, i, g);
    var rest := ParseMoreSound(s, m, g);
    ts := [t] + rest;
    assert ts[0] == t && ts[1..] == rest;
    Joined(s, i, m, ParseMore(s, m, g).1);
  }

  lemma {:induction false} ParseMoreSound(s: string, j: nat, g: Lexicon) returns (ts: seq<TypeExpr>)
    requires j <= |s| && ParseMore(s, j, g).0
    ensures forall k :: 0 <= k < |ts| ==> WellFormed(ts[k], g)
    ensures s[j..ParseMore(s, j, g).1] == RenderTail(ts)
    decreases |s| - j, 2
  {
    if j < |s| && s[j] == ',' {
      var m := ParseType(s, j + 1, g).1;
      var e := ParseMore(s, m, g).1;
      assert ParseMore(s, j, g) == ParseMore(s, m, g);
      var t := ParseTypeSound(s, j + 1, g);
      var rest := ParseMoreSound(s, m, g);
      ts := [t] + rest;
      assert ts[0] == t && ts[1..] == rest;
      Prefixed(s, j, m, e, Render(t), RenderTail(rest));
    } else {
      ts := [];
    }
  }

  // ---------------------------------------------------------------------------
  // Completeness: the recogniser accepts every rendered well-formed tree

  /** The name scan stops exactly at the end of a name that no name character follows. */
  lemma NameEndAt(s: string, i: nat, x: string)
    requires IsName(x) && i + |x| <= |s| && s[i..i + |x|] == x
    requires i + |x| == |s| || !IsNameChar(s[i + |x|])
    ensures NameEnd(s, i) == i + |x|
  {
    assert forall k :: i <= k < i + |x| ==> s[k] == x[k - i];
  }

  lemma {:induction false} ParseTypeComplete(s: string, i: nat, g: Lexicon, t: TypeExpr)
    requires WellFormed(t, g) && i + |Render(t)| <= |s| && s[i..i + |Render(t)|] == Render(t)
    requires Ends(s, i + |Render(t)|)
    ensures ParseType(s, i, g) == (true, i + |Render(t)|)
    decreases t, 1
  {
    if t.Name? {
      NameEndAt(s, i, t.name);
      ParseTypeNameAt(s, i, g, i + |t.name|);
    } else {
      SubscriptComplete(s, i, g, t);
    }
  }

  /** The subscript case of `ParseTypeComplete`. */
  lemma {:induction false} SubscriptComplete(s: string, i: nat, g: Lexicon, t: TypeExpr)
    requires t.Subscript? && WellFormed(t, g) && i + |Render(t)| <= |s| && s[i..i + |Render(t)|] == Render(t)
    ensures ParseType(s, i, g) == (true, i + |Render(t)|)
    decreases t, 0
  {
    var j := i + |t.head|;
    var e := j + 1 + |RenderArgs(t.args)|;
    assert Render(t) == t.head + "[" + RenderArgs(t.args) + "]";
    SubscriptLayout(s, i, t.head, RenderArgs(t.args));
    ParseArgsComplete(s, j + 1, g, t.args);
    ParseTypeSubscriptAt(s, i, g, j, e);
  }

  /** Where a subscript is rendered, the name scan stops at its '[' and ']' follows its arguments. */
  lemma SubscriptLayout(s: string, i: nat, head: string, args: string)
    requires IsName(head)
    requires i + |head| + |args| + 2 <= |s| && s[i..i + |head| + |args| + 2] == head + "[" + args + "]"
    ensures NameEnd(s, i) == i + |head| && s[i..i + |head|] == head && s[i + |head|] == '['
    ensures s[i + |head| + 1..i + |head| + 1 + |args|] == args && s[i + |head| + 1 + |args|] == ']'
  {
    Unbracket(s, i, head, args);
    NameEndAt(s, i, head);
  }

  /** `parse_type` on a name with no '[' after it. */
  lemma ParseTypeNameAt(s: string, i: nat, g: Lexicon, j: nat)
    requires i < j <= |s| && NameEnd(s, i) == j && (j == |s| || s[j] != '[') && SimpleOk(s[i..j], g)
    ensures ParseType(s, i, g) == (true, j)
  {
  }

  /** `parse_type` on a container head, its arguments and the closing ']'. */
  lemma ParseTypeSubscriptAt(s: string, i: nat, g: Lexicon, j: nat, e: nat)
    requires i < j < e < |s| && NameEnd(s, i) == j && s[j] == '[' && s[i..j] in g.containers
    requires ParseArgs(s, j + 1, g) == (true, e) && s[e] == ']'
    ensures ParseType(s, i, g) == (true, e + 1)
  {
  }

  lemma {:induction false} ParseArgsComplete(s: string, i: nat, g: Lexicon, ts: seq<TypeExpr>)
    requires |ts| >= 1 && forall k :: 0 <= k < |ts| ==> WellFormed(ts[k], g)
    requires i + |RenderArgs(ts)| < |s| && s[i..i + |RenderArgs(ts)|] == RenderArgs(ts) && s[i + |RenderArgs(ts)|] == ']'
    ensures ParseArgs(s, i, g) == (true, i + |RenderArgs(ts)|)
    decreases ts, 2
  {
    var m := i + |Render(ts[0])|;
    var e := i + |RenderArgs(ts)|;
    assert RenderArgs(ts) == Render(ts[0]) + RenderTail(ts[1..]);
    SplitAt(s, i, Render(ts[0]), RenderTail(ts[1..]));
    TailStart(ts[1..]);
    ParseTypeComplete(s, i, g, ts[0]);
    ParseMoreComplete(s, m, g, ts[1..], e);
    ParseArgsAt(s, i, g, m, e);
  }

  /** `parse_args` on one type followed by a successful comma loop. */
  lemma ParseArgsAt(s: string, i: nat, g: Lexicon, m: nat, e: nat)
    requires i <= m <= |s| && ParseType(s, i, g) == (true, m) && ParseMore(s, m, g) == (true, e)
    ensures ParseArgs(s, i, g) == (true, e)
  {
  }

  /** The comma loop on a comma, one type, and a successful rest. */
  lemma ParseMoreAt(s: string, j: nat, g: Lexicon, m: nat, e: nat)
    requires j < |s| && s[j] == ',' && j + 1 <= m <= |s| && ParseType(s, j + 1, g) == (true, m) && ParseMore(s, m, g) == (true, e)
    ensures ParseMore(s, j, g) == (true, e)
  {
  }

  /** A non-empty tail starts with its comma. */
  lemma TailStart(ts: seq<TypeExpr>)
    ensures ts != [] ==> |RenderTail(ts)| > 0 && RenderTail(ts)[0] == ','
  {
  }

  lemma {:induction false} ParseMoreComplete(s: string, j: nat, g: Lexicon, ts: seq<TypeExpr>, e: nat)
    requires forall k :: 0 <= k < |ts| ==> WellFormed(ts[k], g)
    requires e == j + |RenderTail(ts)| && e < |s| && s[j..e] == RenderTail(ts) && s[e] == ']'
    ensures ParseMore(s, j, g) == (true, e)
    decreases ts, 1
  {
    if ts != [] {
      var m := j + 1 + |Render(ts[0])|;
      assert RenderTail(ts) == "," + Render(ts[0]) + RenderTail(ts[1..]);
      Unprefix(s, j, Render(ts[0]), RenderTail(ts[1..]));
      TailStart(ts[1..]);
      ParseTypeComplete(s, j + 1, g, ts[0]);
      ParseMoreComplete(s, m, g, ts[1..], e);
      ParseMoreAt(s, j, g, m, e);
    }
  }

  // ---------------------------------------------------------------------------
  // Properties of validate_type

  /**
   * An annotation is accepted exactly when, with its spaces removed, it is
   * the rendering of a well-formed tree.
   */
  lemma AcceptsGrammar(annotation: string, g: Lexicon)
    ensures Accepts(annotation, g) <==>
              exists t :: WellFormed(t, g) && Render(t) == RemoveChar(annotation, ' ')
  {
    var s := RemoveChar(annotation, ' ');
    if Accepts(annotation, g) {
      var t := ParseTypeSound(s, 0, g);
      assert s[0..|s|] == s;
    }
    if exists t :: WellFormed(t, g) && Render(t) == s {
      var t :| WellFormed(t, g) && Render(t) == s;
      assert s[0..|Render(t)|] == s;
      ParseTypeComplete(s, 0, g, t);
    }
  }

  /** Spaces never matter: removing them first changes nothing. */
  lemma AcceptsIgnoresSpaces(annotation: string, g: Lexicon)
    ensures Accepts(RemoveChar(annotation, ' '), g) == Accepts(annotation, g)
  {
    RemoveCharIdempotent(annotation, ' ');
  }

  /** The empty annotation, or one of spaces only, is rejected. */
  lemma AcceptsEmpty(annotation: string, g: Lexicon)
    requires RemoveChar(annotation, ' ') == ""
    ensures !Accepts(annotation, g)
  {
  }

  /**
   * A bare name is accepted exactly when it is a basic type, a known class,
   * alias or identifier, or its first dotted segment is a known external
   * module.
   */
  lemma AcceptsName(name: string, g: Lexicon)
    requires IsName(name)
    ensures Accepts(name, g) <==> SimpleOk(name, g)
  {
    assert ' ' !in name;
    RemoveCharAbsent(name, ' ');
    NameEndAt(name, 0, name);
    assert name[0..|name|] == name;
  }

  lemma {:induction false} RemoveCharAbsent(s: string, c: char)
    requires c !in s
    ensures RemoveChar(s, c) == s
  {
    if s != [] {
      RemoveCharAbsent(s[1..], c);
      assert s == [s[0]] + s[1..];
    }
  }

  /**
   * A subscripted annotation is accepted exactly when its head is a
   * container and what follows the '[' is a non-empty comma-separated list
   * of accepted types closed by ']'.
   */
  lemma AcceptsSubscript(head: string, rest: string, g: Lexicon)
    requires IsName(head) && ' ' !in head + "[" + rest
    ensures Accepts(head + "[" + rest, g) <==>
              head in g.containers &&
              exists ts :: |ts| >= 1 && (forall k :: 0 <= k < |ts| ==> WellFormed(ts[k], g)) && RenderArgs(ts) + "]" == rest
  {
    var s := head + "[" + rest;
    RemoveCharAbsent(s, ' ');
    AcceptsGrammar(s, g);
    if Accepts(s, g) {
      var t :| WellFormed(t, g) && Render(t) == s;
      SubscriptOf(t, g, head, rest);
    }
    if head in g.containers && exists ts :: |ts| >= 1 && (forall k :: 0 <= k < |ts| ==> WellFormed(ts[k], g)) && RenderArgs(ts) + "]" == rest {
      var ts :| |ts| >= 1 && (forall k :: 0 <= k < |ts| ==> WellFormed(ts[k], g)) && RenderArgs(ts) + "]" == rest;
      assert Render(Subscript(head, ts)) == s;
      assert WellFormed(Subscript(head, ts), g);
    }
  }

  /** A well-formed tree that renders as a name followed by '[' is a subscript of that name. */
  lemma SubscriptOf(t: TypeExpr, g: Lexicon, head: string, rest: string)
    requires WellFormed(t, g) && IsName(head) && Render(t) == head + "[" + rest
    ensures t.Subscript? && t.head == head && t.head in g.containers && RenderArgs(t.args) + "]" == rest
  {
    assert Render(t)[|head|] == '[' && !IsNameChar('[');
    if t.Subscript? {
      assert Render(t) == t.head + "[" + (RenderArgs(t.args) + "]");
      SameHead(t.head, RenderArgs(t.args) + "]", head, rest);
    }
  }

  /** Two names each followed by '[' that spell the same string are the same name, and so is what follows. */
  lemma SameHead(h1: string, r1: string, h2: string, r2: string)
    requires IsName(h1) && IsName(h2) && h1 + "[" + r1 == h2 + "[" + r2
    ensures h1 == h2 && r1 == r2
  {
    var s := h1 + "[" + r1;
    assert s[|h1|] == '[' && s[|h2|] == '[';
    assert forall k :: 0 <= k < |h1| ==> s[k] == h1[k] && !IsNameChar('[');
    assert forall k :: 0 <= k < |h2| ==> s[k] == h2[k];
    assert h1 == s[..|h1|] == h2;
    assert r1 == s[|h1| + 1..] == r2;
  }

  // ---------------------------------------------------------------------------
  // Properties of validate_type over its four collections

  /**
   * A bare name is accepted exactly when it is a basic type, a known class,
   * alias or identifier, or its first dotted segment is a known external
   * module.
   */
  lemma ValidateName(name: string, known: Known)
    requires IsName(name)
    ensures Validate(name, known) <==>
              name in Basic || name in known.classes || name in known.aliases || name in known.identifiers ||
              Before(name, '.') in known.modules
  {
    AcceptsName(name, LexiconOf(known));
  }

  /** A name qualified by a known external module is accepted, whatever follows the first dot. */
  lemma ValidateQualified(prefix: string, member: string, known: Known)
    requires IsName(prefix + "." + member) && '.' !in prefix && prefix in known.modules
    ensures Validate(prefix + "." + member, known)
  {
    BeforeStops(prefix, "." + member, '.');
    assert prefix + "." + member == prefix + ("." + member);
    ValidateName(prefix + "." + member, known);
  }

  /** A subscripted annotation is accepted exactly when its head is one of the containers and its arguments are accepted types. */
  lemma ValidateSubscript(head: string, rest: string, known: Known)
    requires IsName(head) && ' ' !in head + "[" + rest
    ensures Validate(head + "[" + rest, known) <==>
              head in Containers &&
              exists ts :: |ts| >= 1 && (forall k :: 0 <= k < |ts| ==> WellFormed(ts[k], LexiconOf(known))) && RenderArgs(ts) + "]" == rest
  {
    AcceptsSubscript(head, rest, LexiconOf(known));
  }

  /** Whatever is accepted is, once spaces are removed, a bare name or ends in ']'. */
  lemma AcceptsShape(annotation: string, g: Lexicon)
    requires Accepts(annotation, g)
    ensures IsName(RemoveChar(annotation, ' ')) ||
            (|RemoveChar(annotation, ' ')| > 0 && RemoveChar(annotation, ' ')[|RemoveChar(annotation, ' ')| - 1] == ']')
  {
    AcceptsGrammar(annotation, g);
    var t :| WellFormed(t, g) && Render(t) == RemoveChar(annotation, ' ');
    if t.Subscript? {
      assert Render(t) == t.head + "[" + RenderArgs(t.args) + "]";
    }
  }

  // ---------------------------------------------------------------------------
  // The cases of the validator's tests

  /** The collections the tests pass: two classes, one alias, one identifier and two modules. */
  function Fixture(): (k: Known)
    ensures "MyClass" in k.classes && "AliasType" in k.aliases && "ExternalFunc" in k.identifiers && "extmod" in k.modules
  {
    Known({"MyClass", "OtherClass"}, {"AliasType"}, {"ExternalFunc"}, {"extmod", "requests"})
  }

  /** A name nobody defines is rejected. */
  lemma FixtureUnknown(x: string, known: Known)
    requires x == "UnknownType" && known == Fixture()
    ensures !Validate(x, known)
  {
    BeforeAbsent(x, '.');
    ValidateName(x, known);
  }

  /** A name under an external module is accepted. */
  lemma FixtureQualified(x: string, known: Known)
    requires x == "extmod.SomeType" && known == Fixture()
    ensures Validate(x, known)
  {
    assert x == "extmod" + "." + "SomeType";
    ValidateQualified("extmod", "SomeType", known);
  }

  /** A subscript that is never closed is rejected. */
  lemma FixtureUnclosed(x: string, known: Known)
    requires x == "List[int" && known == Fixture()
    ensures !Validate(x, known)
  {
    RemoveCharAbsent(x, ' ');
    assert !IsNameChar(x[4]) && x[|x| - 1] != ']';
    if Validate(x, known) {
      AcceptsShape(x, LexiconOf(known));
    }
  }

  /** The empty annotation is rejected. */
  lemma FixtureEmpty(x: string, known: Known)
    requires x == "" && known == Fixture()
    ensures !Validate(x, known)
  {
    AcceptsEmpty(x, LexiconOf(known));
  }

  /** A container nested in a container, with two arguments, is accepted. */
  lemma FixtureNested(x: string, known: Known)
    requires x == "Dict[str,List[int]]" && known == Fixture()
    ensures Validate(x, known)
  {
    NestedTree(LexiconOf(known), known);
    NestedRender(x);
    RemoveCharAbsent(x, ' ');
    AcceptsGrammar(x, LexiconOf(known));
  }

  function NestedExample(): TypeExpr {
    Subscript("Dict", [Name("str"), Subscript("List", [Name("int")])])
  }

  lemma NestedTree(g: Lexicon, known: Known)
    requires g == LexiconOf(known)
    ensures WellFormed(NestedExample(), g)
  {
    assert "Dict" in Containers && "List" in Containers && "str" in Basic && "int" in Basic;
  }

  lemma NestedRender(x: string)
    requires x == "Dict[str,List[int]]"
    ensures Render(NestedExample()) == x
  {
  }
}
