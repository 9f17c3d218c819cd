/**
 * Tarjan's strongly-connected-components algorithm, as `find_sccs` runs it:
 * the recursive `strongconnect`, its loop over successors, and the outer
 * loop over the graph's nodes. The mutable locals become one state value
 * threaded through the calls; the iteration order of a successor set (and of
 * the graph's keys) is an arbitrary choice, so the functions are ghost.
 */
module Scc {
  import opened Digraph
  import opened Sets

  /** The variables `index`, `indices`, `lowlink`, `stack`, `on_stack` and `sccs` of `find_sccs`. */
  datatype TState<N> = TState(index: nat, indices: map<N, nat>, lowlink: map<N, nat>, stack: seq<N>, onStack: set<N>, sccs: seq<set<N>>)

  function Initial<N>(): TState<N> {
    TState(0, map[], map[], [], {}, [])
  }

  function Min(a: nat, b: nat): nat {
    if a <= b then a else b
  }

  /** `lowlink[v] = min(lowlink[v], val)`. */
  function Lower<N>(low: map<N, nat>, v: N, val: nat): (r: map<N, nat>)
    requires v in low
    ensures r.Keys == low.Keys && r[v] <= low[v] && r[v] <= val
    ensures forall x :: x in low && x != v ==> r[x] == low[x]
  {
    low[v := Min(low[v], val)]
  }

  /** The nodes `strongconnect` has not reached yet. */
  function Unvisited<N>(g: Graph<N>, s: TState<N>): set<N> {
    g.Keys - s.indices.Keys
  }

  /** Every stack entry has an index and a lowlink. */
  predicate Shaped<N>(s: TState<N>) {
    && s.lowlink.Keys == s.indices.Keys
    && forall i :: 0 <= i < |s.stack| ==> s.stack[i] in s.indices
  }

  /** The first lines of `strongconnect(v)`: number `v` and push it. */
  function Push<N>(s: TState<N>, v: N): (r: TState<N>)
    ensures r.stack == s.stack + [v] && r.onStack == s.onStack + {v} && r.sccs == s.sccs && r.index == s.index + 1
    ensures r.indices == s.indices[v := s.index] && r.lowlink == s.lowlink[v := s.index]
  {
    TState(s.index + 1, s.indices[v := s.index], s.lowlink[v := s.index], s.stack + [v], s.onStack + {v}, s.sccs)
  }

  /** `w = stack.pop()` until `w == v`: the remaining stack and the popped nodes. */
  function PopUntil<N(!new)>(stack: seq<N>, v: N): (r: (seq<N>, set<N>))
    requires v in stack
    ensures |r.0| < |stack| && r.0 == stack[..|r.0|] && stack[|r.0|] == v
    ensures forall k :: |r.0| < k < |stack| ==> stack[k] != v
    ensures forall x :: x in r.1 <==> x in stack[|r.0|..]
  {
    var n := |stack| - 1;
    if stack[n] == v then
      (stack[..n], {v})
    else
      var rest := PopUntil(stack[..n], v);
      assert stack[..n][|rest.0|..] + [stack[n]] == stack[|rest.0|..];
      (rest.0, rest.1 + {stack[n]})
  }

  /** Popping down to `v` never goes below the stack `v` was pushed onto. */
  lemma PopKeepsPrefix<N(!new)>(stack: seq<N>, below: seq<N>, v: N)
    requires below + [v] <= stack
    ensures v in stack && below <= PopUntil(stack, v).0
  {
    assert stack[|below|] == v;
    var k := |PopUntil(stack, v).0|;
    assert |below| <= k;
    assert stack[..k][..|below|] == below;
  }

  /** `strongconnect(v)`. */
  ghost function StrongConnect<N(!new)>(g: Graph<N>, v: N, s: TState<N>): (r: TState<N>)
    requires Closed(g) && v in g && v !in s.indices && Shaped(s)
    ensures Shaped(r)
    ensures s.indices.Keys <= r.indices.Keys && v in r.indices
    ensures s.stack <= r.stack
    decreases |Unvisited(g, s)|, 0
  {
    var s1 := Push(s, v);
    assert v in Unvisited(g, s) && Unvisited(g, s1) == Unvisited(g, s) - {v};
    Finish(s.stack, v, Neighbors(g, v, g[v], s1))
  }

  /** The end of `strongconnect(v)`: when `v` is a root, pop its component and record it. */
  function Finish<N(!new)>(below: seq<N>, v: N, s: TState<N>): (r: TState<N>)
    requires Shaped(s) && v in s.indices && below + [v] <= s.stack
    ensures Shaped(r)
    ensures r.index == s.index && r.indices == s.indices && r.lowlink == s.lowlink
    ensures below <= r.stack
  {
    if s.lowlink[v] == s.indices[v] then
      PopKeepsPrefix(s.stack, below, v);
      var popped := PopUntil(s.stack, v);
      TState(s.index, s.indices, s.lowlink, popped.0, s.onStack - popped.1, s.sccs + [popped.1])
    else
      s
  }

  /** One iteration of `for w in graph[v]` inside `strongconnect(v)`. */
  ghost function Step<N(!new)>(g: Graph<N>, v: N, w: N, s: TState<N>): (r: TState<N>)
    requires Closed(g) && w in g && v in s.indices && Shaped(s)
    ensures Shaped(r)
    ensures s.indices.Keys <= r.indices.Keys && w in r.indices
    ensures s.stack <= r.stack
    decreases |Unvisited(g, s)|, 1, 0
  {
    if w !in s.indices then
      var t := StrongConnect(g, w, s);
      t.(lowlink := Lower(t.lowlink, v, t.lowlink[w]))
    else if w in s.onStack then
      s.(lowlink := Lower(s.lowlink, v, s.indices[w]))
    else
      s
  }

  /** The loop `for w in graph[v]` of `strongconnect(v)`, over the successors still to visit. */
  ghost function Neighbors<N(!new)>(g: Graph<N>, v: N, todo: set<N>, s: TState<N>): (r: TState<N>)
    requires Closed(g) && todo <= g.Keys && v in s.indices && Shaped(s)
    ensures Shaped(r)
    ensures s.indices.Keys + todo <= r.indices.Keys
    ensures s.stack <= r.stack
    decreases |Unvisited(g, s)|, 1, |todo|
  {
    if todo == {} then s
    else
      var w := Pick(todo);
      var next := Step(g, v, w, s);
      SubsetCard(Unvisited(g, next), Unvisited(g, s));
      Neighbors(g, v, todo - {w}, next)
  }

  /** The outer loop `for v in graph: if v not in indices: strongconnect(v)`. */
  ghost function Visit<N(!new)>(g: Graph<N>, todo: set<N>, s: TState<N>): (r: TState<N>)
    requires Closed(g) && todo <= g.Keys && Shaped(s)
    ensures Shaped(r)
    ensures s.indices.Keys + todo <= r.indices.Keys
  {
    if todo == {} then s
    else
      var v := Pick(todo);
      Visit(g, todo - {v}, if v in s.indices then s else StrongConnect(g, v, s))
  }

  /** `find_sccs(graph)`: the components Tarjan's algorithm pops, as a set. */
  ghost function FindSccs<N(!new)>(g: Graph<N>): set<set<N>>
    requires Closed(g)
  {
    var r := Visit(g, g.Keys, Initial());
    set c | c in r.sccs
  }
}
