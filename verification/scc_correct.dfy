/**
 * Correctness of `find_sccs`: the components it returns are exactly the
 * strongly connected components of the graph. The proof follows the usual
 * argument for Tarjan's algorithm: nodes are numbered in visiting order, the
 * stack is sorted by number and holds exactly the `on_stack` nodes, every
 * stack node's lowlink is the number of an older-or-equal stack node it
 * reaches, and a node whose lowlink equals its own number has no edge from
 * the nodes visited after it into the older part of the stack.
 *
 * The invariants are split into small predicates over the fields they read,
 * so that a step which changes one field leaves the others' facts untouched.
 */
module SccCorrect {
  import opened Digraph
  import opened Scc
  import opened Sets

  /** The nodes of all recorded components. */
  function Done<N(!new)>(sccs: seq<set<N>>): set<N> {
    if sccs == [] then {} else Done(sccs[..|sccs| - 1]) + sccs[|sccs| - 1]
  }

  /** `c` is exactly one strongly connected component of `g`. */
  ghost predicate IsScc<N(!new)>(g: Graph<N>, c: set<N>) {
    && c != {}
    && (forall x, y :: x in c && y in c ==> MutReach(g, x, y))
    && (forall x, y :: x in c && MutReach(g, x, y) ==> y in c)
  }

  ghost predicate AllScc<N(!new)>(g: Graph<N>, sccs: seq<set<N>>) {
    forall k :: 0 <= k < |sccs| ==> IsScc(g, sccs[k])
  }

  lemma DoneAppend<N(!new)>(sccs: seq<set<N>>, c: set<N>)
    ensures Done(sccs + [c]) == Done(sccs) + c
  {
    assert (sccs + [c])[..|sccs|] == sccs;
  }

  /** A node is done exactly when some recorded component holds it. */
  lemma {:induction false} DoneMember<N(!new)>(sccs: seq<set<N>>, x: N)
    ensures x in Done(sccs) <==> exists k :: 0 <= k < |sccs| && x in sccs[k]
  {
    if sccs != [] {
      var n := |sccs| - 1;
      DoneMember(sccs[..n], x);
      if x in Done(sccs[..n]) {
        var k :| 0 <= k < n && x in sccs[..n][k];
        assert x in sccs[k];
      }
      if exists k :: 0 <= k < |sccs| && x in sccs[k] {
        var k :| 0 <= k < |sccs| && x in sccs[k];
        if k < n {
          assert x in sccs[..n][k];
        }
      }
    }
  }

  /** A component of `sccs` that holds one of two mutually reachable nodes holds the other. */
  lemma DoneClosed<N(!new)>(g: Graph<N>, sccs: seq<set<N>>, a: N, b: N)
    requires AllScc(g, sccs) && MutReach(g, a, b)
    ensures a in Done(sccs) ==> b in Done(sccs)
  {
    if a in Done(sccs) {
      DoneMember(sccs, a);
      var k :| 0 <= k < |sccs| && a in sccs[k];
      assert IsScc(g, sccs[k]);
      DoneMember(sccs, b);
    }
  }

  // ---------------------------------------------------------------- the state invariant

  /**
   * Position `i` of a stack lies below position `j`. Sortedness below is stated
   * over this predicate so that its pairs are only considered where a proof
   * names them.
   */
  ghost predicate Beneath<N(!new)>(st: seq<N>, i: int, j: int) {
    0 <= i < j < |st|
  }

  /** The stack lists exactly the on-stack nodes, all numbered, in visiting order. */
  ghost predicate StackOk<N(!new)>(st: seq<N>, on: set<N>, ind: map<N, nat>) {
    && (forall i :: 0 <= i < |st| ==> st[i] in on && st[i] in ind)
    && (forall x :: x in on ==> x in st)
    && (forall i, j {:trigger Beneath(st, i, j)} :: Beneath(st, i, j) ==> ind[st[i]] < ind[st[j]])
  }

  /** The lowlink of `x` numbers an on-stack node no younger than `x` that `x` reaches. */
  ghost predicate LowOk<N(!new)>(g: Graph<N>, ind: map<N, nat>, low: map<N, nat>, on: set<N>, x: N) {
    && x in ind && x in low
    && exists b {:trigger Reach(g, x, b)} :: b in on && b in ind && ind[b] <= ind[x] && low[x] == ind[b] && Reach(g, x, b)
  }

  /**
   * Every on-stack node's lowlink is justified. The trigger keeps the
   * witnesses of one node's justification from being justified in turn.
   */
  ghost predicate LowInv<N(!new)>(g: Graph<N>, ind: map<N, nat>, low: map<N, nat>, on: set<N>) {
    forall x {:trigger LowOk(g, ind, low, on, x)} :: x in on ==> LowOk(g, ind, low, on, x)
  }

  /**
   * Every numbered node is a node of `g`. Stated with the trigger on the
   * numbering only: a subset formula would also fire on every node a walk
   * passes through and number it.
   */
  ghost predicate InGraph<N(!new)>(g: Graph<N>, ind: map<N, nat>) {
    forall x {:trigger x in ind} :: x in ind ==> x in g
  }

  /** The invariant of the algorithm's state between steps. */
  ghost predicate Wf<N(!new)>(g: Graph<N>, s: TState<N>) {
    && InGraph(g, s.indices)
    && (forall x :: x in s.indices ==> s.indices[x] < s.index)
    && s.lowlink.Keys == s.indices.Keys
    && s.indices.Keys == s.onStack + Done(s.sccs)
    && s.onStack !! Done(s.sccs)
    && StackOk(s.stack, s.onStack, s.indices)
    && AllScc(g, s.sccs)
    && LowInv(g, s.indices, s.lowlink, s.onStack)
  }

  /** `s` grows into `t`: numbers are kept, on-stack and finished nodes stay so. */
  ghost predicate Grows<N(!new)>(s: TState<N>, t: TState<N>) {
    && s.onStack <= t.onStack && Done(s.sccs) <= Done(t.sccs) && s.index <= t.index
    && (forall x :: x in s.indices ==> x in t.indices && t.indices[x] == s.indices[x])
  }

  lemma WfShaped<N(!new)>(g: Graph<N>, s: TState<N>)
    requires Wf(g, s)
    ensures Shaped(s)
  {
  }

  lemma LowBelowIndex<N(!new)>(g: Graph<N>, ind: map<N, nat>, low: map<N, nat>, on: set<N>, x: N)
    requires LowInv(g, ind, low, on) && x in on
    ensures x in ind && x in low && low[x] <= ind[x]
  {
    assert LowOk(g, ind, low, on, x);
  }

  // ---------------------------------------------------------------- pushing a node

  lemma PushStack<N(!new)>(s: TState<N>, v: N)
    requires StackOk(s.stack, s.onStack, s.indices) && v !in s.indices
    requires forall x :: x in s.indices ==> s.indices[x] < s.index
    ensures StackOk(Push(s, v).stack, Push(s, v).onStack, Push(s, v).indices)
  {
    forall x | x in s.onStack + {v}
      ensures x in s.stack + [v]
    {
      if x != v {
        var i :| 0 <= i < |s.stack| && s.stack[i] == x;
        assert (s.stack + [v])[i] == x;
      }
    }
    forall i, j | Beneath(s.stack + [v], i, j)
      ensures s.indices[v := s.index][(s.stack + [v])[i]] < s.indices[v := s.index][(s.stack + [v])[j]]
    {
      if j < |s.stack| {
        assert Beneath(s.stack, i, j);
      }
    }
  }

  lemma PushLow<N(!new)>(g: Graph<N>, s: TState<N>, v: N)
    requires LowInv(g, s.indices, s.lowlink, s.onStack) && v !in s.indices && s.onStack <= s.indices.Keys
    ensures LowInv(g, Push(s, v).indices, Push(s, v).lowlink, Push(s, v).onStack)
  {
    forall x | x in s.onStack + {v}
      ensures LowOk(g, s.indices[v := s.index], s.lowlink[v := s.index], s.onStack + {v}, x)
    {
      if x == v {
        ReachRefl(g, v);
      } else {
        assert LowOk(g, s.indices, s.lowlink, s.onStack, x);
        var b :| b in s.onStack && b in s.indices && s.indices[b] <= s.indices[x] && s.lowlink[x] == s.indices[b] && Reach(g, x, b);
        assert s.indices[v := s.index][b] == s.indices[b];
      }
    }
  }

  lemma PushSets<N(!new)>(g: Graph<N>, s: TState<N>, v: N)
    requires InGraph(g, s.indices) && v in g && v !in s.indices
    requires forall x :: x in s.indices ==> s.indices[x] < s.index
    requires s.lowlink.Keys == s.indices.Keys
    requires s.indices.Keys == s.onStack + Done(s.sccs) && s.onStack !! Done(s.sccs)
    ensures InGraph(g, Push(s, v).indices)
    ensures forall x :: x in Push(s, v).indices ==> Push(s, v).indices[x] < Push(s, v).index
    ensures Push(s, v).lowlink.Keys == Push(s, v).indices.Keys
    ensures Push(s, v).indices.Keys == Push(s, v).onStack + Done(Push(s, v).sccs)
    ensures Push(s, v).onStack !! Done(Push(s, v).sccs)
    ensures Grows(s, Push(s, v))
  {
  }

  /** The first lines of `strongconnect(v)` keep the invariant. */
  lemma PushWf<N(!new)>(g: Graph<N>, s: TState<N>, v: N)
    requires Wf(g, s) && v in g && v !in s.indices
    ensures Wf(g, Push(s, v)) && Grows(s, Push(s, v))
  {
    PushSets(g, s, v);
    PushStack(s, v);
    PushLow(g, s, v);
  }

  // ---------------------------------------------------------------- the invariant of one call

  /** Every node of `on` reaches `u`. */
  ghost predicate ReachAll<N(!new)>(g: Graph<N>, on: set<N>, u: N) {
    forall x :: x in on ==> Reach(g, x, u)
  }

  /** `v` reaches every node numbered since `ind0`. */
  ghost predicate FreshReach<N(!new)>(g: Graph<N>, v: N, ind0: map<N, nat>, ind: map<N, nat>) {
    forall x :: x in ind && x !in ind0 ==> Reach(g, v, x)
  }

  /** Nodes numbered since `ind0` got numbers from `index0` on and had all their successors numbered. */
  ghost predicate NFin<N(!new)>(g: Graph<N>, index0: nat, ind0: map<N, nat>, ind: map<N, nat>) {
    && (forall x :: x in ind && x !in ind0 ==> ind[x] >= index0)
    && (forall x, y {:trigger Edge(g, x, y)} :: Edge(g, x, y) && x in ind && x !in ind0 ==> y in ind)
  }

  /** The lowlinks of `xs` are unchanged. */
  ghost predicate Keeps<N(!new)>(xs: set<N>, low0: map<N, nat>, low: map<N, nat>) {
    forall x :: x in xs ==> x in low0 && x in low && low[x] == low0[x]
  }

  /** Edges from nodes numbered since `ind0` to on-stack nodes lead no lower than `low[v]`. */
  ghost predicate FreshEdgesAbove<N(!new)>(g: Graph<N>, v: N, ind0: map<N, nat>, on: set<N>, ind: map<N, nat>, low: map<N, nat>) {
    && v in low
    && forall x, b {:trigger Edge(g, x, b)} :: Edge(g, x, b) && x in ind && x !in ind0 && b in on ==> b in ind && low[v] <= ind[b]
  }

  /** Edges from `u` already scanned (outside `todo`) to on-stack nodes lead no lower than `low[u]`. */
  ghost predicate SeenAbove<N(!new)>(g: Graph<N>, u: N, todo: set<N>, on: set<N>, ind: map<N, nat>, low: map<N, nat>) {
    && u in low && u in g
    && forall b {:trigger Edge(g, u, b)} :: Edge(g, u, b) && b !in todo && b in on ==> b in ind && low[u] <= ind[b]
  }

  /** A numbered node that `t` has on its stack was on the stack of the earlier state `s`. */
  ghost predicate StackOld<N(!new)>(s: TState<N>, t: TState<N>) {
    forall x :: x in s.indices && x in t.onStack ==> x in s.onStack
  }

  /**
   * The invariant of the loop `for w in graph[u]`: `s0` is the state just after
   * `u` was pushed, `s` the state before scanning the successors in `todo`.
   */
  ghost predicate NInv<N(!new)>(g: Graph<N>, u: N, todo: set<N>, s0: TState<N>, s: TState<N>) {
    && Wf(g, s)
    && Closed(g) && u in g && u in s0.onStack && u in s0.indices && s0.indices[u] < s0.index
    && s0.indices.Keys == s0.onStack + Done(s0.sccs)
    && Grows(s0, s)
    && (forall b {:trigger b in todo} :: b in todo ==> Edge(g, u, b))
    && (forall b {:trigger Edge(g, u, b)} :: Edge(g, u, b) && b !in todo ==> b in s.indices)
    && Track(g, u, todo, s0, s)
  }

  /** What the loop has learnt about the nodes numbered since it started. */
  ghost predicate Track<N(!new)>(g: Graph<N>, u: N, todo: set<N>, s0: TState<N>, s: TState<N>) {
    && ReachAll(g, s.onStack, u)
    && FreshReach(g, u, s0.indices, s.indices)
    && NFin(g, s0.index, s0.indices, s.indices)
    && Keeps(s0.onStack - {u}, s0.lowlink, s.lowlink)
    && FreshEdgesAbove(g, u, s0.indices, s.onStack, s.indices, s.lowlink)
    && SeenAbove(g, u, todo, s.onStack, s.indices, s.lowlink)
  }

  /** What `strongconnect(v)` guarantees, started from `s` and ending in `r`. */
  ghost predicate SCPost<N(!new)>(g: Graph<N>, v: N, s: TState<N>, r: TState<N>) {
    && Wf(g, r) && Grows(s, r)
    && v in r.indices && r.indices[v] == s.index
    && ReachAll(g, r.onStack, v)
    && FreshReach(g, v, s.indices, r.indices)
    && NFin(g, s.index, s.indices, r.indices)
    && Keeps(s.onStack, s.lowlink, r.lowlink)
    && FreshEdgesAbove(g, v, s.indices, r.onStack, r.indices, r.lowlink)
    && (v in r.onStack ==> r.lowlink[v] < r.indices[v])
    && (v !in r.onStack ==> r.onStack == s.onStack && r.lowlink[v] == r.indices[v])
  }

  lemma StackOldHolds<N(!new)>(s: TState<N>, t: TState<N>)
    requires s.indices.Keys == s.onStack + Done(s.sccs) && Done(s.sccs) <= Done(t.sccs)
    requires t.onStack !! Done(t.sccs)
    ensures StackOld(s, t)
  {
  }

  /** Lowering `low[u]` to `val` keeps the lowlink invariant when `val` numbers an on-stack node `u` reaches. */
  lemma LowerLow<N(!new)>(g: Graph<N>, ind: map<N, nat>, low: map<N, nat>, on: set<N>, u: N, val: nat, b: N)
    requires LowInv(g, ind, low, on) && u in on && u in low
    requires val >= low[u] || (b in on && b in ind && u in ind && ind[b] <= ind[u] && val == ind[b] && Reach(g, u, b))
    ensures LowInv(g, ind, Lower(low, u, val), on)
  {
    forall x | x in on
      ensures LowOk(g, ind, Lower(low, u, val), on, x)
    {
      assert LowOk(g, ind, low, on, x);
      if x == u && val < low[u] {
        assert Lower(low, u, val)[u] == ind[b];
      } else {
        assert Lower(low, u, val)[x] == low[x];
      }
    }
  }

  lemma KeepsLower<N(!new)>(xs: set<N>, low0: map<N, nat>, low: map<N, nat>, u: N, val: nat)
    requires Keeps(xs, low0, low) && u !in xs && u in low
    ensures Keeps(xs, low0, Lower(low, u, val))
  {
  }

  lemma FreshEdgesLower<N(!new)>(g: Graph<N>, u: N, ind0: map<N, nat>, on: set<N>, ind: map<N, nat>, low: map<N, nat>, val: nat)
    requires FreshEdgesAbove(g, u, ind0, on, ind, low)
    ensures FreshEdgesAbove(g, u, ind0, on, ind, Lower(low, u, val))
  {
  }

  /** Scanning `w` and lowering `low[u]` to at most `ind[w]` (when `w` is on the stack) extends the scanned edges. */
  lemma SeenLower<N(!new)>(g: Graph<N>, u: N, todo: set<N>, w: N, on: set<N>, ind: map<N, nat>, low: map<N, nat>, val: nat)
    requires SeenAbove(g, u, todo, on, ind, low)
    requires w in on ==> w in ind && val <= ind[w]
    ensures SeenAbove(g, u, todo - {w}, on, ind, Lower(low, u, val))
  {
  }

  // ---------------------------------------------------------------- one successor

  /** `w` is finished and off the stack: nothing changes. */
  lemma StepDoneSpec<N(!new)>(g: Graph<N>, u: N, todo: set<N>, w: N, s0: TState<N>, s: TState<N>)
    requires NInv(g, u, todo, s0, s) && w in todo && w in s.indices && w !in s.onStack
    ensures NInv(g, u, todo - {w}, s0, Step(g, u, w, s))
  {
    SeenLower(g, u, todo, w, s.onStack, s.indices, s.lowlink, s.lowlink[u]);
    assert Lower(s.lowlink, u, s.lowlink[u]) == s.lowlink;
  }

  /** `w` is on the stack: `low[u]` drops to `w`'s number. */
  lemma StepOnStackSpec<N(!new)>(g: Graph<N>, u: N, todo: set<N>, w: N, s0: TState<N>, s: TState<N>)
    requires NInv(g, u, todo, s0, s) && w in todo && w in s.indices && w in s.onStack
    ensures NInv(g, u, todo - {w}, s0, Step(g, u, w, s))
  {
    LowBelowIndex(g, s.indices, s.lowlink, s.onStack, u);
    ReachEdge(g, u, w);
    LowerLow(g, s.indices, s.lowlink, s.onStack, u, s.indices[w], w);
    KeepsLower(s0.onStack - {u}, s0.lowlink, s.lowlink, u, s.indices[w]);
    FreshEdgesLower(g, u, s0.indices, s.onStack, s.indices, s.lowlink, s.indices[w]);
    SeenLower(g, u, todo, w, s.onStack, s.indices, s.lowlink, s.indices[w]);
  }

  lemma GrowsTrans<N(!new)>(s: TState<N>, t: TState<N>, r: TState<N>)
    requires Grows(s, t) && Grows(t, r)
    ensures Grows(s, r)
  {
  }

  lemma KeepsTrans<N(!new)>(xs: set<N>, ys: set<N>, low0: map<N, nat>, low1: map<N, nat>, low2: map<N, nat>)
    requires Keeps(xs, low0, low1) && Keeps(ys, low1, low2) && xs <= ys
    ensures Keeps(xs, low0, low2)
  {
  }

  // ---------------------------------------------------------------- a successor visited by the recursive call

  /** After `strongconnect(w)` returns, `lowlink[u] = min(lowlink[u], lowlink[w])` keeps the lowlink invariant. */
  lemma VisitLow<N(!new)>(g: Graph<N>, u: N, w: N, t: TState<N>)
    requires LowInv(g, t.indices, t.lowlink, t.onStack) && u in t.onStack && Edge(g, u, w)
    requires u in t.indices && u in t.lowlink && w in t.indices && w in t.lowlink && t.indices[u] < t.indices[w]
    requires w !in t.onStack ==> t.lowlink[w] == t.indices[w]
    ensures LowInv(g, t.indices, Lower(t.lowlink, u, t.lowlink[w]), t.onStack)
  {
    LowBelowIndex(g, t.indices, t.lowlink, t.onStack, u);
    if w in t.onStack {
      assert LowOk(g, t.indices, t.lowlink, t.onStack, w);
      var b :| b in t.onStack && b in t.indices && t.indices[b] <= t.indices[w] && t.lowlink[w] == t.indices[b] && Reach(g, w, b);
      ReachEdge(g, u, w);
      ReachTrans(g, u, w, b);
      LowerLow(g, t.indices, t.lowlink, t.onStack, u, t.lowlink[w], b);
    } else {
      LowerLow(g, t.indices, t.lowlink, t.onStack, u, t.lowlink[w], u);
    }
  }

  /** A successor `w` left on the stack reaches `u`: its lowlink names an older stack node, which reaches `u`. */
  lemma VisitReachBack<N(!new)>(g: Graph<N>, u: N, w: N, s: TState<N>, t: TState<N>)
    requires LowInv(g, t.indices, t.lowlink, t.onStack) && ReachAll(g, s.onStack, u) && StackOld(s, t)
    requires w in t.indices && w in t.lowlink && t.indices[w] == s.index && NFin(g, s.index, s.indices, t.indices)
    requires w in t.onStack ==> t.lowlink[w] < t.indices[w]
    ensures w in t.onStack ==> Reach(g, w, u)
  {
    if w in t.onStack {
      assert LowOk(g, t.indices, t.lowlink, t.onStack, w);
      var b :| b in t.onStack && b in t.indices && t.indices[b] <= t.indices[w] && t.lowlink[w] == t.indices[b] && Reach(g, w, b);
      ReachTrans(g, w, b, u);
    }
  }

  lemma VisitReachAll<N(!new)>(g: Graph<N>, u: N, w: N, s: TState<N>, t: TState<N>)
    requires ReachAll(g, s.onStack, u) && ReachAll(g, t.onStack, w)
    requires w !in t.onStack ==> t.onStack == s.onStack
    requires w in t.onStack ==> Reach(g, w, u)
    ensures ReachAll(g, t.onStack, u)
  {
    forall x | x in t.onStack
      ensures Reach(g, x, u)
    {
      if x !in s.onStack {
        ReachTrans(g, x, w, u);
      }
    }
  }

  lemma VisitFreshReach<N(!new)>(g: Graph<N>, u: N, w: N, ind0: map<N, nat>, ind1: map<N, nat>, ind2: map<N, nat>)
    requires FreshReach(g, u, ind0, ind1) && FreshReach(g, w, ind1, ind2) && Edge(g, u, w)
    ensures FreshReach(g, u, ind0, ind2)
  {
    forall x | x in ind2 && x !in ind0
      ensures Reach(g, u, x)
    {
      if x !in ind1 {
        ReachEdge(g, u, w);
        ReachTrans(g, u, w, x);
      }
    }
  }

  lemma VisitNFin<N(!new)>(g: Graph<N>, s0: TState<N>, s: TState<N>, t: TState<N>)
    requires NFin(g, s0.index, s0.indices, s.indices) && NFin(g, s.index, s.indices, t.indices)
    requires s0.index <= s.index && Grows(s, t)
    ensures NFin(g, s0.index, s0.indices, t.indices)
  {
  }

  lemma VisitEdges<N(!new)>(g: Graph<N>, u: N, w: N, s0: TState<N>, s: TState<N>, t: TState<N>)
    requires FreshEdgesAbove(g, u, s0.indices, s.onStack, s.indices, s.lowlink)
    requires FreshEdgesAbove(g, w, s.indices, t.onStack, t.indices, t.lowlink)
    requires NFin(g, s0.index, s0.indices, s.indices) && StackOld(s, t) && Grows(s, t)
    requires u in t.lowlink && t.lowlink[u] == s.lowlink[u]
    ensures FreshEdgesAbove(g, u, s0.indices, t.onStack, t.indices, Lower(t.lowlink, u, t.lowlink[w]))
  {
  }

  lemma VisitSeen<N(!new)>(g: Graph<N>, u: N, todo: set<N>, w: N, s: TState<N>, t: TState<N>)
    requires SeenAbove(g, u, todo, s.onStack, s.indices, s.lowlink)
    requires forall b {:trigger Edge(g, u, b)} :: Edge(g, u, b) && b !in todo ==> b in s.indices
    requires StackOld(s, t) && Grows(s, t)
    requires u in t.lowlink && t.lowlink[u] == s.lowlink[u] && w in t.indices && w in t.lowlink
    requires w in t.onStack ==> t.lowlink[w] <= t.indices[w]
    ensures SeenAbove(g, u, todo - {w}, t.onStack, t.indices, Lower(t.lowlink, u, t.lowlink[w]))
  {
  }

  lemma VisitWf<N(!new)>(g: Graph<N>, u: N, w: N, t: TState<N>)
    requires Wf(g, t) && u in t.onStack && Edge(g, u, w) && w in t.indices
    requires t.indices[u] < t.indices[w]
    requires w !in t.onStack ==> t.lowlink[w] == t.indices[w]
    ensures Wf(g, t.(lowlink := Lower(t.lowlink, u, t.lowlink[w])))
  {
    VisitLow(g, u, w, t);
  }

  lemma VisitTrack<N(!new)>(g: Graph<N>, u: N, todo: set<N>, w: N, s0: TState<N>, s: TState<N>, t: TState<N>)
    requires NInv(g, u, todo, s0, s) && w in todo && w !in s.indices && SCPost(g, w, s, t)
    ensures Track(g, u, todo - {w}, s0, t.(lowlink := Lower(t.lowlink, u, t.lowlink[w])))
  {
    StackOldHolds(s, t);
    VisitReachBack(g, u, w, s, t);
    VisitReachAll(g, u, w, s, t);
    VisitFreshReach(g, u, w, s0.indices, s.indices, t.indices);
    VisitNFin(g, s0, s, t);
    KeepsTrans(s0.onStack - {u}, s.onStack, s0.lowlink, s.lowlink, t.lowlink);
    KeepsLower(s0.onStack - {u}, s0.lowlink, t.lowlink, u, t.lowlink[w]);
    VisitEdges(g, u, w, s0, s, t);
    if w in t.onStack {
      LowBelowIndex(g, t.indices, t.lowlink, t.onStack, w);
    }
    VisitSeen(g, u, todo, w, s, t);
  }

  /** The loop invariant survives visiting an unnumbered successor, given what `strongconnect(w)` guarantees. */
  lemma VisitParts<N(!new)>(g: Graph<N>, u: N, todo: set<N>, w: N, s0: TState<N>, s: TState<N>, t: TState<N>)
    requires NInv(g, u, todo, s0, s) && w in todo && w !in s.indices && SCPost(g, w, s, t)
    ensures NInv(g, u, todo - {w}, s0, t.(lowlink := Lower(t.lowlink, u, t.lowlink[w])))
  {
    VisitWf(g, u, w, t);
    VisitTrack(g, u, todo, w, s0, s, t);
    GrowsTrans(s0, s, t);
  }

  lemma ReachAllEdge<N(!new)>(g: Graph<N>, on: set<N>, u: N, w: N)
    requires ReachAll(g, on, u) && Edge(g, u, w)
    ensures ReachAll(g, on, w)
  {
    ReachEdge(g, u, w);
    forall x | x in on
      ensures Reach(g, x, w)
    {
      ReachTrans(g, x, u, w);
    }
  }

  /** The loop invariant holds when the scan of `graph[v]` begins, right after `v` is pushed. */
  lemma NInitial<N(!new)>(g: Graph<N>, s: TState<N>, v: N)
    requires Closed(g) && Wf(g, s) && v in g && v !in s.indices && ReachAll(g, s.onStack, v)
    ensures NInv(g, v, g[v], Push(s, v), Push(s, v))
  {
    PushWf(g, s, v);
    ReachRefl(g, v);
  }

  // ---------------------------------------------------------------- the recursion

  /** One iteration of the successor loop keeps its invariant. */
  lemma StepSpec<N(!new)>(g: Graph<N>, u: N, todo: set<N>, w: N, s0: TState<N>, s: TState<N>)
    requires NInv(g, u, todo, s0, s) && w in todo
    ensures NInv(g, u, todo - {w}, s0, Step(g, u, w, s))
    decreases |Unvisited(g, s)|, 1, 0
  {
    WfShaped(g, s);
    if w !in s.indices {
      ReachAllEdge(g, s.onStack, u, w);
      StrongConnectSpec(g, w, s);
      VisitParts(g, u, todo, w, s0, s, StrongConnect(g, w, s));
    } else if w in s.onStack {
      StepOnStackSpec(g, u, todo, w, s0, s);
    } else {
      StepDoneSpec(g, u, todo, w, s0, s);
    }
  }

  /** The whole successor loop keeps its invariant. */
  lemma NeighborsSpec<N(!new)>(g: Graph<N>, u: N, todo: set<N>, s0: TState<N>, s: TState<N>)
    requires NInv(g, u, todo, s0, s)
    ensures todo <= g.Keys && Shaped(s) && u in s.indices
    ensures NInv(g, u, {}, s0, Neighbors(g, u, todo, s))
    decreases |Unvisited(g, s)|, 1, |todo|
  {
    WfShaped(g, s);
    if todo != {} {
      var w := Pick(todo);
      StepSpec(g, u, todo, w, s0, s);
      SubsetCard(Unvisited(g, Step(g, u, w, s)), Unvisited(g, s));
      NeighborsSpec(g, u, todo - {w}, s0, Step(g, u, w, s));
    }
  }

  lemma UnvisitedPush<N>(g: Graph<N>, s: TState<N>, v: N)
    requires v in g && v !in s.indices
    ensures |Unvisited(g, Push(s, v))| < |Unvisited(g, s)|
  {
    assert v in Unvisited(g, s) && Unvisited(g, Push(s, v)) == Unvisited(g, s) - {v};
  }

  /** `strongconnect(v)`, called on an unnumbered node that every stack node reaches, meets its specification. */
  lemma StrongConnectSpec<N(!new)>(g: Graph<N>, v: N, s: TState<N>)
    requires Closed(g) && Wf(g, s) && v in g && v !in s.indices && ReachAll(g, s.onStack, v)
    ensures SCPost(g, v, s, StrongConnect(g, v, s))
    decreases |Unvisited(g, s)|, 0
  {
    NInitial(g, s, v);
    UnvisitedPush(g, s, v);
    NeighborsSpec(g, v, g[v], Push(s, v), Push(s, v));
    ConnectTail(g, v, s);
  }

  /** `strongconnect(v)` once its successor loop has kept its invariant. */
  lemma ConnectTail<N(!new)>(g: Graph<N>, v: N, s: TState<N>)
    requires Closed(g) && Wf(g, s) && v in g && v !in s.indices && ReachAll(g, s.onStack, v)
    requires g[v] <= g.Keys && Shaped(Push(s, v)) && NInv(g, v, {}, Push(s, v), Neighbors(g, v, g[v], Push(s, v)))
    ensures SCPost(g, v, s, StrongConnect(g, v, s))
  {
    FinishSpec(g, v, s, Neighbors(g, v, g[v], Push(s, v)));
  }

  // ---------------------------------------------------------------- the end of `strongconnect(v)`

  /** The on-stack nodes numbered from `k` on: when `v` is a root, its component. */
  ghost function Above<N(!new)>(on: set<N>, ind: map<N, nat>, k: nat): set<N> {
    set x | x in on && x in ind && ind[x] >= k
  }

  /** Popping down to `v` on a sorted stack removes exactly the on-stack nodes numbered from `v` on. */
  lemma PopSplit<N(!new)>(st: seq<N>, on: set<N>, ind: map<N, nat>, below: seq<N>, v: N)
    requires StackOk(st, on, ind) && below + [v] <= st
    ensures v in st && v in ind
    ensures PopUntil(st, v).0 == below && PopUntil(st, v).1 == Above(on, ind, ind[v])
    ensures forall x :: x in on ==> (x in below <==> ind[x] < ind[v])
  {
    PopKeepsPrefix(st, below, v);
    var m := |below|;
    var k := |PopUntil(st, v).0|;
    assert st[m] == v;
    if m < k {
      assert Beneath(st, m, k);
    }
    assert k == m;
    assert below == st[..m];
    forall x | x in PopUntil(st, v).1
      ensures x in Above(on, ind, ind[v])
    {
      var j :| m <= j < |st| && st[j] == x;
      if m < j {
        assert Beneath(st, m, j);
      }
    }
    forall x | x in Above(on, ind, ind[v])
      ensures x in PopUntil(st, v).1
    {
      var j :| 0 <= j < |st| && st[j] == x;
      if j < m {
        assert Beneath(st, j, m);
      }
      assert st[m..][j - m] == x;
    }
    forall x | x in on
      ensures x in below <==> ind[x] < ind[v]
    {
      var j :| 0 <= j < |st| && st[j] == x;
      if j < m {
        assert Beneath(st, j, m);
        assert below[j] == x;
      } else if m < j {
        assert Beneath(st, m, j);
      }
      if x in below {
        var i :| 0 <= i < m && below[i] == x;
        assert Beneath(st, i, m);
      }
    }
  }

  /**
   * A walk out of the component of a root `v` that can come back to `v` stays inside it:
   * its next node is numbered, not finished (else `v` would be finished too), and so on
   * the stack no lower than `lowlink[v]`.
   */
  lemma {:induction false} PathInComp<N(!new)>(g: Graph<N>, p: seq<N>, v: N, index0: nat, ind0: map<N, nat>, ind: map<N, nat>, low: map<N, nat>, on: set<N>, sccs: seq<set<N>>)
    requires ind.Keys == on + Done(sccs) && on !! Done(sccs) && AllScc(g, sccs)
    requires NFin(g, index0, ind0, ind) && FreshReach(g, v, ind0, ind) && FreshEdgesAbove(g, v, ind0, on, ind, low)
    requires v in on && low[v] == index0
    requires forall x :: x in ind0 ==> x in ind && ind[x] < index0
    requires IsPath(g, p) && p[0] in Above(on, ind, index0) && Reach(g, p[|p| - 1], v)
    ensures p[|p| - 1] in Above(on, ind, index0)
    decreases |p|
  {
    if |p| > 1 {
      var a, b := p[0], p[1];
      var q := p[1..];
      assert q[0] == b && q[|q| - 1] == p[|p| - 1];
      assert Reach(g, b, p[|p| - 1]);
      ReachTrans(g, b, p[|p| - 1], v);
      assert Edge(g, a, b);
      ReachEdge(g, a, b);
      ReachTrans(g, v, a, b);
      DoneClosed(g, sccs, b, v);
      PathInComp(g, q, v, index0, ind0, ind, low, on, sccs);
    }
  }

  /** The nodes popped for a root `v` form a strongly connected component. */
  lemma CompScc<N(!new)>(g: Graph<N>, v: N, index0: nat, ind0: map<N, nat>, ind: map<N, nat>, low: map<N, nat>, on: set<N>, sccs: seq<set<N>>)
    requires ind.Keys == on + Done(sccs) && on !! Done(sccs) && AllScc(g, sccs)
    requires NFin(g, index0, ind0, ind) && FreshReach(g, v, ind0, ind) && FreshEdgesAbove(g, v, ind0, on, ind, low)
    requires ReachAll(g, on, v) && v in on && v in ind && ind[v] == index0 && low[v] == index0
    requires forall x :: x in ind0 ==> x in ind && ind[x] < index0
    ensures IsScc(g, Above(on, ind, index0))
  {
    var c := Above(on, ind, index0);
    assert v in c;
    forall x, y | x in c && y in c
      ensures MutReach(g, x, y)
    {
      ReachTrans(g, x, v, y);
      ReachTrans(g, y, v, x);
    }
    forall x, y | x in c && MutReach(g, x, y)
      ensures y in c
    {
      var p :| IsPath(g, p) && p[0] == x && p[|p| - 1] == y;
      ReachTrans(g, y, x, v);
      PathInComp(g, p, v, index0, ind0, ind, low, on, sccs);
    }
  }

  lemma AllSccAppend<N(!new)>(g: Graph<N>, sccs: seq<set<N>>, c: set<N>)
    requires AllScc(g, sccs) && IsScc(g, c)
    ensures AllScc(g, sccs + [c])
  {
    forall k | 0 <= k < |sccs| + 1
      ensures IsScc(g, (sccs + [c])[k])
    {
      if k < |sccs| {
        assert (sccs + [c])[k] == sccs[k];
      }
    }
  }

  lemma PopStack<N(!new)>(st: seq<N>, on: set<N>, ind: map<N, nat>, below: seq<N>, k: nat)
    requires StackOk(st, on, ind) && below <= st
    requires forall x :: x in on ==> (x in below <==> ind[x] < k)
    ensures StackOk(below, on - Above(on, ind, k), ind)
  {
    forall i | 0 <= i < |below|
      ensures below[i] in on - Above(on, ind, k) && below[i] in ind
    {
      assert below[i] == st[i];
    }
    forall i, j | Beneath(below, i, j)
      ensures ind[below[i]] < ind[below[j]]
    {
      assert Beneath(st, i, j);
    }
  }

  /** The lowlink of a node left on the stack names an older node, which is left on it too. */
  lemma PopLow<N(!new)>(g: Graph<N>, ind: map<N, nat>, low: map<N, nat>, on: set<N>, k: nat)
    requires LowInv(g, ind, low, on)
    ensures LowInv(g, ind, low, on - Above(on, ind, k))
  {
    forall x | x in on - Above(on, ind, k)
      ensures LowOk(g, ind, low, on - Above(on, ind, k), x)
    {
      assert LowOk(g, ind, low, on, x);
    }
  }

  /** Popping a component keeps the state invariant. */
  lemma PopWf<N(!new)>(g: Graph<N>, n: TState<N>, below: seq<N>, k: nat)
    requires Wf(g, n) && IsScc(g, Above(n.onStack, n.indices, k)) && below <= n.stack
    requires forall x :: x in n.onStack ==> (x in below <==> n.indices[x] < k)
    ensures Wf(g, TState(n.index, n.indices, n.lowlink, below, n.onStack - Above(n.onStack, n.indices, k), n.sccs + [Above(n.onStack, n.indices, k)]))
  {
    DoneAppend(n.sccs, Above(n.onStack, n.indices, k));
    AllSccAppend(g, n.sccs, Above(n.onStack, n.indices, k));
    PopStack(n.stack, n.onStack, n.indices, below, k);
    PopLow(g, n.indices, n.lowlink, n.onStack, k);
  }

  /** What holds once the successor loop of `strongconnect(v)` is over, relative to the state `s` before the call. */
  ghost predicate FinPre<N(!new)>(g: Graph<N>, v: N, s: TState<N>, n: TState<N>) {
    && Closed(g) && Wf(g, s) && Wf(g, n) && Grows(s, n)
    && v !in s.indices && v in n.onStack && v in n.indices && n.indices[v] == s.index
    && s.stack + [v] <= n.stack
    && ReachAll(g, s.onStack, v) && ReachAll(g, n.onStack, v)
    && FreshReach(g, v, s.indices, n.indices)
    && NFin(g, s.index, s.indices, n.indices)
    && Keeps(s.onStack, s.lowlink, n.lowlink)
    && FreshEdgesAbove(g, v, s.indices, n.onStack, n.indices, n.lowlink)
  }

  lemma FreshReachPush<N(!new)>(g: Graph<N>, v: N, ind0: map<N, nat>, k: nat, ind: map<N, nat>)
    requires FreshReach(g, v, ind0[v := k], ind)
    ensures FreshReach(g, v, ind0, ind)
  {
    ReachRefl(g, v);
  }

  lemma NFinPush<N(!new)>(g: Graph<N>, v: N, ind0: map<N, nat>, k: nat, ind: map<N, nat>)
    requires NFin(g, k + 1, ind0[v := k], ind) && v in ind && ind[v] == k
    requires forall y {:trigger Edge(g, v, y)} :: Edge(g, v, y) && y !in {} ==> y in ind
    ensures NFin(g, k, ind0, ind)
  {
    forall x, y | Edge(g, x, y) && x in ind && x !in ind0
      ensures y in ind
    {
      if x != v {
        assert x !in ind0[v := k];
      }
    }
  }

  lemma KeepsPush<N(!new)>(on: set<N>, v: N, low0: map<N, nat>, k: nat, low: map<N, nat>)
    requires Keeps(on + {v} - {v}, low0[v := k], low) && v !in on && on <= low0.Keys
    ensures Keeps(on, low0, low)
  {
  }

  lemma EdgesPush<N(!new)>(g: Graph<N>, v: N, ind0: map<N, nat>, k: nat, on: set<N>, ind: map<N, nat>, low: map<N, nat>)
    requires FreshEdgesAbove(g, v, ind0[v := k], on, ind, low) && SeenAbove(g, v, {}, on, ind, low)
    ensures FreshEdgesAbove(g, v, ind0, on, ind, low)
  {
    forall x, b | Edge(g, x, b) && x in ind && x !in ind0 && b in on
      ensures b in ind && low[v] <= ind[b]
    {
      if x != v {
        assert x !in ind0[v := k];
      } else {
        assert b !in {};
      }
    }
  }

  lemma FinishCommon<N(!new)>(g: Graph<N>, v: N, s: TState<N>, n: TState<N>)
    requires Closed(g) && Wf(g, s) && v in g && v !in s.indices && ReachAll(g, s.onStack, v)
    requires NInv(g, v, {}, Push(s, v), n) && s.stack + [v] <= n.stack
    ensures FinPre(g, v, s, n)
  {
    PushWf(g, s, v);
    GrowsTrans(s, Push(s, v), n);
    FreshReachPush(g, v, s.indices, s.index, n.indices);
    NFinPush(g, v, s.indices, s.index, n.indices);
    KeepsPush(s.onStack, v, s.lowlink, s.index, n.lowlink);
    EdgesPush(g, v, s.indices, s.index, n.onStack, n.indices, n.lowlink);
  }

  lemma FinishKeep<N(!new)>(g: Graph<N>, v: N, s: TState<N>, n: TState<N>)
    requires FinPre(g, v, s, n) && n.lowlink[v] != n.indices[v]
    ensures SCPost(g, v, s, Finish(s.stack, v, n))
  {
    LowBelowIndex(g, n.indices, n.lowlink, n.onStack, v);
  }

  /** The nodes a root `v` pops are the ones pushed since `v`, and they form a component. */
  lemma RootComp<N(!new)>(g: Graph<N>, v: N, s: TState<N>, n: TState<N>)
    requires FinPre(g, v, s, n) && n.lowlink[v] == n.indices[v]
    ensures IsScc(g, Above(n.onStack, n.indices, s.index))
    ensures PopUntil(n.stack, v).0 == s.stack && PopUntil(n.stack, v).1 == Above(n.onStack, n.indices, s.index)
    ensures forall x :: x in n.onStack ==> (x in s.stack <==> n.indices[x] < s.index)
    ensures n.onStack - Above(n.onStack, n.indices, s.index) == s.onStack
  {
    PopSplit(n.stack, n.onStack, n.indices, s.stack, v);
    CompScc(g, v, s.index, s.indices, n.indices, n.lowlink, n.onStack, n.sccs);
  }

  lemma FinishPopState<N(!new)>(g: Graph<N>, v: N, s: TState<N>, n: TState<N>)
    requires FinPre(g, v, s, n) && n.lowlink[v] == n.indices[v]
    ensures Finish(s.stack, v, n) == TState(n.index, n.indices, n.lowlink, s.stack, s.onStack, n.sccs + [Above(n.onStack, n.indices, s.index)])
    ensures Wf(g, Finish(s.stack, v, n)) && Done(n.sccs) <= Done(Finish(s.stack, v, n).sccs)
  {
    RootComp(g, v, s, n);
    PopWf(g, n, s.stack, s.index);
    DoneAppend(n.sccs, Above(n.onStack, n.indices, s.index));
  }

  lemma FinishPop<N(!new)>(g: Graph<N>, v: N, s: TState<N>, n: TState<N>)
    requires FinPre(g, v, s, n) && n.lowlink[v] == n.indices[v]
    ensures SCPost(g, v, s, Finish(s.stack, v, n))
  {
    FinishPopState(g, v, s, n);
  }

  /** The end of `strongconnect(v)` establishes its specification. */
  lemma FinishSpec<N(!new)>(g: Graph<N>, v: N, s: TState<N>, n: TState<N>)
    requires Closed(g) && Wf(g, s) && v in g && v !in s.indices && ReachAll(g, s.onStack, v)
    requires NInv(g, v, {}, Push(s, v), n) && s.stack + [v] <= n.stack
    ensures SCPost(g, v, s, Finish(s.stack, v, n))
  {
    FinishCommon(g, v, s, n);
    if n.lowlink[v] == n.indices[v] {
      FinishPop(g, v, s, n);
    } else {
      FinishKeep(g, v, s, n);
    }
  }

  // ---------------------------------------------------------------- the outer loop and `find_sccs`

  /** A node left on the stack with a lowlink below its own number points at an older stack node. */
  lemma LowWitnessOld<N(!new)>(g: Graph<N>, v: N, s: TState<N>, r: TState<N>)
    requires Wf(g, r) && StackOld(s, r) && NFin(g, s.index, s.indices, r.indices)
    requires v in r.onStack && r.indices[v] == s.index && r.lowlink[v] < r.indices[v]
    ensures s.onStack != {}
  {
    assert LowOk(g, r.indices, r.lowlink, r.onStack, v);
    var b :| b in r.onStack && b in r.indices && r.indices[b] <= r.indices[v] && r.lowlink[v] == r.indices[b] && Reach(g, v, b);
    assert b in s.indices;
  }

  /** Called with an empty stack, `strongconnect` leaves it empty: its start node is a root. */
  lemma EmptyStackRoot<N(!new)>(g: Graph<N>, v: N, s: TState<N>, r: TState<N>)
    requires Wf(g, s) && s.onStack == {} && SCPost(g, v, s, r)
    ensures r.onStack == {}
  {
    StackOldHolds(s, r);
    if v in r.onStack {
      LowWitnessOld(g, v, s, r);
    }
  }

  lemma InitialWf<N(!new)>(g: Graph<N>)
    ensures Wf(g, Initial()) && Initial<N>().onStack == {}
  {
  }

  /** The outer loop keeps the invariant with an empty stack. */
  lemma VisitSpec<N(!new)>(g: Graph<N>, todo: set<N>, s: TState<N>)
    requires Closed(g) && todo <= g.Keys && Wf(g, s) && s.onStack == {}
    ensures Wf(g, Visit(g, todo, s)) && Visit(g, todo, s).onStack == {}
    decreases todo
  {
    WfShaped(g, s);
    if todo != {} {
      var v := Pick(todo);
      if v in s.indices {
        VisitSpec(g, todo - {v}, s);
      } else {
        StrongConnectSpec(g, v, s);
        EmptyStackRoot(g, v, s, StrongConnect(g, v, s));
        VisitSpec(g, todo - {v}, StrongConnect(g, v, s));
      }
    }
  }

  /** Two components that share a node are the same component. */
  lemma SccUnique<N(!new)>(g: Graph<N>, c1: set<N>, c2: set<N>, x: N)
    requires IsScc(g, c1) && IsScc(g, c2) && x in c1 && x in c2
    ensures c1 == c2
  {
    forall y | y in c1
      ensures y in c2
    {
      assert MutReach(g, x, y);
    }
    forall y | y in c2
      ensures y in c1
    {
      assert MutReach(g, x, y);
    }
  }

  lemma PartitionSccs<N(!new)>(g: Graph<N>, sccs: seq<set<N>>)
    requires AllScc(g, sccs) && Done(sccs) == g.Keys
    ensures forall c :: c in sccs ==> IsScc(g, c) && c <= g.Keys
  {
    forall c | c in sccs
      ensures IsScc(g, c) && c <= g.Keys
    {
      var k :| 0 <= k < |sccs| && sccs[k] == c;
      forall x | x in c
        ensures x in g
      {
        DoneMember(sccs, x);
      }
    }
  }

  lemma PartitionCovers<N(!new)>(g: Graph<N>, sccs: seq<set<N>>, x: N)
    requires Done(sccs) == g.Keys && x in g
    ensures exists c :: c in sccs && x in c
  {
    DoneMember(sccs, x);
    var k :| 0 <= k < |sccs| && x in sccs[k];
    assert sccs[k] in sccs;
  }

  lemma PartitionMutReach<N(!new)>(g: Graph<N>, sccs: seq<set<N>>, x: N, y: N)
    requires AllScc(g, sccs) && Done(sccs) == g.Keys && x in g
    ensures MutReach(g, x, y) <==> exists c :: c in sccs && x in c && y in c
  {
    PartitionCovers(g, sccs, x);
    var c :| c in sccs && x in c;
    var k :| 0 <= k < |sccs| && sccs[k] == c;
    assert IsScc(g, c);
    if exists c' :: c' in sccs && x in c' && y in c' {
      var c' :| c' in sccs && x in c' && y in c';
      var k' :| 0 <= k' < |sccs| && sccs[k'] == c';
      assert IsScc(g, c');
    }
  }

  /**
   * `find_sccs` is correct: it returns strongly connected components that
   * cover the graph, no node lies in two of them, and two nodes share a
   * returned component exactly when they reach each other.
   */
  lemma FindSccsCorrect<N(!new)>(g: Graph<N>)
    requires Closed(g)
    ensures forall c :: c in FindSccs(g) ==> IsScc(g, c) && c <= g.Keys
    ensures forall x :: x in g ==> exists c :: c in FindSccs(g) && x in c
    ensures forall c1, c2, x :: c1 in FindSccs(g) && c2 in FindSccs(g) && x in c1 && x in c2 ==> c1 == c2
    ensures forall x, y :: x in g ==> (MutReach(g, x, y) <==> exists c :: c in FindSccs(g) && x in c && y in c)
  {
    VisitCovers(g);
    FindSccsParts(g, Visit(g, g.Keys, Initial()).sccs);
  }

  /** After the outer loop every node is finished, and the recorded sets are components. */
  lemma VisitCovers<N(!new)>(g: Graph<N>)
    requires Closed(g)
    ensures AllScc(g, Visit(g, g.Keys, Initial()).sccs) && Done(Visit(g, g.Keys, Initial()).sccs) == g.Keys
  {
    InitialWf(g);
    VisitSpec(g, g.Keys, Initial());
  }

  lemma PartitionDisjoint<N(!new)>(g: Graph<N>, sccs: seq<set<N>>)
    requires AllScc(g, sccs)
    ensures forall c1, c2, x :: c1 in sccs && c2 in sccs && x in c1 && x in c2 ==> c1 == c2
  {
    forall c1, c2, x | c1 in sccs && c2 in sccs && x in c1 && x in c2
      ensures c1 == c2
    {
      var k1 :| 0 <= k1 < |sccs| && sccs[k1] == c1;
      var k2 :| 0 <= k2 < |sccs| && sccs[k2] == c2;
      SccUnique(g, c1, c2, x);
    }
  }

  /** The facts of `FindSccsCorrect` about the recorded list, once it covers the graph. */
  lemma FindSccsParts<N(!new)>(g: Graph<N>, sccs: seq<set<N>>)
    requires AllScc(g, sccs) && Done(sccs) == g.Keys
    ensures forall c :: c in sccs ==> IsScc(g, c) && c <= g.Keys
    ensures forall x :: x in g ==> exists c :: c in sccs && x in c
    ensures forall c1, c2, x :: c1 in sccs && c2 in sccs && x in c1 && x in c2 ==> c1 == c2
    ensures forall x, y :: x in g ==> (MutReach(g, x, y) <==> exists c :: c in sccs && x in c && y in c)
  {
    PartitionSccs(g, sccs);
    forall x | x in g
      ensures exists c :: c in sccs && x in c
    {
      PartitionCovers(g, sccs, x);
    }
    PartitionDisjoint(g, sccs);
    forall x, y | x in g
      ensures MutReach(g, x, y) <==> exists c :: c in sccs && x in c && y in c
    {
      PartitionMutReach(g, sccs, x, y);
    }
  }
}
