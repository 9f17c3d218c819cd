/**
 * Directed graphs as adjacency maps (`Dict[N, Set[N]]`) and reachability
 * along their edges.
 */
module Digraph {

  /** Each node to the set of its successors. */
  type Graph<N> = map<N, set<N>>

  /** Every successor is itself a node of the graph, so `graph[w]` is defined for it. */
  predicate Closed<N>(g: Graph<N>) {
    forall x, y :: x in g && y in g[x] ==> y in g
  }

  /** `x -> y` is an edge of `g`. */
  predicate Edge<N>(g: Graph<N>, x: N, y: N) {
    x in g && y in g[x]
  }

  /** A non-empty walk along edges of `g`. */
  ghost predicate IsPath<N>(g: Graph<N>, p: seq<N>) {
    && |p| >= 1
    && (|p| >= 2 ==> p[0] in g && p[1] in g[p[0]] && IsPath(g, p[1..]))
  }

  /** `y` is reachable from `x` by zero or more edges. */
  ghost predicate Reach<N(!new)>(g: Graph<N>, x: N, y: N) {
    exists p :: IsPath(g, p) && p[0] == x && p[|p| - 1] == y
  }

  /** `x` and `y` reach each other: they belong to one strongly connected component. */
  ghost predicate MutReach<N(!new)>(g: Graph<N>, x: N, y: N) {
    Reach(g, x, y) && Reach(g, y, x)
  }

  lemma ReachRefl<N(!new)>(g: Graph<N>, x: N)
    ensures Reach(g, x, x)
  {
    assert IsPath(g, [x]);
  }

  lemma ReachEdge<N(!new)>(g: Graph<N>, x: N, y: N)
    requires x in g && y in g[x]
    ensures Reach(g, x, y)
  {
    assert [x, y][1..] == [y];
    assert IsPath(g, [x, y]);
  }

  /** A walk followed by a walk from its last node is a walk. */
  lemma {:induction false} PathAppend<N>(g: Graph<N>, p: seq<N>, q: seq<N>)
    requires IsPath(g, p) && IsPath(g, q) && p[|p| - 1] == q[0]
    ensures IsPath(g, p + q[1..])
  {
    if |p| == 1 {
      assert p + q[1..] == q;
    } else {
      PathAppend(g, p[1..], q);
      assert (p + q[1..])[1..] == p[1..] + q[1..];
    }
  }

  /** Walks compose. */
  lemma ReachTrans<N(!new)>(g: Graph<N>, x: N, y: N, z: N)
    requires Reach(g, x, y) && Reach(g, y, z)
    ensures Reach(g, x, z)
  {
    var p :| IsPath(g, p) && p[0] == x && p[|p| - 1] == y;
    var q :| IsPath(g, q) && q[0] == y && q[|q| - 1] == z;
    PathAppend(g, p, q);
    var pq := p + q[1..];
    assert pq[0] == x && pq[|pq| - 1] == z;
  }

  lemma MutReachTrans<N(!new)>(g: Graph<N>, x: N, y: N, z: N)
    requires MutReach(g, x, y) && MutReach(g, y, z)
    ensures MutReach(g, x, z)
  {
    ReachTrans(g, x, y, z);
    ReachTrans(g, z, y, x);
  }

  /** Any node other than the start of a walk lies on an edge, hence in the graph's successor sets. */
  lemma ReachFromNode<N(!new)>(g: Graph<N>, x: N, y: N)
    requires Reach(g, x, y) && x != y
    ensures x in g
  {
    var p :| IsPath(g, p) && p[0] == x && p[|p| - 1] == y;
  }

  /** Consecutive nodes of a walk are joined by an edge. */
  lemma {:induction false} PathEdge<N>(g: Graph<N>, p: seq<N>, k: nat)
    requires IsPath(g, p) && k + 1 < |p|
    ensures p[k] in g && p[k + 1] in g[p[k]]
  {
    if k > 0 {
      PathEdge(g, p[1..], k - 1);
    }
  }

  /** A node no edge enters is reached from itself only. */
  lemma NoEdgeInto<N(!new)>(g: Graph<N>, x: N, z: N)
    requires forall w :: w in g ==> z !in g[w]
    requires Reach(g, x, z)
    ensures x == z
  {
    var p :| IsPath(g, p) && p[0] == x && p[|p| - 1] == z;
    if |p| >= 2 {
      PathEdge(g, p, |p| - 2);
    }
  }
}
