/**
  The adjacency maps that pdb2pqr's graph utilities take: `{node: [neighbours]}`.
  A node that is only ever listed as a neighbour is a node of the graph too,
  but it has no outgoing edges.
 */
module Graphs {
  import opened Sequences

  type Graph<N> = map<N, seq<N>>

  /** Every node the map mentions, as a key or as a listed neighbour. */
  ghost function Nodes<N>(g: Graph<N>): (ns: set<N>)
  {
    g.Keys + set u, v | u in g && v in g[u] :: v
  }

  /** `v` is listed under key `u`. */
  predicate Edge<N(==)>(g: Graph<N>, u: N, v: N)
  {
    u in g && v in g[u]
  }

  /** A non-empty node sequence in which each node is listed under its predecessor. */
  ghost predicate IsWalk<N>(g: Graph<N>, p: seq<N>)
  {
    |p| > 0 && forall i :: 0 <= i < |p| - 1 ==> Edge(g, p[i], p[i + 1])
  }

  /** A walk from `a` to `b` that visits no node twice. */
  ghost predicate SimplePath<N>(g: Graph<N>, p: seq<N>, a: N, b: N)
  {
    IsWalk(g, p) && Distinct(p) && p[0] == a && p[|p| - 1] == b
  }

  /** `b` can be reached from `a` by following the map (every node reaches itself). */
  ghost predicate Reachable<N(!new)>(g: Graph<N>, a: N, b: N)
  {
    exists p :: IsWalk(g, p) && p[0] == a && p[|p| - 1] == b
  }

  /** The number of nodes that a search which has visited `p` has not visited yet. */
  ghost function Unvisited<N>(g: Graph<N>, p: seq<N>): (n: nat)
  {
    |Nodes(g) - Elems(p)|
  }

  lemma NeighboursAreNodes<N>(g: Graph<N>, u: N)
    requires u in g
    ensures u in Nodes(g)
    ensures forall v :: v in g[u] ==> v in Nodes(g)
  {
  }

  /** Only the start and the nodes of the map can be reached. */
  lemma ReachableIsNode<N(!new)>(g: Graph<N>, a: N, b: N)
    requires Reachable(g, a, b)
    ensures b == a || b in Nodes(g)
  {
    var p :| IsWalk(g, p) && p[0] == a && p[|p| - 1] == b;
    if |p| > 1 {
      assert Edge(g, p[|p| - 2], p[|p| - 1]);
    }
  }

  /** Visiting one more node of the graph leaves fewer unvisited nodes. */
  lemma UnvisitedShrinks<N>(g: Graph<N>, p: seq<N>, x: N)
    requires x in Nodes(g) && x !in p
    ensures Unvisited(g, p + [x]) < Unvisited(g, p)
  {
    FewerOutside(Nodes(g), p, x);
  }

  /** A walk to `u` followed by an edge `u -> v` is a walk to `v`. */
  lemma ReachableStep<N(!new)>(g: Graph<N>, a: N, u: N, v: N)
    requires Reachable(g, a, u) && Edge(g, u, v)
    ensures Reachable(g, a, v)
  {
    var p :| IsWalk(g, p) && p[0] == a && p[|p| - 1] == u;
    var q := p + [v];
    assert forall i :: 0 <= i < |q| - 1 ==> Edge(g, q[i], q[i + 1]) by {
      forall i | 0 <= i < |q| - 1 ensures Edge(g, q[i], q[i + 1]) {
        if i < |p| - 1 {
          assert q[i] == p[i] && q[i + 1] == p[i + 1];
        }
      }
    }
    assert IsWalk(g, q) && q[0] == a && q[|q| - 1] == v;
  }

  /** Cutting the loop between two visits of one node leaves a shorter walk. */
  lemma {:induction false} WalkToSimplePath<N>(g: Graph<N>, p: seq<N>) returns (q: seq<N>)
    requires IsWalk(g, p)
    ensures SimplePath(g, q, p[0], p[|p| - 1]) && |q| <= |p|
    decreases |p|
  {
    if Distinct(p) {
      q := p;
    } else {
      var i, j :| 0 <= i < j < |p| && p[i] == p[j];
      var r := p[..i] + p[j..];
      assert |r| == |p| - (j - i);
      forall k | 0 <= k < |r| - 1 ensures Edge(g, r[k], r[k + 1]) {
        if k < i - 1 {
          assert r[k] == p[k] && r[k + 1] == p[k + 1];
        } else if k == i - 1 {
          assert r[k] == p[i - 1] && r[k + 1] == p[j] == p[i];
        } else {
          assert r[k] == p[k + (j - i)] && r[k + 1] == p[k + 1 + (j - i)];
        }
      }
      assert r[0] == p[0] by {
        if i == 0 { assert r[0] == p[j] == p[i]; }
      }
      assert r[|r| - 1] == p[|p| - 1];
      q := WalkToSimplePath(g, r);
    }
  }

  /** Reachability by walks and by repeat-free paths coincide. */
  lemma ReachableIffSimplePath<N(!new)>(g: Graph<N>, a: N, b: N)
    ensures Reachable(g, a, b) <==> exists q :: SimplePath(g, q, a, b)
  {
    if Reachable(g, a, b) {
      var p :| IsWalk(g, p) && p[0] == a && p[|p| - 1] == b;
      var q := WalkToSimplePath(g, p);
    }
  }
}
