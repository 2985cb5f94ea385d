/**
  `analyze_connectivity(map_, key)`: a worklist flood fill. `clist` collects
  the nodes in the order they are first taken off the front of the worklist
  `keys`; a collected node's listed values are queued unless already collected.
 */
module Connectivity {
  import opened Sequences
  import opened Graphs

  /** Every value listed under a node of `s` is in `s` or still queued in `keys`. */
  ghost predicate ClosedUpTo<N>(g: Graph<N>, s: seq<N>, keys: seq<N>)
  {
    forall u, v :: u in s && u in g && v in g[u] ==> v in s || v in keys
  }

  /** Every node of `s` is reachable from `a`. */
  ghost predicate AllReachable<N(!new)>(g: Graph<N>, a: N, s: seq<N>)
  {
    forall x :: x in s ==> Reachable(g, a, x)
  }

  /** A finite set holding every node reachable from `key`: what bounds the flood fill's work. */
  lemma ReachBound<N(!new)>(g: Graph<N>, key: N) returns (all: set<N>)
    ensures forall x :: Reachable(g, key, x) ==> x in all
  {
    all := Nodes(g) + {key};
    forall x | Reachable(g, key, x) ensures x in all {
      ReachableIsNode(g, key, x);
    }
  }

  /** Taking a node that is already collected off the worklist keeps the list closed. */
  lemma ClosedAfterPop<N>(g: Graph<N>, s: seq<N>, keys: seq<N>)
    requires ClosedUpTo(g, s, keys) && |keys| > 0 && keys[0] in s
    ensures ClosedUpTo(g, s, keys[1..])
  {
  }

  /** Collecting `k` and queueing its values keeps the list closed. */
  lemma ClosedAfterCollect<N>(g: Graph<N>, s: seq<N>, keys: seq<N>, k: N, keys': seq<N>)
    requires ClosedUpTo(g, s, keys)
    requires forall x :: x in keys ==> x in keys'
    requires k in g ==> forall v :: v in g[k] ==> v in s + [k] || v in keys'
    ensures ClosedUpTo(g, s + [k], keys')
  {
  }

  /** A list that holds `a` and is closed under the map holds every node reachable from `a`. */
  lemma {:induction false} ClosedHoldsWalkEnd<N>(g: Graph<N>, s: seq<N>, p: seq<N>)
    requires ClosedUpTo(g, s, []) && IsWalk(g, p) && p[0] in s
    ensures p[|p| - 1] in s
    decreases |p|
  {
    if |p| > 1 {
      var p' := p[..|p| - 1];
      assert IsWalk(g, p') by {
        forall i | 0 <= i < |p'| - 1 ensures Edge(g, p'[i], p'[i + 1]) {
          assert p'[i] == p[i] && p'[i + 1] == p[i + 1];
        }
      }
      ClosedHoldsWalkEnd(g, s, p');
      assert Edge(g, p[|p| - 2], p[|p| - 1]);
    }
  }

  /** The values not in `clist`, in their listed order, repeats kept. */
  function Uncollected<N(==)>(clist: seq<N>, values: seq<N>): (r: seq<N>)
    ensures |r| <= |values|
    ensures forall i :: 0 <= i < |r| ==> r[i] in values && r[i] !in clist
    decreases |values|
  {
    if values == [] then []
    else
      var last := values[|values| - 1];
      Uncollected(clist, values[..|values| - 1]) + (if last in clist then [] else [last])
  }

  /** The inner loop over a collected node's values: queue, in order, every value not yet collected. */
  method QueueUncollected<N(==)>(clist: seq<N>, keys: seq<N>, values: seq<N>) returns (keys': seq<N>)
    ensures keys' == keys + Uncollected(clist, values)
    ensures |keys| <= |keys'| && keys'[..|keys|] == keys
    ensures forall x :: x in keys' ==> x in keys || (x in values && x !in clist)
    ensures forall v :: v in values ==> v in clist || v in keys'
  {
    keys' := keys;
    for j := 0 to |values|
      invariant keys' == keys + Uncollected(clist, values[..j])
      invariant |keys| <= |keys'| && keys'[..|keys|] == keys
      invariant forall x :: x in keys' ==> x in keys || (x in values && x !in clist)
      invariant forall v :: v in values[..j] ==> v in clist || v in keys'
    {
      if values[j] !in clist {
        keys' := keys' + [values[j]];
      }
      assert values[..j + 1] == values[..j] + [values[j]];
      assert values[..j + 1][..j] == values[..j];
    }
    assert values[..|values|] == values;
  }

  /** The worklist loop, as the source runs it. */
  method AnalyzeConnectivity<N(==,!new)>(g: Graph<N>, key: N) returns (clist: seq<N>)
    ensures |clist| > 0 && clist[0] == key
    ensures Distinct(clist)
    ensures forall x :: x in clist <==> Reachable(g, key, x)
    ensures forall u, v :: u in clist && u in g && v in g[u] ==> v in clist
  {
    assert Reachable(g, key, key) by {
      assert IsWalk(g, [key]);
    }
    ghost var all := ReachBound(g, key);
    clist := [];
    var keys := [key];
    while |keys| > 0
      invariant Distinct(clist)
      invariant clist == [] ==> keys == [key]
      invariant clist != [] ==> clist[0] == key
      invariant AllReachable(g, key, clist) && AllReachable(g, key, keys)
      invariant ClosedUpTo(g, clist, keys)
      decreases |all - Elems(clist)|, |keys|
    {
      var k := keys[0];
      if k !in clist {
        FewerOutside(all, clist, k);
        ghost var before, queued := clist, keys;
        clist := clist + [k];
        if k in g {
          NeighboursAreNodes(g, k);
          keys := QueueUncollected(clist, keys, g[k]);
          forall v | v in g[k] ensures Reachable(g, key, v) {
            ReachableStep(g, key, k, v);
          }
          assert keys[0] == queued[0];
          assert forall x :: x in queued ==> x in keys by {
            forall x | x in queued ensures x in keys {
              var i :| 0 <= i < |queued| && queued[i] == x;
              assert keys[i] == x;
            }
          }
        }
        ClosedAfterCollect(g, before, queued, k, keys);
      }
      ClosedAfterPop(g, clist, keys);
      keys := keys[1..];
    }
    forall x | Reachable(g, key, x) ensures x in clist {
      var p :| IsWalk(g, p) && p[0] == key && p[|p| - 1] == x;
      ClosedHoldsWalkEnd(g, clist, p);
    }
  }
}
