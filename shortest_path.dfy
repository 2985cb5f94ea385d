/**
  `shortest_path(graph, start, end, path=[])`: a depth-first recursion that
  tries every neighbour not yet on the current path and keeps the shortest
  path it gets back, replacing the kept path only by a strictly shorter one.
 */
module ShortestPaths {
  import opened Wrappers
  import opened Sequences
  import opened Graphs

  /** The path the recursion keeps after it has seen `newpath` (`None`: the
      recursive call found nothing). Only a strictly shorter path replaces
      the one already kept. */
  function Keep<N>(shortest: Option<seq<N>>, newpath: Option<seq<N>>): (r: Option<seq<N>>)
    ensures r == shortest || r == newpath
    ensures newpath.Some? ==> r.Some? && |r.value| <= |newpath.value|
    ensures shortest.Some? ==> r.Some? && |r.value| <= |shortest.value|
    ensures r != shortest ==> newpath.Some? && (shortest.Some? ==> |newpath.value| < |shortest.value|)
  {
    if newpath.Some? && (shortest.None? || |newpath.value| < |shortest.value|) then newpath
    else shortest
  }

  /** What `shortest_path(g, start, end, path)` returns. */
  ghost function Search<N>(g: Graph<N>, start: N, end: N, path: seq<N>): (r: Option<seq<N>>)
    decreases Unvisited(g, path + [start]), 1, 0
  {
    var p := path + [start];
    if start == end then Some(p)
    else if start !in g then None
    else
      NeighboursAreNodes(g, start);
      Explore(g, g[start], end, p, None)
  }

  /** The `for node in graph[start]` loop over the neighbours still to try,
      with `shortest` the path kept so far and `p` the current path. */
  ghost function Explore<N>(g: Graph<N>, nbrs: seq<N>, end: N, p: seq<N>, shortest: Option<seq<N>>): (r: Option<seq<N>>)
    requires forall n :: n in nbrs ==> n in Nodes(g)
    decreases Unvisited(g, p), 0, |nbrs|
  {
    if nbrs == [] then shortest
    else Explore(g, nbrs[1..], end, p, Keep(shortest, Found(g, nbrs[0], end, p)))
  }

  /** What one pass of the loop body gets back for `node`: nothing for a node
      already on the current path, otherwise the recursive call's result. */
  ghost function Found<N>(g: Graph<N>, node: N, end: N, p: seq<N>): (r: Option<seq<N>>)
    requires node in Nodes(g)
    decreases Unvisited(g, p), 0, 0
  {
    if node in p then None
    else
      UnvisitedShrinks(g, p, node);
      Search(g, node, end, p)
  }

  /** The recursive search with its loop over the neighbours, as the source writes it. */
  method ShortestPath<N(==)>(g: Graph<N>, start: N, end: N, path: seq<N>) returns (r: Option<seq<N>>)
    ensures r == Search(g, start, end, path)
    decreases Unvisited(g, path + [start])
  {
    var p := path + [start];
    if start == end {
      return Some(p);
    }
    if start !in g {
      return None;
    }
    NeighboursAreNodes(g, start);
    var nbrs := g[start];
    var shortest: Option<seq<N>> := None;
    for i := 0 to |nbrs|
      invariant Explore(g, nbrs[i..], end, p, shortest) == Explore(g, nbrs, end, p, None)
    {
      var node := nbrs[i];
      assert nbrs[i..][1..] == nbrs[i + 1..];
      if node !in p {
        UnvisitedShrinks(g, p, node);
        var newpath := ShortestPath(g, node, end, p);
        if newpath.Some? {
          if shortest.None? || |newpath.value| < |shortest.value| {
            shortest := newpath;
          }
        }
      }
    }
    assert nbrs[|nbrs|..] == [];
    return shortest;
  }

  // ---------------------------------------------------------------------------
  // Soundness: whatever the search returns is the current path extended by a
  // repeat-free walk to `end`.

  /** `r` is `p` followed by a walk from `p`'s last node to `end`, and repeats no node. */
  ghost predicate Extends<N>(g: Graph<N>, p: seq<N>, end: N, r: seq<N>)
  {
    0 < |p| <= |r| && r[..|p|] == p && IsWalk(g, r[|p| - 1..]) && r[|r| - 1] == end && Distinct(r)
  }

  lemma ExtendsBack<N>(g: Graph<N>, p: seq<N>, node: N, end: N, r: seq<N>)
    requires |p| > 0 && Edge(g, p[|p| - 1], node)
    requires Extends(g, p + [node], end, r)
    ensures Extends(g, p, end, r)
  {
  }

  lemma {:induction false} SearchSound<N>(g: Graph<N>, start: N, end: N, path: seq<N>)
    requires Distinct(path) && start !in path
    ensures Search(g, start, end, path).Some? ==> Extends(g, path + [start], end, Search(g, start, end, path).value)
    decreases Unvisited(g, path + [start]), 1, 0
  {
    var p := path + [start];
    assert Distinct(p);
    if start == end {
      assert p[|p| - 1..] == [start];
    } else if start in g {
      NeighboursAreNodes(g, start);
      ExploreSound(g, g[start], end, p, None);
    }
  }

  lemma {:induction false} ExploreSound<N>(g: Graph<N>, nbrs: seq<N>, end: N, p: seq<N>, shortest: Option<seq<N>>)
    requires forall n :: n in nbrs ==> n in Nodes(g)
    requires 0 < |p| && Distinct(p)
    requires forall n :: n in nbrs ==> Edge(g, p[|p| - 1], n)
    requires shortest.Some? ==> Extends(g, p, end, shortest.value)
    ensures Explore(g, nbrs, end, p, shortest).Some? ==> Extends(g, p, end, Explore(g, nbrs, end, p, shortest).value)
    decreases Unvisited(g, p), 0, |nbrs|
  {
    if nbrs != [] {
      var node := nbrs[0];
      assert forall n :: n in nbrs[1..] ==> n in nbrs;
      var found := Found(g, node, end, p);
      if node !in p {
        UnvisitedShrinks(g, p, node);
        SearchSound(g, node, end, p);
        if found.Some? {
          assert node in nbrs;
          ExtendsBack(g, p, node, end, found.value);
        }
      }
      var next := Keep(shortest, found);
      assert next.Some? ==> Extends(g, p, end, next.value);
      assert Explore(g, nbrs, end, p, shortest) == Explore(g, nbrs[1..], end, p, next);
      ExploreSound(g, nbrs[1..], end, p, next);
    }
  }

  // ---------------------------------------------------------------------------
  // Completeness and minimality: a repeat-free path that avoids the current
  // path is never shorter than what the search returns.

  /** Once a path is kept, the loop keeps a path at most as long. */
  lemma {:induction false} ExploreKeeps<N>(g: Graph<N>, nbrs: seq<N>, end: N, p: seq<N>, shortest: Option<seq<N>>)
    requires forall n :: n in nbrs ==> n in Nodes(g)
    requires shortest.Some?
    ensures Explore(g, nbrs, end, p, shortest).Some?
    ensures |Explore(g, nbrs, end, p, shortest).value| <= |shortest.value|
    decreases |nbrs|
  {
    if nbrs != [] {
      ExploreKeeps(g, nbrs[1..], end, p, Keep(shortest, Found(g, nbrs[0], end, p)));
    }
  }

  /** A path found through neighbour `nbrs[k]` bounds what the loop keeps. */
  lemma {:induction false} ExploreFinds<N>(g: Graph<N>, nbrs: seq<N>, end: N, p: seq<N>, shortest: Option<seq<N>>, k: nat)
    requires forall n :: n in nbrs ==> n in Nodes(g)
    requires k < |nbrs| && nbrs[k] !in p && Search(g, nbrs[k], end, p).Some?
    ensures Explore(g, nbrs, end, p, shortest).Some?
    ensures |Explore(g, nbrs, end, p, shortest).value| <= |Search(g, nbrs[k], end, p).value|
    decreases k
  {
    var next := Keep(shortest, Found(g, nbrs[0], end, p));
    assert Explore(g, nbrs, end, p, shortest) == Explore(g, nbrs[1..], end, p, next);
    if k == 0 {
      ExploreKeeps(g, nbrs[1..], end, p, next);
    } else {
      ExploreFinds(g, nbrs[1..], end, p, next, k - 1);
    }
  }

  lemma {:induction false} SearchFinds<N>(g: Graph<N>, start: N, end: N, path: seq<N>, q: seq<N>)
    requires SimplePath(g, q, start, end)
    requires forall x :: x in q ==> x !in path
    ensures Search(g, start, end, path).Some?
    ensures |Search(g, start, end, path).value| <= |path| + |q|
    decreases |q|
  {
    if start != end {
      assert |q| >= 2;
      assert Edge(g, q[0], q[1]);
      var p := path + [start];
      var node := q[1];
      var q' := q[1..];
      assert SimplePath(g, q', node, end) by {
        forall i | 0 <= i < |q'| - 1 ensures Edge(g, q'[i], q'[i + 1]) {
          assert q'[i] == q[i + 1] && q'[i + 1] == q[i + 2];
        }
      }
      assert forall x :: x in q' ==> x !in p by {
        forall x | x in q' ensures x !in p {
          var i :| 0 <= i < |q'| && q'[i] == x;
          assert q[i + 1] == x && q[0] == start;
        }
      }
      SearchFinds(g, node, end, p, q');
      NeighboursAreNodes(g, start);
      var k :| 0 <= k < |g[start]| && g[start][k] == node;
      ExploreFinds(g, g[start], end, p, None, k);
    }
  }

  // ---------------------------------------------------------------------------
  // Tie-breaking: among equally short paths the first one found in
  // adjacency-list order is returned.

  /** The paths the recursive calls return, in the order of `nbrs`
      (neighbours already on the current path are skipped). */
  ghost function Candidates<N>(g: Graph<N>, nbrs: seq<N>, end: N, p: seq<N>): (cs: seq<seq<N>>)
    requires forall n :: n in nbrs ==> n in Nodes(g)
  {
    if nbrs == [] then []
    else AsList(Found(g, nbrs[0], end, p)) + Candidates(g, nbrs[1..], end, p)
  }

  function AsList<T>(o: Option<T>): (s: seq<T>)
  {
    if o.Some? then [o.value] else []
  }

  /** One pass of the loop: the first neighbour's result is offered to
      `Keep` and heads the list of candidates. */
  lemma ExploreStep<N>(g: Graph<N>, nbrs: seq<N>, end: N, p: seq<N>, shortest: Option<seq<N>>)
    requires forall n :: n in nbrs ==> n in Nodes(g)
    requires nbrs != []
    ensures Explore(g, nbrs, end, p, shortest) == Explore(g, nbrs[1..], end, p, Keep(shortest, Found(g, nbrs[0], end, p)))
    ensures Candidates(g, nbrs, end, p) == AsList(Found(g, nbrs[0], end, p)) + Candidates(g, nbrs[1..], end, p)
  {
  }

  /** The loop keeps nothing exactly when nothing was kept before and no recursive call found a path. */
  lemma {:induction false} ExploreNone<N>(g: Graph<N>, nbrs: seq<N>, end: N, p: seq<N>, shortest: Option<seq<N>>)
    requires forall n :: n in nbrs ==> n in Nodes(g)
    ensures Explore(g, nbrs, end, p, shortest).None? <==> shortest.None? && Candidates(g, nbrs, end, p) == []
    decreases |nbrs|
  {
    if nbrs != [] {
      var found := Found(g, nbrs[0], end, p);
      ExploreStep(g, nbrs, end, p, shortest);
      ExploreNone(g, nbrs[1..], end, p, Keep(shortest, found));
    }
  }

  /** What the loop keeps is no longer than the path kept before or any candidate. */
  lemma {:induction false} ExploreShortest<N>(g: Graph<N>, nbrs: seq<N>, end: N, p: seq<N>, shortest: Option<seq<N>>)
    requires forall n :: n in nbrs ==> n in Nodes(g)
    ensures Explore(g, nbrs, end, p, shortest).Some? ==>
      && (forall j :: 0 <= j < |Candidates(g, nbrs, end, p)| ==>
            |Explore(g, nbrs, end, p, shortest).value| <= |Candidates(g, nbrs, end, p)[j]|)
      && (shortest.Some? ==> |Explore(g, nbrs, end, p, shortest).value| <= |shortest.value|)
    decreases |nbrs|
  {
    if nbrs != [] {
      var found := Found(g, nbrs[0], end, p);
      var next := Keep(shortest, found);
      var head := AsList(found);
      var r, cs, cs' := Explore(g, nbrs, end, p, shortest), Candidates(g, nbrs, end, p), Candidates(g, nbrs[1..], end, p);
      ExploreStep(g, nbrs, end, p, shortest);
      assert r == Explore(g, nbrs[1..], end, p, next);
      assert cs == head + cs';
      ExploreShortest(g, nbrs[1..], end, p, next);
      if r.Some? {
        forall j | 0 <= j < |cs| ensures |r.value| <= |cs[j]| {
          if j >= |head| {
            assert cs[j] == cs'[j - |head|];
          } else {
            assert cs[j] == found.value && next.Some? && |next.value| <= |found.value|;
          }
        }
      }
    }
  }

  /** `cs[k]` is `r`, and every candidate before it is strictly longer. */
  ghost predicate IsFirstShortest<N>(cs: seq<seq<N>>, k: int, r: seq<N>)
  {
    0 <= k < |cs| && cs[k] == r && forall j :: 0 <= j < k ==> |r| < |cs[j]|
  }

  /** What the loop keeps is the path kept before, or the first candidate
      strictly shorter than it and than every earlier candidate. */
  lemma {:induction false} ExploreFirst<N>(g: Graph<N>, nbrs: seq<N>, end: N, p: seq<N>, shortest: Option<seq<N>>)
    requires forall n :: n in nbrs ==> n in Nodes(g)
    ensures Explore(g, nbrs, end, p, shortest).Some? ==>
      Explore(g, nbrs, end, p, shortest) == shortest ||
      exists k :: IsFirstShortest(Candidates(g, nbrs, end, p), k, Explore(g, nbrs, end, p, shortest).value)
        && (shortest.Some? ==> |Explore(g, nbrs, end, p, shortest).value| < |shortest.value|)
    decreases |nbrs|
  {
    if nbrs != [] {
      var found := Found(g, nbrs[0], end, p);
      var next := Keep(shortest, found);
      var head := AsList(found);
      var r, cs, cs' := Explore(g, nbrs, end, p, shortest), Candidates(g, nbrs, end, p), Candidates(g, nbrs[1..], end, p);
      ExploreStep(g, nbrs, end, p, shortest);
      assert r == Explore(g, nbrs[1..], end, p, next);
      assert cs == head + cs';
      ExploreFirst(g, nbrs[1..], end, p, next);
      if r.Some? && r != shortest {
        if r == next {
          assert next == found && found.Some?;
          assert cs[0] == found.value;
          assert IsFirstShortest(cs, 0, r.value);
        } else {
          var k' :| IsFirstShortest(cs', k', r.value) && (next.Some? ==> |r.value| < |next.value|);
          var k := k' + |head|;
          assert cs[k] == r.value;
          forall j | 0 <= j < k ensures |r.value| < |cs[j]| {
            if j >= |head| {
              assert cs[j] == cs'[j - |head|];
            } else {
              assert cs[j] == found.value && next.Some? && |next.value| <= |found.value|;
            }
          }
          assert IsFirstShortest(cs, k, r.value);
          assert shortest.Some? ==> next.Some? && |r.value| < |shortest.value|;
        }
      }
    }
  }

  // ---------------------------------------------------------------------------
  // The top-level call `shortest_path(graph, start, end)`.

  /** The default `path=[]` call returns a shortest repeat-free path, and
      returns `None` exactly when `end` cannot be reached from `start`. */
  lemma ShortestPathCorrect<N(!new)>(g: Graph<N>, start: N, end: N)
    ensures start == end ==> Search(g, start, end, []) == Some([start])
    ensures start != end && start !in g ==> Search(g, start, end, []) == None
    ensures Search(g, start, end, []).Some? <==> exists q :: SimplePath(g, q, start, end)
    ensures Search(g, start, end, []).Some? <==> Reachable(g, start, end)
    ensures Search(g, start, end, []).Some? ==>
      var r := Search(g, start, end, []).value;
      && SimplePath(g, r, start, end)
      && forall q :: SimplePath(g, q, start, end) ==> |r| <= |q|
  {
    var r := Search(g, start, end, []);
    SearchSound(g, start, end, []);
    if r.Some? {
      assert [] + [start] == [start];
      assert r.value[0..] == r.value;
      assert SimplePath(g, r.value, start, end);
      forall q | SimplePath(g, q, start, end) ensures |r.value| <= |q| {
        SearchFinds(g, start, end, [], q);
      }
    }
    if exists q :: SimplePath(g, q, start, end) {
      var q :| SimplePath(g, q, start, end);
      SearchFinds(g, start, end, [], q);
    }
    ReachableIffSimplePath(g, start, end);
  }

  /** When `start != end`, the result is the first of the shortest paths that
      the neighbours of `start` yield, in the order `graph[start]` lists them. */
  lemma ShortestPathFirstFound<N>(g: Graph<N>, start: N, end: N)
    requires start != end && start in g
    ensures Search(g, start, end, []).None? <==> Candidates(g, g[start], end, [start]) == []
    ensures Search(g, start, end, []).Some? ==>
      && (exists k :: IsFirstShortest(Candidates(g, g[start], end, [start]), k, Search(g, start, end, []).value))
      && (forall j :: 0 <= j < |Candidates(g, g[start], end, [start])| ==>
            |Search(g, start, end, []).value| <= |Candidates(g, g[start], end, [start])[j]|)
  {
    assert [] + [start] == [start];
    NeighboursAreNodes(g, start);
    ExploreNone(g, g[start], end, [start], None);
    ExploreShortest(g, g[start], end, [start], None);
    ExploreFirst(g, g[start], end, [start], None);
  }
}
