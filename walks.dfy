/**
 * Walks in the path graph: what `_dijkstra` searches.  A walk follows
 * neighbour links; every vertex but the last must be a node of the map (the
 * last may be a neighbour key only), and its weight is the sum of the stored
 * edge weights.
 */
module Walks {
  import opened OrderedMaps
  import opened Geo
  import opened PathGraph
  import opened PathGraphFacts

  /** The weight the `neighbors` map of a stores for b. */
  function Weight(nodes: NodeMap, a: NodeKey, b: NodeKey): real
    requires a in nodes.vals && b in nodes.vals[a].neighbors.vals
  {
    nodes.vals[a].neighbors.vals[b]
  }

  ghost predicate IsWalk(nodes: NodeMap, p: seq<NodeKey>) {
    && |p| >= 1
    && forall k :: 0 <= k < |p| - 1 ==> p[k] in nodes.vals && p[k + 1] in nodes.vals[p[k]].neighbors.vals
  }

  lemma WalkPrefix(nodes: NodeMap, p: seq<NodeKey>, n: nat)
    requires IsWalk(nodes, p) && 1 <= n <= |p|
    ensures IsWalk(nodes, p[..n])
  {
    var q := p[..n];
    forall k | 0 <= k < n - 1
      ensures q[k] in nodes.vals && q[k + 1] in nodes.vals[q[k]].neighbors.vals
    {
      assert q[k] == p[k] && q[k + 1] == p[k + 1];
    }
  }

  /** The sum of the edge weights along p. */
  function WalkWeight(nodes: NodeMap, p: seq<NodeKey>): real
    requires IsWalk(nodes, p)
    decreases |p|
  {
    if |p| == 1 then 0.0
    else
      WalkPrefix(nodes, p, |p| - 1);
      WalkWeight(nodes, p[..|p| - 1]) + Weight(nodes, p[|p| - 2], p[|p| - 1])
  }

  ghost predicate WalkFromTo(nodes: NodeMap, p: seq<NodeKey>, s: NodeKey, e: NodeKey) {
    IsWalk(nodes, p) && p[0] == s && p[|p| - 1] == e
  }

  ghost predicate Reachable(nodes: NodeMap, s: NodeKey, e: NodeKey) {
    exists p :: WalkFromTo(nodes, p, s, e)
  }

  /** No stored edge weight is negative. */
  ghost predicate NonNegative(nodes: NodeMap) {
    forall a, b :: a in nodes.vals && b in nodes.vals[a].neighbors.vals ==> 0.0 <= nodes.vals[a].neighbors.vals[b]
  }

  lemma {:induction false} WalkWeightNonNegative(nodes: NodeMap, p: seq<NodeKey>)
    requires NonNegative(nodes) && IsWalk(nodes, p)
    ensures 0.0 <= WalkWeight(nodes, p)
    decreases |p|
  {
    if |p| > 1 {
      WalkPrefix(nodes, p, |p| - 1);
      WalkWeightNonNegative(nodes, p[..|p| - 1]);
    }
  }

  /** Putting one more step in front of a walk. */
  lemma PrependWalk(nodes: NodeMap, x: NodeKey, p: seq<NodeKey>)
    requires IsWalk(nodes, p) && x in nodes.vals && p[0] in nodes.vals[x].neighbors.vals
    ensures IsWalk(nodes, [x] + p)
  {
    var q := [x] + p;
    forall k | 0 <= k < |q| - 1
      ensures q[k] in nodes.vals && q[k + 1] in nodes.vals[q[k]].neighbors.vals
    {
      if k > 0 {
        assert q[k] == p[k - 1] && q[k + 1] == p[k];
      }
    }
  }

  /** The step in front adds its own weight. */
  lemma {:induction false} PrependStep(nodes: NodeMap, x: NodeKey, p: seq<NodeKey>)
    requires IsWalk(nodes, p) && x in nodes.vals && p[0] in nodes.vals[x].neighbors.vals
    ensures IsWalk(nodes, [x] + p)
    ensures WalkWeight(nodes, [x] + p) == Weight(nodes, x, p[0]) + WalkWeight(nodes, p)
    decreases |p|
  {
    PrependWalk(nodes, x, p);
    var q := [x] + p;
    if |p| > 1 {
      var p' := p[..|p| - 1];
      WalkPrefix(nodes, p, |p| - 1);
      PrependStep(nodes, x, p');
      assert q[..|q| - 1] == [x] + p';
      assert q[|q| - 2] == p[|p| - 2] && q[|q| - 1] == p[|p| - 1] && p'[0] == p[0];
      WalkPrefix(nodes, q, |q| - 1);
      assert WalkWeight(nodes, q) == WalkWeight(nodes, [x] + p') + Weight(nodes, p[|p| - 2], p[|p| - 1]);
      assert WalkWeight(nodes, p) == WalkWeight(nodes, p') + Weight(nodes, p[|p| - 2], p[|p| - 1]);
    } else {
      assert q == [x, p[0]];
      assert q[..1] == [x];
    }
  }

  /** Graphs the builder makes with a non-negative distance have no negative weight. */
  lemma BuiltWeightsNonNegative(nodes: NodeMap, h: Metric)
    requires GraphInv(nodes, h) && IsMetric(h)
    ensures NonNegative(nodes)
  {
    forall a, b | a in nodes.vals && b in nodes.vals[a].neighbors.vals
      ensures 0.0 <= nodes.vals[a].neighbors.vals[b]
    {
      assert EdgeOk(nodes, h, a, b);
    }
  }
}
