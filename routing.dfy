/**
 * `_dijkstra(graph, startKey, endKey)`: Dijkstra's algorithm over the path
 * graph with a binary heap and lazy deletion, then path reconstruction
 * through the predecessor links.  The function's three phases (the search
 * loop, the scan of one node's neighbours inside it, and the walk back along
 * `prev`) are written as three methods so that each is proved on its own.
 */
module Routing {
  import opened Wrappers
  import opened OrderedMaps
  import opened Geo
  import opened PathGraph
  import opened PriorityQueue
  import opened Walks
  import opened RouteSearch

  /** `prev.get(u)`. */
  function Lookup(prev: map<NodeKey, NodeKey>, u: NodeKey): (r: Option<NodeKey>)
    ensures r.Some? <==> u in prev
    ensures r.Some? ==> r.value == prev[u]
  {
    if u in prev then Some(prev[u]) else None
  }

  /**
   * The route is empty exactly when no walk leads from the start to the end,
   * and then the distance is `Infinity`.  Otherwise it is a walk from the start
   * to the end whose weight is the reported distance, and when no edge weight
   * is negative no walk between the two is lighter.  A start equal to the end
   * gives the one-key route of length 0.
   */
  method Dijkstra(graph: Graph, startKey: NodeKey, endKey: NodeKey) returns (path: seq<NodeKey>, distance: Dist)
    requires NodesWF(graph.nodes)
    ensures path == [] <==> !Reachable(graph.nodes, startKey, endKey)
    ensures path == [] ==> distance == Inf
    ensures path != [] ==> WalkFromTo(graph.nodes, path, startKey, endKey) && distance == Fin(WalkWeight(graph.nodes, path))
    ensures path != [] && NonNegative(graph.nodes) ==>
              forall p :: WalkFromTo(graph.nodes, p, startKey, endKey) ==> WalkWeight(graph.nodes, path) <= WalkWeight(graph.nodes, p)
    ensures startKey == endKey ==> path == [startKey] && distance == Fin(0.0)
  {
    var nodes := graph.nodes;
    ghost var rank;
    var dist, prev, visited;
    dist, prev, visited, rank := Search(nodes, startKey, endKey);
    if endKey !in prev && endKey != startKey {
      return [], Inf;
    }
    path := WalkBack(nodes, startKey, endKey, dist, prev, visited, rank);
    distance := DistOf(dist, endKey);
    assert WalkFromTo(nodes, path, startKey, endKey);
    if NonNegative(nodes) {
      assert ShortestTo(nodes, startKey, dist, endKey);
    }
  }

  /**
   * The search loop: fill `dist` with `Infinity`, start at `startKey` with 0,
   * then pop, skip stale entries, finalise, stop at `endKey`, and scan the
   * neighbours of every other finalised node.
   */
  method Search(nodes: NodeMap, startKey: NodeKey, endKey: NodeKey)
    returns (dist: map<NodeKey, Dist>, prev: map<NodeKey, NodeKey>, visited: set<NodeKey>, ghost rank: map<NodeKey, nat>)
    requires NodesWF(nodes)
    ensures ChainOk(nodes, startKey, dist, prev, visited, rank)
    ensures AllShortest(nodes, startKey, dist, visited)
    ensures endKey == startKey || endKey in prev ==> endKey in visited
    ensures endKey != startKey && endKey !in prev ==> !Reachable(nodes, startKey, endKey)
  {
    dist := map[];
    var i := 0;
    while i < |nodes.keys|
      invariant 0 <= i <= |nodes.keys|
      invariant forall k :: k in dist ==> dist[k] == Inf
      invariant dist.Keys == set j | 0 <= j < i :: nodes.keys[j]
    {
      assert (set j | 0 <= j < i + 1 :: nodes.keys[j]) == (set j | 0 <= j < i :: nodes.keys[j]) + {nodes.keys[i]};
      dist := dist[nodes.keys[i] := Inf];
      i := i + 1;
    }
    InitInv(nodes, startKey, endKey, dist);
    dist := dist[startKey := Fin(0.0)];
    prev := map[];
    visited := {};
    rank := map[];
    var pq := new MinHeap<NodeKey>();
    pq.Push(Entry(startKey, 0.0));
    ghost var universe := Universe(nodes, startKey);

    while !pq.IsEmpty()
      invariant pq.Valid()
      invariant endKey !in visited
      invariant Inv(nodes, startKey, dist, prev, visited, rank, multiset(pq.a), endKey)
      invariant visited <= universe
      decreases |universe - visited|, |pq.a|
    {
      ghost var visited0, size0 := visited, |pq.a|;
      var top, found;
      dist, prev, visited, rank, top, found := SearchStep(nodes, startKey, endKey, pq, dist, prev, visited, rank);
      if found {
        return;
      }
      if visited != visited0 {
        Shrinks(universe, visited0, top.key);
      }
    }
    Exhausted(nodes, startKey, endKey, dist, prev, visited, rank);
  }

  /**
   * One turn of the search loop: pop the least entry; a stale one (its key
   * already finalised) is dropped; otherwise its key is finalised, and the
   * search either stops there (it is `endKey`) or scans its neighbours.
   */
  method SearchStep(nodes: NodeMap, startKey: NodeKey, endKey: NodeKey, pq: MinHeap<NodeKey>,
                    dist0: map<NodeKey, Dist>, prev0: map<NodeKey, NodeKey>, visited0: set<NodeKey>,
                    ghost rank0: map<NodeKey, nat>)
    returns (dist: map<NodeKey, Dist>, prev: map<NodeKey, NodeKey>, visited: set<NodeKey>, ghost rank: map<NodeKey, nat>,
             top: Entry<NodeKey>, found: bool)
    requires NodesWF(nodes) && pq.Valid() && |pq.a| > 0 && endKey !in visited0
    requires Inv(nodes, startKey, dist0, prev0, visited0, rank0, multiset(pq.a), endKey)
    modifies pq
    ensures pq.Valid()
    ensures found ==> endKey in visited && ChainOk(nodes, startKey, dist, prev, visited, rank)
    ensures found ==> AllShortest(nodes, startKey, dist, visited)
    ensures !found ==> endKey !in visited && Inv(nodes, startKey, dist, prev, visited, rank, multiset(pq.a), endKey)
    ensures visited == visited0 ==> |pq.a| < old(|pq.a|)
    ensures visited != visited0 ==>
              top.key !in visited0 && top.key in Universe(nodes, startKey) && visited == visited0 + {top.key}
    // a stale pop, or reaching the end, changes no distance and no predecessor
    ensures (visited == visited0 || found) ==> dist == dist0 && prev == prev0
    // keys finalised earlier keep their distance and predecessor
    ensures forall x :: x in visited0 ==> DistOf(dist, x) == DistOf(dist0, x) && Lookup(prev, x) == Lookup(prev0, x)
    // distances only go down, and every lowered one now has the popped key as predecessor
    ensures forall x :: DistOf(dist, x) == DistOf(dist0, x) || Below(DistOf(dist, x), DistOf(dist0, x))
    ensures forall x :: DistOf(dist, x) != DistOf(dist0, x) ==> x in prev && prev[x] == top.key
    ensures forall x :: DistOf(dist, x) == DistOf(dist0, x) ==> Lookup(prev, x) == Lookup(prev0, x)
  {
    dist, prev, visited, rank := dist0, prev0, visited0, rank0;
    found := false;
    ghost var H := multiset(pq.a);
    top := pq.Pop();
    var u := top.key;
    if u in visited {
      PopStale(nodes, startKey, dist, prev, visited, rank, H, endKey, top);
      return;
    }
    Visit(nodes, startKey, endKey, dist, prev, visited, rank, H, top);
    rank := rank[u := |visited|];
    visited := visited + {u};
    if u == endKey {
      found := true;
      return;
    }
    if u in nodes.vals {
      assert WellFormed(nodes.vals[u].neighbors);
      dist, prev := ScanNeighbours(nodes, startKey, u, pq, dist, prev, visited, rank);
    }
    Scanned(nodes, startKey, endKey, dist, prev, visited, rank, multiset(pq.a), u);
  }

  /**
   * `for (const [v, w] of uNode.neighbors)`: every neighbour not yet finalised
   * whose distance through u is smaller gets that distance, u as predecessor
   * and a new queue entry.
   */
  method ScanNeighbours(nodes: NodeMap, startKey: NodeKey, u: NodeKey, pq: MinHeap<NodeKey>,
                        dist0: map<NodeKey, Dist>, prev0: map<NodeKey, NodeKey>, visited: set<NodeKey>,
                        ghost rank: map<NodeKey, nat>)
    returns (dist: map<NodeKey, Dist>, prev: map<NodeKey, NodeKey>)
    requires u in nodes.vals && WellFormed(nodes.vals[u].neighbors) && u in visited
    requires pq.Valid()
    requires Inv(nodes, startKey, dist0, prev0, visited, rank, multiset(pq.a), u)
    modifies pq
    ensures pq.Valid()
    ensures Inv(nodes, startKey, dist, prev, visited, rank, multiset(pq.a), u)
    ensures forall v :: v in nodes.vals[u].neighbors.vals ==> RelaxedAt(nodes, dist, visited, u, v)
    ensures LoweredThrough(dist0, prev0, dist, prev, visited, u)
  {
    dist, prev := dist0, prev0;
    var nb := nodes.vals[u].neighbors;
    VisitedFinite(nodes, startKey, dist, prev, visited, rank, u);
    var j := 0;
    while j < |nb.keys|
      invariant 0 <= j <= |nb.keys|
      invariant pq.Valid()
      invariant DistOf(dist, u).Fin?
      invariant Inv(nodes, startKey, dist, prev, visited, rank, multiset(pq.a), u)
      invariant forall k :: 0 <= k < j ==> RelaxedAt(nodes, dist, visited, u, nb.keys[k])
      invariant LoweredThrough(dist0, prev0, dist, prev, visited, u)
    {
      var v := nb.keys[j];
      var w := nb.vals[v];
      ghost var before, beforePrev := dist, prev;
      dist, prev := RelaxEdge(nodes, startKey, u, v, w, pq, dist, prev, visited, rank);
      LoweredStep(dist0, prev0, before, beforePrev, dist, prev, visited, u, v, Plus(DistOf(before, u), w));
      RelaxedPrefix(nodes, before, dist, visited, u, nb.keys, j);
      j := j + 1;
    }
    KeysRelaxed(nodes, dist, visited, u);
  }

  /**
   * The body of that loop for the neighbour v at weight w: skipped when v is
   * finalised, otherwise `alt = dist(u) + w` and, when `alt < dist(v)`, the
   * three updates.
   */
  method RelaxEdge(nodes: NodeMap, startKey: NodeKey, u: NodeKey, v: NodeKey, w: real, pq: MinHeap<NodeKey>,
                   dist0: map<NodeKey, Dist>, prev0: map<NodeKey, NodeKey>, visited: set<NodeKey>,
                   ghost rank: map<NodeKey, nat>)
    returns (dist: map<NodeKey, Dist>, prev: map<NodeKey, NodeKey>)
    requires u in nodes.vals && u in visited && v in nodes.vals[u].neighbors.vals && w == Weight(nodes, u, v)
    requires pq.Valid() && DistOf(dist0, u).Fin?
    requires Inv(nodes, startKey, dist0, prev0, visited, rank, multiset(pq.a), u)
    modifies pq
    ensures pq.Valid() && DistOf(dist, u) == DistOf(dist0, u)
    ensures Inv(nodes, startKey, dist, prev, visited, rank, multiset(pq.a), u)
    ensures RelaxedAt(nodes, dist, visited, u, v)
    ensures forall x :: x in nodes.vals[u].neighbors.vals && RelaxedAt(nodes, dist0, visited, u, x) ==>
              RelaxedAt(nodes, dist, visited, u, x)
    // an unfinalised v whose distance through u is smaller is relaxed and pushed; otherwise nothing changes
    ensures var alt := Plus(DistOf(dist0, u), w);
            if v !in visited && Below(alt, DistOf(dist0, v)) then
              && dist == dist0[v := alt] && prev == prev0[v := u]
              && multiset(pq.a) == old(multiset(pq.a)) + multiset{Entry(v, alt.value)}
            else
              dist == dist0 && prev == prev0 && multiset(pq.a) == old(multiset(pq.a))
  {
    dist, prev := dist0, prev0;
    if v !in visited {
      var alt := Plus(DistOf(dist, u), w);
      if Below(alt, DistOf(dist, v)) {
        Relax(nodes, startKey, dist, prev, visited, rank, multiset(pq.a), u, v, alt.value);
        dist := dist[v := alt];
        prev := prev[v := u];
        pq.Push(Entry(v, alt.value));
      }
    }
  }

  /**
   * What scanning u's neighbours may do to `dist` and `prev`: finalised keys
   * keep their distance and predecessor, distances only go down, every
   * lowered distance now has u as predecessor, and a key whose distance did
   * not move kept its predecessor.
   */
  ghost predicate LoweredThrough(dist0: map<NodeKey, Dist>, prev0: map<NodeKey, NodeKey>,
                                 dist: map<NodeKey, Dist>, prev: map<NodeKey, NodeKey>,
                                 visited: set<NodeKey>, u: NodeKey)
  {
    && (forall x :: x in visited ==> DistOf(dist, x) == DistOf(dist0, x) && Lookup(prev, x) == Lookup(prev0, x))
    && (forall x :: DistOf(dist, x) == DistOf(dist0, x) || Below(DistOf(dist, x), DistOf(dist0, x)))
    && (forall x :: DistOf(dist, x) != DistOf(dist0, x) ==> x in prev && prev[x] == u)
    && (forall x :: DistOf(dist, x) == DistOf(dist0, x) ==> Lookup(prev, x) == Lookup(prev0, x))
  }

  /** One more `RelaxEdge` from u, relaxing v or changing nothing, keeps `LoweredThrough`. */
  lemma LoweredStep(dist0: map<NodeKey, Dist>, prev0: map<NodeKey, NodeKey>,
                    dist1: map<NodeKey, Dist>, prev1: map<NodeKey, NodeKey>,
                    dist2: map<NodeKey, Dist>, prev2: map<NodeKey, NodeKey>,
                    visited: set<NodeKey>, u: NodeKey, v: NodeKey, alt: Dist)
    requires LoweredThrough(dist0, prev0, dist1, prev1, visited, u)
    requires if v !in visited && Below(alt, DistOf(dist1, v)) then dist2 == dist1[v := alt] && prev2 == prev1[v := u]
             else dist2 == dist1 && prev2 == prev1
    ensures LoweredThrough(dist0, prev0, dist2, prev2, visited, u)
  {
    if v !in visited && Below(alt, DistOf(dist1, v)) {
      forall x
        ensures DistOf(dist2, x) == DistOf(dist0, x) || Below(DistOf(dist2, x), DistOf(dist0, x))
        ensures DistOf(dist2, x) != DistOf(dist0, x) ==> x in prev2 && prev2[x] == u
        ensures DistOf(dist2, x) == DistOf(dist0, x) ==> Lookup(prev2, x) == Lookup(prev0, x)
      {
        if x == v {
          assert DistOf(dist2, v) == alt;
          assert Below(alt, DistOf(dist0, v));
        } else {
          assert DistOf(dist2, x) == DistOf(dist1, x) && Lookup(prev2, x) == Lookup(prev1, x);
        }
      }
      forall x | x in visited
        ensures DistOf(dist2, x) == DistOf(dist0, x) && Lookup(prev2, x) == Lookup(prev0, x)
      {
        assert x != v;
        assert DistOf(dist2, x) == DistOf(dist1, x) && Lookup(prev2, x) == Lookup(prev1, x);
      }
    }
  }

  /**
   * `while (u) { path.unshift(u); if (u === startKey) break; u = prev.get(u); }`
   * from `endKey`: the predecessor chain read backwards is a walk from the
   * start to the end, and its weight is the end's distance.
   */
  method WalkBack(nodes: NodeMap, startKey: NodeKey, endKey: NodeKey, dist: map<NodeKey, Dist>,
                  prev: map<NodeKey, NodeKey>, ghost visited: set<NodeKey>, ghost rank: map<NodeKey, nat>)
    returns (path: seq<NodeKey>)
    requires ChainOk(nodes, startKey, dist, prev, visited, rank)
    requires endKey == startKey || endKey in prev
    ensures ChainTo(nodes, dist, path, endKey) && path[0] == startKey
    ensures startKey == endKey ==> path == [startKey]
  {
    ChainStart(nodes, startKey, dist, prev, visited, rank, endKey);
    path := [];
    var cur: Option<NodeKey> := Some(endKey);
    while cur.Some?
      invariant cur.Some? && (cur.value == startKey || cur.value in prev)
      invariant path == [] ==> cur.value == endKey
      invariant startKey == endKey ==> path == []
      invariant ChainTo(nodes, dist, [cur.value] + path, endKey)
      decreases if cur.Some? && cur.value in rank then rank[cur.value] else |visited|
    {
      var u := cur.value;
      path := [u] + path;
      if u == startKey {
        return;
      }
      ChainStep(nodes, startKey, dist, prev, visited, rank, path, endKey);
      cur := Lookup(prev, u);
    }
  }
}
