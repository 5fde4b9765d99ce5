/**
 * The state of `_dijkstra`'s main loop and what each of its steps keeps true.
 *
 * `dist`, `prev` and `visited` are the three collections the loop updates;
 * `rank` (ghost) records the order in which nodes were finalised, and H is the
 * multiset of entries in the priority queue.  Stale entries (lazy deletion)
 * are allowed: an entry only promises that the key's current distance is at
 * most its priority.
 */
module RouteSearch {
  import opened OrderedMaps
  import opened Geo
  import opened PathGraph
  import opened PriorityQueue
  import opened Walks

  /** A tentative distance; `Inf` is JavaScript's `Infinity`. */
  datatype Dist = Fin(value: real) | Inf

  /** `dist.get(k) ?? Infinity`. */
  function DistOf(dist: map<NodeKey, Dist>, k: NodeKey): Dist {
    if k in dist then dist[k] else Inf
  }

  /** `d + w`, where `Infinity + w` stays `Infinity`. */
  function Plus(d: Dist, w: real): Dist {
    match d
    case Fin(x) => Fin(x + w)
    case Inf => Inf
  }

  /** `a < b` on numbers that may be `Infinity`. */
  predicate Below(a: Dist, b: Dist) {
    a.Fin? && (b.Inf? || a.value < b.value)
  }

  type Heap = multiset<Entry<NodeKey>>

  /**
   * The predecessor of v was finalised before v, is a node with v among its
   * neighbours, and v's distance is the predecessor's plus that edge.
   */
  ghost predicate PrevOk(nodes: NodeMap, dist: map<NodeKey, Dist>, prev: map<NodeKey, NodeKey>,
                         visited: set<NodeKey>, rank: map<NodeKey, nat>, v: NodeKey)
    requires v in prev
  {
    var x := prev[v];
    && x in visited && x in rank
    && x in nodes.vals && v in nodes.vals[x].neighbors.vals
    && DistOf(dist, x).Fin? && DistOf(dist, v).Fin?
    && DistOf(dist, v).value == DistOf(dist, x).value + Weight(nodes, x, v)
    && (v in visited ==> v in rank && rank[x] < rank[v])
  }

  /** Only the start and keys with a predecessor have a finite distance. */
  ghost predicate FinReached(s: NodeKey, dist: map<NodeKey, Dist>, prev: map<NodeKey, NodeKey>) {
    forall v :: v in dist && dist[v].Fin? ==> v == s || v in prev
  }

  /** What `dist`, `prev`, `visited` and the finalisation order say about each other. */
  ghost predicate ChainOk(nodes: NodeMap, s: NodeKey, dist: map<NodeKey, Dist>, prev: map<NodeKey, NodeKey>,
                          visited: set<NodeKey>, rank: map<NodeKey, nat>)
  {
    && DistOf(dist, s) == Fin(0.0) && s !in prev
    && (forall v :: v in prev ==> PrevOk(nodes, dist, prev, visited, rank, v))
    && FinReached(s, dist, prev)
    && (forall u :: u in visited ==> u == s || u in prev)
    && rank.Keys == visited
    && (forall u :: u in rank ==> rank[u] < |visited|)
    && (visited == {} ==> prev == map[])
    && (visited != {} ==> s in visited)
  }

  /** Every queued entry is at least its key's distance; every reached, unfinalised key is queued at its distance. */
  ghost predicate HeapOk(s: NodeKey, dist: map<NodeKey, Dist>, prev: map<NodeKey, NodeKey>,
                         visited: set<NodeKey>, H: Heap)
  {
    && (forall x :: x in H ==> (x.key == s || x.key in prev) && DistOf(dist, x.key).Fin? && DistOf(dist, x.key).value <= x.d)
    && (forall v :: (v == s || v in prev) && v !in visited ==> DistOf(dist, v).Fin? && Entry(v, DistOf(dist, v).value) in H)
  }

  /** After x's neighbours were scanned: v is finalised or no farther than through x. */
  ghost predicate RelaxedAt(nodes: NodeMap, dist: map<NodeKey, Dist>, visited: set<NodeKey>, x: NodeKey, v: NodeKey)
    requires x in nodes.vals && v in nodes.vals[x].neighbors.vals
  {
    || v in visited
    || (DistOf(dist, x).Fin? && DistOf(dist, v).Fin? && DistOf(dist, v).value <= DistOf(dist, x).value + Weight(nodes, x, v))
  }

  /** Every finalised node but `skip` has had its neighbours scanned. */
  ghost predicate AllRelaxed(nodes: NodeMap, dist: map<NodeKey, Dist>, visited: set<NodeKey>, skip: NodeKey) {
    forall x, v :: x in visited && x != skip && x in nodes.vals && v in nodes.vals[x].neighbors.vals ==>
      RelaxedAt(nodes, dist, visited, x, v)
  }

  /** x's distance is the least weight of any walk from s to x. */
  ghost predicate ShortestTo(nodes: NodeMap, s: NodeKey, dist: map<NodeKey, Dist>, x: NodeKey) {
    && DistOf(dist, x).Fin?
    && forall p :: WalkFromTo(nodes, p, s, x) ==> DistOf(dist, x).value <= WalkWeight(nodes, p)
  }

  /** With no negative weight, every finalised distance is a shortest one. */
  ghost predicate AllShortest(nodes: NodeMap, s: NodeKey, dist: map<NodeKey, Dist>, visited: set<NodeKey>) {
    NonNegative(nodes) ==> forall x :: x in visited ==> ShortestTo(nodes, s, dist, x)
  }

  ghost predicate Inv(nodes: NodeMap, s: NodeKey, dist: map<NodeKey, Dist>, prev: map<NodeKey, NodeKey>,
                      visited: set<NodeKey>, rank: map<NodeKey, nat>, H: Heap, skip: NodeKey)
  {
    && ChainOk(nodes, s, dist, prev, visited, rank)
    && HeapOk(s, dist, prev, visited, H)
    && AllRelaxed(nodes, dist, visited, skip)
    && AllShortest(nodes, s, dist, visited)
  }

  /** Every key the search can reach: the start and every neighbour key. */
  ghost function Universe(nodes: NodeMap, s: NodeKey): set<NodeKey> {
    {s} + (set x, v | x in nodes.vals && v in nodes.vals[x].neighbors.vals :: v)
  }

  lemma InUniverse(nodes: NodeMap, s: NodeKey, dist: map<NodeKey, Dist>, prev: map<NodeKey, NodeKey>,
                   visited: set<NodeKey>, rank: map<NodeKey, nat>, u: NodeKey)
    requires ChainOk(nodes, s, dist, prev, visited, rank)
    requires u == s || u in prev
    ensures u in Universe(nodes, s)
  {
    if u != s {
      assert PrevOk(nodes, dist, prev, visited, rank, u);
      var x := prev[u];
      assert x in nodes.vals && u in nodes.vals[x].neighbors.vals;
    }
  }

  lemma Shrinks(U: set<NodeKey>, V: set<NodeKey>, u: NodeKey)
    requires u in U && u !in V
    ensures |U - (V + {u})| < |U - V|
  {
    assert U - V == (U - (V + {u})) + {u};
  }

  /** The state after `dist` is filled with `Infinity`, `dist.set(startKey, 0)` and the first push. */
  lemma InitInv(nodes: NodeMap, s: NodeKey, e: NodeKey, dist: map<NodeKey, Dist>)
    requires forall k :: k in dist ==> dist[k] == Inf
    ensures Inv(nodes, s, dist[s := Fin(0.0)], map[], {}, map[], multiset{Entry(s, 0.0)}, e)
  {
  }

  lemma VisitedFinite(nodes: NodeMap, s: NodeKey, dist: map<NodeKey, Dist>, prev: map<NodeKey, NodeKey>,
                      visited: set<NodeKey>, rank: map<NodeKey, nat>, u: NodeKey)
    requires ChainOk(nodes, s, dist, prev, visited, rank) && u in visited
    ensures DistOf(dist, u).Fin?
  {
    if u != s {
      assert PrevOk(nodes, dist, prev, visited, rank, u);
    }
  }

  /** Popping an entry whose key is already finalised (`if (visited.has(u)) continue`). */
  lemma PopStale(nodes: NodeMap, s: NodeKey, dist: map<NodeKey, Dist>, prev: map<NodeKey, NodeKey>,
                 visited: set<NodeKey>, rank: map<NodeKey, nat>, H: Heap, skip: NodeKey, top: Entry<NodeKey>)
    requires Inv(nodes, s, dist, prev, visited, rank, H, skip)
    requires top in H && top.key in visited
    ensures Inv(nodes, s, dist, prev, visited, rank, H - multiset{top}, skip)
  {
    var H' := H - multiset{top};
    forall v | (v == s || v in prev) && v !in visited
      ensures DistOf(dist, v).Fin? && Entry(v, DistOf(dist, v).value) in H'
    {
      assert Entry(v, DistOf(dist, v).value) in H;
    }
  }

  /**
   * A walk from the finalised start to an unfinalised key leaves the finalised
   * set somewhere; the first key outside it already has a distance no larger
   * than the walk's weight.
   */
  lemma {:induction false} ExitBound(nodes: NodeMap, s: NodeKey, e: NodeKey, dist: map<NodeKey, Dist>,
                                     prev: map<NodeKey, NodeKey>, visited: set<NodeKey>, p: seq<NodeKey>)
    returns (y: NodeKey)
    requires FinReached(s, dist, prev)
    requires AllRelaxed(nodes, dist, visited, e) && e !in visited
    requires AllShortest(nodes, s, dist, visited) && NonNegative(nodes)
    requires IsWalk(nodes, p) && p[0] == s && s in visited && p[|p| - 1] !in visited
    ensures y !in visited && (y == s || y in prev)
    ensures DistOf(dist, y).Fin? && DistOf(dist, y).value <= WalkWeight(nodes, p)
    decreases |p|
  {
    var n := |p|;
    var q := p[..n - 1];
    WalkPrefix(nodes, p, n - 1);
    var x, u := p[n - 2], p[n - 1];
    assert q[|q| - 1] == x && q[0] == s;
    assert x in nodes.vals && u in nodes.vals[x].neighbors.vals;
    assert WalkWeight(nodes, p) == WalkWeight(nodes, q) + Weight(nodes, x, u);
    if x in visited {
      assert RelaxedAt(nodes, dist, visited, x, u);
      assert ShortestTo(nodes, s, dist, x);
      assert WalkFromTo(nodes, q, s, x);
      assert DistOf(dist, x).value <= WalkWeight(nodes, q);
      assert DistOf(dist, u).value <= DistOf(dist, x).value + Weight(nodes, x, u);
      y := u;
    } else {
      y := ExitBound(nodes, s, e, dist, prev, visited, q);
      assert 0.0 <= Weight(nodes, x, u);
    }
  }

  /** The distance of the key just popped from the queue is a shortest one. */
  lemma PoppedShortest(nodes: NodeMap, s: NodeKey, e: NodeKey, dist: map<NodeKey, Dist>, prev: map<NodeKey, NodeKey>,
                       visited: set<NodeKey>, rank: map<NodeKey, nat>, H: Heap, top: Entry<NodeKey>)
    requires Inv(nodes, s, dist, prev, visited, rank, H, e) && e !in visited
    requires top in H && top.key !in visited
    requires forall x :: x in H ==> top.d <= x.d
    requires NonNegative(nodes)
    ensures ShortestTo(nodes, s, dist, top.key)
  {
    var u := top.key;
    assert DistOf(dist, u).Fin? && DistOf(dist, u).value <= top.d;
    forall p | WalkFromTo(nodes, p, s, u)
      ensures DistOf(dist, u).value <= WalkWeight(nodes, p)
    {
      if visited == {} {
        WalkWeightNonNegative(nodes, p);
      } else {
        var y := ExitBound(nodes, s, e, dist, prev, visited, p);
        assert Entry(y, DistOf(dist, y).value) in H;
      }
    }
  }

  /** Finalising the popped key (`visited.add(u)`). */
  lemma Visit(nodes: NodeMap, s: NodeKey, e: NodeKey, dist: map<NodeKey, Dist>, prev: map<NodeKey, NodeKey>,
              visited: set<NodeKey>, rank: map<NodeKey, nat>, H: Heap, top: Entry<NodeKey>)
    requires Inv(nodes, s, dist, prev, visited, rank, H, e) && e !in visited
    requires top in H && top.key !in visited
    requires forall x :: x in H ==> top.d <= x.d
    ensures Inv(nodes, s, dist, prev, visited + {top.key}, rank[top.key := |visited|], H - multiset{top}, top.key)
    ensures top.key in Universe(nodes, s)
  {
    var u := top.key;
    assert u == s || u in prev;
    InUniverse(nodes, s, dist, prev, visited, rank, u);
    VisitChain(nodes, s, dist, prev, visited, rank, u);
    VisitHeap(s, dist, prev, visited, H, top);
    VisitRelaxed(nodes, e, dist, visited, u);
    if NonNegative(nodes) {
      PoppedShortest(nodes, s, e, dist, prev, visited, rank, H, top);
    }
  }

  lemma VisitChain(nodes: NodeMap, s: NodeKey, dist: map<NodeKey, Dist>, prev: map<NodeKey, NodeKey>,
                   visited: set<NodeKey>, rank: map<NodeKey, nat>, u: NodeKey)
    requires ChainOk(nodes, s, dist, prev, visited, rank)
    requires u !in visited && (u == s || u in prev)
    ensures ChainOk(nodes, s, dist, prev, visited + {u}, rank[u := |visited|])
  {
    var visited', rank' := visited + {u}, rank[u := |visited|];
    RankExtend(visited, rank, u, visited', rank');
    forall v | v in prev
      ensures PrevOk(nodes, dist, prev, visited', rank', v)
    {
      assert PrevOk(nodes, dist, prev, visited, rank, v);
      var x := prev[v];
      assert rank'[x] == rank[x] < |visited|;
      if v != u && v in visited' {
        assert rank'[v] == rank[v];
      }
    }
    forall y | y in visited'
      ensures y == s || y in prev
    {
    }
  }

  /** The key finalised next gets the next rank. */
  lemma RankExtend(visited: set<NodeKey>, rank: map<NodeKey, nat>, u: NodeKey,
                   visited': set<NodeKey>, rank': map<NodeKey, nat>)
    requires rank.Keys == visited && u !in visited
    requires forall y :: y in rank ==> rank[y] < |visited|
    requires visited' == visited + {u} && rank' == rank[u := |visited|]
    ensures rank'.Keys == visited'
    ensures forall y :: y in rank' ==> rank'[y] < |visited'|
  {
    assert |visited'| == |visited| + 1;
  }

  lemma VisitHeap(s: NodeKey, dist: map<NodeKey, Dist>, prev: map<NodeKey, NodeKey>,
                  visited: set<NodeKey>, H: Heap, top: Entry<NodeKey>)
    requires HeapOk(s, dist, prev, visited, H) && top in H
    ensures HeapOk(s, dist, prev, visited + {top.key}, H - multiset{top})
  {
    var visited', H' := visited + {top.key}, H - multiset{top};
    forall v | (v == s || v in prev) && v !in visited'
      ensures DistOf(dist, v).Fin? && Entry(v, DistOf(dist, v).value) in H'
    {
      assert Entry(v, DistOf(dist, v).value) in H;
    }
  }

  lemma VisitRelaxed(nodes: NodeMap, e: NodeKey, dist: map<NodeKey, Dist>, visited: set<NodeKey>, u: NodeKey)
    requires AllRelaxed(nodes, dist, visited, e) && e !in visited
    ensures AllRelaxed(nodes, dist, visited + {u}, u)
  {
    forall x, v | x in visited + {u} && x != u && x in nodes.vals && v in nodes.vals[x].neighbors.vals
      ensures RelaxedAt(nodes, dist, visited + {u}, x, v)
    {
      assert RelaxedAt(nodes, dist, visited, x, v);
    }
  }

  /**
   * Lowering v's distance through the finalised u
   * (`dist.set(v, alt); prev.set(v, u); pq.push({ key: v, d: alt })`).
   */
  lemma Relax(nodes: NodeMap, s: NodeKey, dist: map<NodeKey, Dist>, prev: map<NodeKey, NodeKey>,
              visited: set<NodeKey>, rank: map<NodeKey, nat>, H: Heap, u: NodeKey, v: NodeKey, alt: real)
    requires Inv(nodes, s, dist, prev, visited, rank, H, u)
    requires u in visited && u in nodes.vals && v in nodes.vals[u].neighbors.vals && v !in visited
    requires DistOf(dist, u).Fin? && alt == DistOf(dist, u).value + Weight(nodes, u, v)
    requires Below(Fin(alt), DistOf(dist, v))
    ensures Inv(nodes, s, dist[v := Fin(alt)], prev[v := u], visited, rank, H + multiset{Entry(v, alt)}, u)
    ensures RelaxedAt(nodes, dist[v := Fin(alt)], visited, u, v)
    ensures forall w :: w in nodes.vals[u].neighbors.vals && RelaxedAt(nodes, dist, visited, u, w) ==>
              RelaxedAt(nodes, dist[v := Fin(alt)], visited, u, w)
  {
    RelaxChain(nodes, s, dist, prev, visited, rank, u, v, alt);
    RelaxHeap(s, dist, prev, visited, H, u, v, alt);
    RelaxRelaxed(nodes, dist, visited, u, v, alt);
    RelaxShortest(nodes, s, dist, visited, v, alt);
  }

  lemma RelaxChain(nodes: NodeMap, s: NodeKey, dist: map<NodeKey, Dist>, prev: map<NodeKey, NodeKey>,
                   visited: set<NodeKey>, rank: map<NodeKey, nat>, u: NodeKey, v: NodeKey, alt: real)
    requires ChainOk(nodes, s, dist, prev, visited, rank)
    requires u in visited && u in nodes.vals && v in nodes.vals[u].neighbors.vals && v !in visited
    requires DistOf(dist, u).Fin? && alt == DistOf(dist, u).value + Weight(nodes, u, v)
    ensures ChainOk(nodes, s, dist[v := Fin(alt)], prev[v := u], visited, rank)
  {
    var dist', prev' := dist[v := Fin(alt)], prev[v := u];
    assert v != s;
    forall y | y in prev'
      ensures PrevOk(nodes, dist', prev', visited, rank, y)
    {
      if y != v {
        assert PrevOk(nodes, dist, prev, visited, rank, y);
      }
    }
  }

  lemma RelaxHeap(s: NodeKey, dist: map<NodeKey, Dist>, prev: map<NodeKey, NodeKey>,
                  visited: set<NodeKey>, H: Heap, u: NodeKey, v: NodeKey, alt: real)
    requires HeapOk(s, dist, prev, visited, H)
    requires Below(Fin(alt), DistOf(dist, v))
    ensures HeapOk(s, dist[v := Fin(alt)], prev[v := u], visited, H + multiset{Entry(v, alt)})
  {
    var dist', prev', H' := dist[v := Fin(alt)], prev[v := u], H + multiset{Entry(v, alt)};
    forall x | x in H'
      ensures (x.key == s || x.key in prev') && DistOf(dist', x.key).Fin? && DistOf(dist', x.key).value <= x.d
    {
      if x != Entry(v, alt) {
        assert x in H;
      }
    }
    forall y | (y == s || y in prev') && y !in visited
      ensures DistOf(dist', y).Fin? && Entry(y, DistOf(dist', y).value) in H'
    {
      if y != v {
        assert Entry(y, DistOf(dist, y).value) in H;
      }
    }
  }

  lemma RelaxRelaxed(nodes: NodeMap, dist: map<NodeKey, Dist>, visited: set<NodeKey>, u: NodeKey, v: NodeKey, alt: real)
    requires AllRelaxed(nodes, dist, visited, u)
    requires u in visited && u in nodes.vals && v in nodes.vals[u].neighbors.vals && v !in visited
    requires DistOf(dist, u).Fin? && alt == DistOf(dist, u).value + Weight(nodes, u, v)
    requires Below(Fin(alt), DistOf(dist, v))
    ensures AllRelaxed(nodes, dist[v := Fin(alt)], visited, u)
    ensures RelaxedAt(nodes, dist[v := Fin(alt)], visited, u, v)
    ensures forall w :: w in nodes.vals[u].neighbors.vals && RelaxedAt(nodes, dist, visited, u, w) ==>
              RelaxedAt(nodes, dist[v := Fin(alt)], visited, u, w)
  {
    var dist' := dist[v := Fin(alt)];
    forall x, y | x in visited && x in nodes.vals && y in nodes.vals[x].neighbors.vals &&
                  RelaxedAt(nodes, dist, visited, x, y)
      ensures RelaxedAt(nodes, dist', visited, x, y)
    {
    }
    forall x, y | x in visited && x != u && x in nodes.vals && y in nodes.vals[x].neighbors.vals
      ensures RelaxedAt(nodes, dist', visited, x, y)
    {
      assert RelaxedAt(nodes, dist, visited, x, y);
    }
  }

  lemma RelaxShortest(nodes: NodeMap, s: NodeKey, dist: map<NodeKey, Dist>, visited: set<NodeKey>, v: NodeKey, alt: real)
    requires AllShortest(nodes, s, dist, visited) && v !in visited
    ensures AllShortest(nodes, s, dist[v := Fin(alt)], visited)
  {
    if NonNegative(nodes) {
      forall x | x in visited
        ensures ShortestTo(nodes, s, dist[v := Fin(alt)], x)
      {
        assert ShortestTo(nodes, s, dist, x);
      }
    }
  }

  /** One more neighbour in iteration order is relaxed, and relaxing it kept the earlier ones. */
  lemma RelaxedPrefix(nodes: NodeMap, d0: map<NodeKey, Dist>, d1: map<NodeKey, Dist>, visited: set<NodeKey>,
                      u: NodeKey, keys: seq<NodeKey>, j: nat)
    requires u in nodes.vals && j < |keys|
    requires forall k :: 0 <= k < |keys| ==> keys[k] in nodes.vals[u].neighbors.vals
    requires forall k :: 0 <= k < j ==> RelaxedAt(nodes, d0, visited, u, keys[k])
    requires forall x :: x in nodes.vals[u].neighbors.vals && RelaxedAt(nodes, d0, visited, u, x) ==>
               RelaxedAt(nodes, d1, visited, u, x)
    requires RelaxedAt(nodes, d1, visited, u, keys[j])
    ensures forall k :: 0 <= k < j + 1 ==> RelaxedAt(nodes, d1, visited, u, keys[k])
  {
  }

  /** Relaxing the neighbours in iteration order reaches all of them. */
  lemma KeysRelaxed(nodes: NodeMap, dist: map<NodeKey, Dist>, visited: set<NodeKey>, u: NodeKey)
    requires u in nodes.vals && WellFormed(nodes.vals[u].neighbors)
    requires forall k :: 0 <= k < |nodes.vals[u].neighbors.keys| ==>
               RelaxedAt(nodes, dist, visited, u, nodes.vals[u].neighbors.keys[k])
    ensures forall v :: v in nodes.vals[u].neighbors.vals ==> RelaxedAt(nodes, dist, visited, u, v)
  {
    var nb := nodes.vals[u].neighbors;
    forall v | v in nb.vals
      ensures RelaxedAt(nodes, dist, visited, u, v)
    {
      var k :| 0 <= k < |nb.keys| && nb.keys[k] == v;
    }
  }

  /** Once every neighbour of u was scanned, or u is not a node (`if (!uNode) continue`). */
  lemma Scanned(nodes: NodeMap, s: NodeKey, e: NodeKey, dist: map<NodeKey, Dist>, prev: map<NodeKey, NodeKey>,
                visited: set<NodeKey>, rank: map<NodeKey, nat>, H: Heap, u: NodeKey)
    requires Inv(nodes, s, dist, prev, visited, rank, H, u)
    requires u in nodes.vals ==> forall v :: v in nodes.vals[u].neighbors.vals ==> RelaxedAt(nodes, dist, visited, u, v)
    ensures Inv(nodes, s, dist, prev, visited, rank, H, e)
  {
  }

  /**
   * When the queue runs dry before the end was finalised, every reached key
   * was finalised and no walk leads from the start to the end.
   */
  lemma Exhausted(nodes: NodeMap, s: NodeKey, e: NodeKey, dist: map<NodeKey, Dist>, prev: map<NodeKey, NodeKey>,
                  visited: set<NodeKey>, rank: map<NodeKey, nat>)
    requires Inv(nodes, s, dist, prev, visited, rank, multiset{}, e) && e !in visited
    ensures s in visited && e !in prev && e != s
    ensures !Reachable(nodes, s, e)
  {
    if p :| WalkFromTo(nodes, p, s, e) {
      WalkVisited(nodes, s, e, dist, prev, visited, rank, p, |p| - 1);
    }
  }

  lemma {:induction false} WalkVisited(nodes: NodeMap, s: NodeKey, e: NodeKey, dist: map<NodeKey, Dist>,
                                       prev: map<NodeKey, NodeKey>, visited: set<NodeKey>, rank: map<NodeKey, nat>,
                                       p: seq<NodeKey>, k: nat)
    requires Inv(nodes, s, dist, prev, visited, rank, multiset{}, e) && e !in visited
    requires IsWalk(nodes, p) && p[0] == s && k < |p|
    ensures p[k] in visited
  {
    assert s in visited;
    if k > 0 {
      WalkVisited(nodes, s, e, dist, prev, visited, rank, p, k - 1);
      var x := p[k - 1];
      assert x in nodes.vals && p[k] in nodes.vals[x].neighbors.vals;
      assert RelaxedAt(nodes, dist, visited, x, p[k]);
    }
  }

  /** One step of path reconstruction: `path.unshift(u)` then `u = prev.get(u)`. */
  ghost predicate ChainTo(nodes: NodeMap, dist: map<NodeKey, Dist>, path: seq<NodeKey>, e: NodeKey) {
    && IsWalk(nodes, path) && path[|path| - 1] == e
    && DistOf(dist, path[0]).Fin? && DistOf(dist, e).Fin?
    && DistOf(dist, path[0]).value + WalkWeight(nodes, path) == DistOf(dist, e).value
  }

  lemma ChainStart(nodes: NodeMap, s: NodeKey, dist: map<NodeKey, Dist>, prev: map<NodeKey, NodeKey>,
                   visited: set<NodeKey>, rank: map<NodeKey, nat>, e: NodeKey)
    requires ChainOk(nodes, s, dist, prev, visited, rank)
    requires e == s || e in prev
    ensures ChainTo(nodes, dist, [e], e)
  {
    if e != s {
      assert PrevOk(nodes, dist, prev, visited, rank, e);
    }
  }

  lemma ChainStep(nodes: NodeMap, s: NodeKey, dist: map<NodeKey, Dist>, prev: map<NodeKey, NodeKey>,
                  visited: set<NodeKey>, rank: map<NodeKey, nat>, path: seq<NodeKey>, e: NodeKey)
    requires ChainOk(nodes, s, dist, prev, visited, rank)
    requires ChainTo(nodes, dist, path, e) && path[0] in prev
    ensures ChainTo(nodes, dist, [prev[path[0]]] + path, e)
    ensures prev[path[0]] in visited
    ensures path[0] in visited ==> rank[prev[path[0]]] < rank[path[0]]
  {
    var v := path[0];
    assert PrevOk(nodes, dist, prev, visited, rank, v);
    PrependStep(nodes, prev[v], path);
  }
}
