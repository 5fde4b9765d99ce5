/**
 * What the build promises about the graph it produces: every node sits under
 * its own key, adjacency is symmetric with no self-loops, and every edge
 * weighs exactly the distance between its two stored nodes (so that repeated
 * segments keep the minimum rather than adding up).
 */
module PathGraphFacts {
  import opened Wrappers
  import opened OrderedMaps
  import opened Geo
  import opened PathGraph

  /** The edge a -> b is mirrored by b -> a and weighs the distance between the stored nodes. */
  ghost predicate EdgeOk(nodes: NodeMap, h: Metric, a: NodeKey, b: NodeKey)
    requires a in nodes.vals && b in nodes.vals[a].neighbors.vals
  {
    && a != b
    && b in nodes.vals
    && a in nodes.vals[b].neighbors.vals
    && nodes.vals[a].neighbors.vals[b] == Span(nodes, h, a, b)
  }

  ghost predicate GraphInv(nodes: NodeMap, h: Metric) {
    && (forall k :: k in nodes.vals ==> k == NodeKeyOf(nodes.vals[k].lat, nodes.vals[k].lng))
    && (forall a, b :: a in nodes.vals && b in nodes.vals[a].neighbors.vals ==> EdgeOk(nodes, h, a, b))
  }

  /** Under the invariant the adjacency is symmetric, with one non-negative weight per pair. */
  lemma InvSymmetric(nodes: NodeMap, h: Metric, a: NodeKey, b: NodeKey)
    requires IsMetric(h) && GraphInv(nodes, h)
    requires a in nodes.vals && b in nodes.vals[a].neighbors.vals
    ensures a != b && b in nodes.vals && a in nodes.vals[b].neighbors.vals
    ensures nodes.vals[b].neighbors.vals[a] == nodes.vals[a].neighbors.vals[b] >= 0.0
  {
    assert EdgeOk(nodes, h, a, b);
    assert EdgeOk(nodes, h, b, a);
  }

  lemma EmptyInv(h: Metric)
    ensures GraphInv(Empty(), h)
  {
  }

  lemma {:induction false} InsertNodeInv(nodes: NodeMap, lat: real, lng: real, h: Metric)
    requires GraphInv(nodes, h)
    ensures GraphInv(InsertNode(nodes, lat, lng), h)
  {
    var r := InsertNode(nodes, lat, lng);
    forall a, b | a in r.vals && b in r.vals[a].neighbors.vals
      ensures EdgeOk(r, h, a, b)
    {
      assert a in nodes.vals;
      assert EdgeOk(nodes, h, a, b);
    }
  }

  /** addEdge keeps the invariant: min(previous, w) is w again, on both sides. */
  lemma {:induction false} InsertEdgeInv(nodes: NodeMap, aKey: NodeKey, bKey: NodeKey, h: Metric)
    requires IsMetric(h) && GraphInv(nodes, h)
    requires aKey in nodes.vals && bKey in nodes.vals
    ensures GraphInv(InsertEdge(nodes, aKey, bKey, h), h)
  {
    if aKey != bKey {
      var r := InsertEdge(nodes, aKey, bKey, h);
      var w := Span(nodes, h, aKey, bKey);
      assert Span(nodes, h, bKey, aKey) == w;
      assert r.vals[aKey].neighbors.vals[bKey] == w by {
        var e := Get(nodes.vals[aKey].neighbors, bKey);
        if e.Some? { assert EdgeOk(nodes, h, aKey, bKey); }
      }
      assert r.vals[bKey].neighbors.vals[aKey] == w by {
        var e := Get(nodes.vals[bKey].neighbors, aKey);
        if e.Some? { assert EdgeOk(nodes, h, bKey, aKey); }
      }
      forall a, b | a in r.vals && b in r.vals[a].neighbors.vals
        ensures EdgeOk(r, h, a, b)
      {
        if (a == aKey && b == bKey) || (a == bKey && b == aKey) {
        } else {
          assert b in nodes.vals[a].neighbors.vals;
          assert EdgeOk(nodes, h, a, b);
          assert r.vals[a].neighbors.vals[b] == nodes.vals[a].neighbors.vals[b];
          assert a in r.vals[b].neighbors.vals;
        }
      }
    }
  }

  /**
   * An edge whose weights in both directions are already at most the distance
   * between its endpoints is left exactly as it is, insertion order included.
   */
  lemma InsertEdgeFixed(nodes: NodeMap, aKey: NodeKey, bKey: NodeKey, h: Metric)
    requires aKey in nodes.vals && bKey in nodes.vals && aKey != bKey
    requires bKey in nodes.vals[aKey].neighbors.vals && nodes.vals[aKey].neighbors.vals[bKey] <= Span(nodes, h, aKey, bKey)
    requires aKey in nodes.vals[bKey].neighbors.vals && nodes.vals[bKey].neighbors.vals[aKey] <= Span(nodes, h, aKey, bKey)
    ensures InsertEdge(nodes, aKey, bKey, h) == nodes
  {
    var a := nodes.vals[aKey];
    var b := nodes.vals[bKey];
    var w := h(a.lat, a.lng, b.lat, b.lng);
    SetSame(a.neighbors, bKey);
    var a' := a.(neighbors := Set(a.neighbors, bKey, MinWith(Get(a.neighbors, bKey), w)));
    assert a' == a;
    SetSame(nodes, aKey);
    var n1 := Set(nodes, aKey, a');
    assert n1 == nodes;
    SetSame(b.neighbors, aKey);
    var b' := b.(neighbors := Set(b.neighbors, aKey, MinWith(Get(b.neighbors, aKey), w)));
    assert b' == b;
    SetSame(nodes, bKey);
  }

  /** Inserting the same segment twice is the same as inserting it once. */
  lemma InsertEdgeIdempotent(nodes: NodeMap, aKey: NodeKey, bKey: NodeKey, h: Metric)
    requires aKey in nodes.vals && bKey in nodes.vals
    ensures InsertEdge(InsertEdge(nodes, aKey, bKey, h), aKey, bKey, h) == InsertEdge(nodes, aKey, bKey, h)
  {
    if aKey != bKey {
      var r1 := InsertEdge(nodes, aKey, bKey, h);
      assert Span(r1, h, aKey, bKey) == Span(nodes, h, aKey, bKey);
      InsertEdgeFixed(r1, aKey, bKey, h);
    }
  }

  /** On a graph that keeps the invariant, an edge that is already there is left exactly as it is. */
  lemma InsertEdgeExisting(nodes: NodeMap, aKey: NodeKey, bKey: NodeKey, h: Metric)
    requires IsMetric(h) && GraphInv(nodes, h)
    requires aKey in nodes.vals && bKey in nodes.vals
    requires aKey == bKey || bKey in nodes.vals[aKey].neighbors.vals
    ensures InsertEdge(nodes, aKey, bKey, h) == nodes
  {
    if aKey != bKey {
      assert EdgeOk(nodes, h, aKey, bKey);
      assert EdgeOk(nodes, h, bKey, aKey);
      assert Span(nodes, h, bKey, aKey) == Span(nodes, h, aKey, bKey);
      InsertEdgeFixed(nodes, aKey, bKey, h);
    }
  }

  lemma {:induction false} InsertVerticesInv(nodes: NodeMap, coords: seq<Position>, i: nat, prevKey: Option<NodeKey>, h: Metric)
    requires i < |coords|
    requires prevKey.Some? ==> prevKey.value in nodes.vals
    requires IsMetric(h) && GraphInv(nodes, h)
    ensures GraphInv(InsertVertices(nodes, coords, i, prevKey, h), h)
    decreases |coords| - i
  {
    var key := VertexKey(coords, i);
    var n1 := InsertNode(nodes, coords[i].lat, coords[i].lng);
    InsertNodeInv(nodes, coords[i].lat, coords[i].lng, h);
    if prevKey.Some? { InsertEdgeInv(n1, prevKey.value, key, h); }
    var n2 := InsertVertex(nodes, coords, i, prevKey, h);
    assert InsertVertices(nodes, coords, i, prevKey, h) == InsertVertices(n2, coords, i + 1, Some(key), h);
    if i + 1 < |coords| {
      InsertVerticesInv(n2, coords, i + 1, Some(key), h);
    }
  }

  lemma InsertLineInv(nodes: NodeMap, coords: seq<Position>, h: Metric)
    requires IsMetric(h) && GraphInv(nodes, h)
    ensures GraphInv(InsertLine(nodes, coords, h), h)
  {
    if |coords| >= 2 { InsertVerticesInv(nodes, coords, 0, None, h); }
  }

  lemma {:induction false} InsertLinesInv(nodes: NodeMap, lines: seq<seq<Position>>, i: nat, h: Metric)
    requires i <= |lines|
    requires IsMetric(h) && GraphInv(nodes, h)
    ensures GraphInv(InsertLines(nodes, lines, i, h), h)
    decreases |lines| - i
  {
    if i < |lines| {
      InsertLineInv(nodes, lines[i], h);
      InsertLinesInv(InsertLine(nodes, lines[i], h), lines, i + 1, h);
    }
  }

  lemma {:induction false} InsertFeaturesInv(g: Graph, features: seq<Option<Feature>>, i: nat, h: Metric)
    requires i <= |features|
    requires IsMetric(h) && GraphInv(g.nodes, h)
    ensures GraphInv(InsertFeatures(g, features, i, h).nodes, h)
    decreases |features| - i
  {
    if i < |features| {
      var feat := features[i];
      if ShouldUseFeature(feat) {
        match feat.value.geometry.value
        case LineString(coords) => InsertLineInv(g.nodes, coords, h);
        case MultiLineString(lines) => InsertLinesInv(g.nodes, lines, 0, h);
      }
      InsertFeaturesInv(InsertFeature(g, feat, h), features, i + 1, h);
    }
  }

  /**
   * The built graph keeps the invariant: symmetric adjacency, no self-loops,
   * each node under its own six-decimal key, each weight the haversine
   * distance between its endpoints.
   */
  lemma BuildInv(features: seq<Option<Feature>>, h: Metric)
    requires IsMetric(h)
    ensures GraphInv(Build(features, h).nodes, h)
  {
    EmptyInv(h);
    InsertFeaturesInv(EmptyGraph(), features, 0, h);
  }

  /** A node stays a node while the rest of the line is inserted. */
  lemma {:induction false} InsertVerticesKeeps(nodes: NodeMap, coords: seq<Position>, i: nat, prevKey: Option<NodeKey>, h: Metric, k: NodeKey)
    requires i <= |coords|
    requires prevKey.Some? ==> prevKey.value in nodes.vals
    requires k in nodes.vals
    ensures k in InsertVertices(nodes, coords, i, prevKey, h).vals
    decreases |coords| - i
  {
    if i < |coords| {
      var n1 := InsertVertex(nodes, coords, i, prevKey, h);
      assert InsertVertices(n1, coords, i + 1, Some(VertexKey(coords, i)), h) == InsertVertices(nodes, coords, i, prevKey, h);
      assert k in n1.vals;
      InsertVerticesKeeps(n1, coords, i + 1, Some(VertexKey(coords, i)), h, k);
    }
  }

  /** Vertex j of the line, from i on, is a node afterwards. */
  lemma {:induction false} InsertVerticesHas(nodes: NodeMap, coords: seq<Position>, i: nat, prevKey: Option<NodeKey>, h: Metric, j: nat)
    requires i <= j < |coords|
    requires prevKey.Some? ==> prevKey.value in nodes.vals
    ensures VertexKey(coords, j) in InsertVertices(nodes, coords, i, prevKey, h).vals
    decreases |coords| - i
  {
    var key := VertexKey(coords, i);
    var n1 := InsertVertex(nodes, coords, i, prevKey, h);
    assert InsertVertices(n1, coords, i + 1, Some(key), h) == InsertVertices(nodes, coords, i, prevKey, h);
    if j == i {
      InsertVerticesKeeps(n1, coords, i + 1, Some(key), h, key);
    } else {
      InsertVerticesHas(n1, coords, i + 1, Some(key), h, j);
    }
  }

  /** Every vertex of the line from i on is a node afterwards. */
  lemma InsertVerticesNodes(nodes: NodeMap, coords: seq<Position>, i: nat, prevKey: Option<NodeKey>, h: Metric)
    requires i < |coords|
    requires prevKey.Some? ==> prevKey.value in nodes.vals
    ensures forall j :: i <= j < |coords| ==> VertexKey(coords, j) in InsertVertices(nodes, coords, i, prevKey, h).vals
  {
    forall j | i <= j < |coords|
      ensures VertexKey(coords, j) in InsertVertices(nodes, coords, i, prevKey, h).vals
    {
      InsertVerticesHas(nodes, coords, i, prevKey, h, j);
    }
  }

  /**
   * The segment a - b is in place: both directions exist and neither weighs
   * more than the distance between the stored endpoints.
   */
  ghost predicate Settled(nodes: NodeMap, h: Metric, a: NodeKey, b: NodeKey) {
    && a in nodes.vals && b in nodes.vals
    && b in nodes.vals[a].neighbors.vals && a in nodes.vals[b].neighbors.vals
    && nodes.vals[a].neighbors.vals[b] <= Span(nodes, h, a, b)
    && nodes.vals[b].neighbors.vals[a] <= Span(nodes, h, a, b)
  }

  lemma SettledKept(before: NodeMap, after: NodeMap, h: Metric, a: NodeKey, b: NodeKey)
    requires Extends(before, after) && Lowers(before, after)
    requires Settled(before, h, a, b)
    ensures Settled(after, h, a, b)
  {
  }

  /**
   * After the loop of processLine from vertex i on, each consecutive pair
   * with distinct keys is a settled segment, and so is the previous vertex
   * with vertex i.
   */
  lemma {:induction false} InsertVerticesSettles(nodes: NodeMap, coords: seq<Position>, i: nat, prevKey: Option<NodeKey>, h: Metric)
    requires i < |coords|
    requires prevKey.Some? ==> prevKey.value in nodes.vals
    ensures forall j :: i <= j < |coords| - 1 && VertexKey(coords, j) != VertexKey(coords, j + 1) ==>
      Settled(InsertVertices(nodes, coords, i, prevKey, h), h, VertexKey(coords, j), VertexKey(coords, j + 1))
    ensures prevKey.Some? && prevKey.value != VertexKey(coords, i) ==>
      Settled(InsertVertices(nodes, coords, i, prevKey, h), h, prevKey.value, VertexKey(coords, i))
    decreases |coords| - i
  {
    var key := VertexKey(coords, i);
    var n1 := InsertVertex(nodes, coords, i, prevKey, h);
    var r := InsertVertices(n1, coords, i + 1, Some(key), h);
    assert r == InsertVertices(nodes, coords, i, prevKey, h);
    if prevKey.Some? && prevKey.value != key {
      var n0 := InsertNode(nodes, coords[i].lat, coords[i].lng);
      assert Span(n1, h, prevKey.value, key) == Span(n0, h, prevKey.value, key);
      assert Settled(n1, h, prevKey.value, key);
    }
    if i + 1 < |coords| {
      InsertVerticesSettles(n1, coords, i + 1, Some(key), h);
      InsertVerticesLowers(n1, coords, i + 1, Some(key), h);
      if prevKey.Some? && prevKey.value != key {
        SettledKept(n1, r, h, prevKey.value, key);
      }
      forall j | i <= j < |coords| - 1 && VertexKey(coords, j) != VertexKey(coords, j + 1)
        ensures Settled(r, h, VertexKey(coords, j), VertexKey(coords, j + 1))
      {
        if j == i {
          assert key == VertexKey(coords, j);
        }
      }
    }
  }

  /**
   * processLine on a line of at least two vertices: every vertex becomes a
   * node (longitude and latitude swapped into the key) and every consecutive
   * pair with distinct keys becomes an edge in both directions.
   */
  lemma InsertLineLinks(nodes: NodeMap, coords: seq<Position>, h: Metric)
    requires |coords| >= 2
    ensures var r := InsertLine(nodes, coords, h);
      && (forall j :: 0 <= j < |coords| ==> VertexKey(coords, j) in r.vals)
      && (forall j :: 0 <= j < |coords| - 1 && VertexKey(coords, j) != VertexKey(coords, j + 1) ==>
            && VertexKey(coords, j + 1) in r.vals[VertexKey(coords, j)].neighbors.vals
            && VertexKey(coords, j) in r.vals[VertexKey(coords, j + 1)].neighbors.vals)
    // and nothing else: the new nodes are the line's vertices, and every new or changed
    // neighbour entry belongs to a consecutive pair of the line
    ensures var r := InsertLine(nodes, coords, h);
      && r.vals.Keys == nodes.vals.Keys + (set j | 0 <= j < |coords| :: VertexKey(coords, j))
      && (forall a, b ::
            (a in r.vals && b in r.vals[a].neighbors.vals &&
             !(a in nodes.vals && b in nodes.vals[a].neighbors.vals &&
               r.vals[a].neighbors.vals[b] == nodes.vals[a].neighbors.vals[b])) ==>
            exists j :: 0 <= j < |coords| - 1 && {a, b} == {VertexKey(coords, j), VertexKey(coords, j + 1)})
  {
    InsertVerticesNodes(nodes, coords, 0, None, h);
    InsertVerticesSettles(nodes, coords, 0, None, h);
    InsertVerticesKeys(nodes, coords, 0, None, h);
    InsertVerticesOnly(nodes, coords, 0, None, h);
  }

  /** The neighbour entry a -> b of `after` was already in `before`, with the same weight. */
  ghost predicate EntryKept(before: NodeMap, after: NodeMap, a: NodeKey, b: NodeKey)
    requires a in after.vals && b in after.vals[a].neighbors.vals
  {
    && a in before.vals && b in before.vals[a].neighbors.vals
    && after.vals[a].neighbors.vals[b] == before.vals[a].neighbors.vals[b]
  }

  /** {a, b} is the previous vertex with vertex i, or a consecutive pair of the line from vertex i on. */
  ghost predicate LinePair(coords: seq<Position>, i: nat, prevKey: Option<NodeKey>, a: NodeKey, b: NodeKey) {
    || (prevKey.Some? && i < |coords| && {a, b} == {prevKey.value, VertexKey(coords, i)})
    || (exists j :: i <= j < |coords| - 1 && {a, b} == {VertexKey(coords, j), VertexKey(coords, j + 1)})
  }

  /**
   * One pass of the processLine loop adds vertex i as a node and touches no
   * neighbour entry other than the two between it and the previous vertex.
   */
  lemma InsertVertexOnly(nodes: NodeMap, coords: seq<Position>, i: nat, prevKey: Option<NodeKey>, h: Metric)
    requires i < |coords|
    requires prevKey.Some? ==> prevKey.value in nodes.vals
    ensures InsertVertex(nodes, coords, i, prevKey, h).vals.Keys == nodes.vals.Keys + {VertexKey(coords, i)}
    ensures var r := InsertVertex(nodes, coords, i, prevKey, h);
      forall a, b :: a in r.vals && b in r.vals[a].neighbors.vals && !EntryKept(nodes, r, a, b) ==>
        prevKey.Some? && {a, b} == {prevKey.value, VertexKey(coords, i)}
  {
    var key := VertexKey(coords, i);
    var n0 := InsertNode(nodes, coords[i].lat, coords[i].lng);
    var r := InsertVertex(nodes, coords, i, prevKey, h);
    assert forall a, b :: a in n0.vals && b in n0.vals[a].neighbors.vals ==> EntryKept(nodes, n0, a, b);
    if prevKey.Some? {
      forall a, b | a in r.vals && b in r.vals[a].neighbors.vals && {a, b} != {prevKey.value, key}
        ensures EntryKept(n0, r, a, b)
      {
      }
    }
  }

  /** The loop of processLine from vertex i on adds exactly the vertices from i on as nodes. */
  lemma {:induction false} InsertVerticesKeys(nodes: NodeMap, coords: seq<Position>, i: nat, prevKey: Option<NodeKey>, h: Metric)
    requires i < |coords|
    requires prevKey.Some? ==> prevKey.value in nodes.vals
    ensures InsertVertices(nodes, coords, i, prevKey, h).vals.Keys
         == nodes.vals.Keys + (set j | i <= j < |coords| :: VertexKey(coords, j))
    decreases |coords| - i
  {
    var key := VertexKey(coords, i);
    var n1 := InsertVertex(nodes, coords, i, prevKey, h);
    assert InsertVertices(n1, coords, i + 1, Some(key), h) == InsertVertices(nodes, coords, i, prevKey, h);
    assert n1.vals.Keys == nodes.vals.Keys + {key};
    LineKeysFrom(coords, i);
    if i + 1 < |coords| {
      InsertVerticesKeys(n1, coords, i + 1, Some(key), h);
    }
  }

  /** The vertex keys from i on are vertex i's key and those from i + 1 on. */
  lemma LineKeysFrom(coords: seq<Position>, i: nat)
    requires i < |coords|
    ensures (set j | i <= j < |coords| :: VertexKey(coords, j))
         == {VertexKey(coords, i)} + (set j | i + 1 <= j < |coords| :: VertexKey(coords, j))
    ensures i + 1 == |coords| ==> (set j | i <= j < |coords| :: VertexKey(coords, j)) == {VertexKey(coords, i)}
  {
  }

  /**
   * Every neighbour entry the loop of processLine from vertex i on adds or
   * changes belongs to a pair it links.
   */
  lemma {:induction false} InsertVerticesOnly(nodes: NodeMap, coords: seq<Position>, i: nat, prevKey: Option<NodeKey>, h: Metric)
    requires i < |coords|
    requires prevKey.Some? ==> prevKey.value in nodes.vals
    ensures var r := InsertVertices(nodes, coords, i, prevKey, h);
      forall a, b :: a in r.vals && b in r.vals[a].neighbors.vals && !EntryKept(nodes, r, a, b) ==>
        LinePair(coords, i, prevKey, a, b)
    decreases |coords| - i
  {
    var key := VertexKey(coords, i);
    var n1 := InsertVertex(nodes, coords, i, prevKey, h);
    var r := InsertVertices(n1, coords, i + 1, Some(key), h);
    assert r == InsertVertices(nodes, coords, i, prevKey, h);
    InsertVertexOnly(nodes, coords, i, prevKey, h);
    if i + 1 < |coords| {
      InsertVerticesOnly(n1, coords, i + 1, Some(key), h);
      forall a, b | a in r.vals && b in r.vals[a].neighbors.vals && !EntryKept(nodes, r, a, b)
        ensures LinePair(coords, i, prevKey, a, b)
      {
        if EntryKept(n1, r, a, b) {
          assert !EntryKept(nodes, n1, a, b);
        } else {
          assert LinePair(coords, i + 1, Some(key), a, b);
          if {a, b} == {key, VertexKey(coords, i + 1)} {
            assert i <= i < |coords| - 1 && {a, b} == {VertexKey(coords, i), VertexKey(coords, i + 1)};
          }
        }
      }
    }
  }

  /**
   * Once every vertex is a node and every consecutive pair a settled segment,
   * walking the line again from vertex i changes nothing.
   */
  lemma {:induction false} InsertVerticesAgain(nodes: NodeMap, coords: seq<Position>, i: nat, prevKey: Option<NodeKey>, h: Metric)
    requires i < |coords|
    requires forall j :: 0 <= j < |coords| ==> VertexKey(coords, j) in nodes.vals
    requires forall j :: 0 <= j < |coords| - 1 && VertexKey(coords, j) != VertexKey(coords, j + 1) ==>
      Settled(nodes, h, VertexKey(coords, j), VertexKey(coords, j + 1))
    requires i == 0 <==> prevKey.None?
    requires prevKey.Some? ==> prevKey.value == VertexKey(coords, i - 1)
    ensures InsertVertices(nodes, coords, i, prevKey, h) == nodes
    decreases |coords| - i
  {
    var key := VertexKey(coords, i);
    assert key in nodes.vals;
    assert InsertNode(nodes, coords[i].lat, coords[i].lng) == nodes;
    if prevKey.Some? {
      var pk := prevKey.value;
      assert pk == VertexKey(coords, i - 1);
      if pk != key {
        assert Settled(nodes, h, pk, key);
        InsertEdgeFixed(nodes, pk, key, h);
      }
    }
    assert InsertVertex(nodes, coords, i, prevKey, h) == nodes;
    if i + 1 < |coords| {
      InsertVerticesAgain(nodes, coords, i + 1, Some(key), h);
    }
    assert InsertVertices(nodes, coords, i, prevKey, h) == InsertVertices(nodes, coords, i + 1, Some(key), h);
  }

  /**
   * Processing the same line a second time leaves the graph exactly as it
   * was: overlapping segments do not add up, and nothing is reordered.
   */
  lemma InsertLineIdempotent(nodes: NodeMap, coords: seq<Position>, h: Metric)
    ensures InsertLine(InsertLine(nodes, coords, h), coords, h) == InsertLine(nodes, coords, h)
  {
    if |coords| >= 2 {
      var r := InsertLine(nodes, coords, h);
      InsertVerticesNodes(nodes, coords, 0, None, h);
      InsertVerticesSettles(nodes, coords, 0, None, h);
      InsertVerticesAgain(r, coords, 0, None, h);
    }
  }

  /** The features the filter accepts, in input order. */
  function Accepted(features: seq<Option<Feature>>): (r: seq<Feature>)
    ensures forall f :: f in r ==> ShouldUseFeature(Some(f))
    ensures |r| <= |features|
  {
    if features == [] then []
    else
      var rest := Accepted(features[1..]);
      if ShouldUseFeature(features[0]) then [features[0].value] + rest else rest
  }

  lemma {:induction false} InsertFeaturesDisplay(g: Graph, features: seq<Option<Feature>>, i: nat, h: Metric)
    requires i <= |features|
    ensures InsertFeatures(g, features, i, h).displayFeatures == g.displayFeatures + Accepted(features[i..])
    decreases |features| - i
  {
    if i < |features| {
      assert features[i..][1..] == features[i + 1..];
      InsertFeaturesDisplay(InsertFeature(g, features[i], h), features, i + 1, h);
    } else {
      assert features[i..] == [];
    }
  }

  /** The display list is the accepted features, in order, each kept once. */
  lemma BuildDisplay(features: seq<Option<Feature>>, h: Metric)
    ensures Build(features, h).displayFeatures == Accepted(features)
  {
    InsertFeaturesDisplay(EmptyGraph(), features, 0, h);
    assert features[0..] == features;
  }

  lemma {:induction false} InsertFeaturesUnused(g: Graph, features: seq<Option<Feature>>, i: nat, h: Metric)
    requires i <= |features|
    requires forall j :: i <= j < |features| ==> !ShouldUseFeature(features[j])
    ensures InsertFeatures(g, features, i, h) == g
    decreases |features| - i
  {
    if i < |features| {
      InsertFeaturesUnused(g, features, i + 1, h);
    }
  }

  /** A collection without one usable line feature gives a graph with no nodes. */
  lemma NoUsableFeatureNoNodes(features: seq<Option<Feature>>, h: Metric)
    requires forall j :: 0 <= j < |features| ==> !ShouldUseFeature(features[j])
    ensures Build(features, h).nodes.keys == []
  {
    InsertFeaturesUnused(EmptyGraph(), features, 0, h);
  }
}
