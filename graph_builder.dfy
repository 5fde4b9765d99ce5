/**
 * `_buildGraphFromGeoJSON` as the source runs it: a node map and a display
 * list that the inner helpers update in place, one feature, line and vertex
 * at a time.  Each step is proved to leave exactly the state that the
 * corresponding function of PathGraph describes.
 */
module GraphBuilding {
  import opened Wrappers
  import opened OrderedMaps
  import opened Geo
  import opened PathGraph
  import opened PathGraphFacts

  /** The closure state of one `_buildGraphFromGeoJSON` call. */
  class GraphBuilder {
    /** `_haversine`. */
    const h: Metric
    var nodes: NodeMap
    var displayFeatures: seq<Feature>

    constructor(h: Metric)
      ensures this.h == h && nodes == Empty() && displayFeatures == []
    {
      this.h := h;
      nodes := Empty();
      displayFeatures := [];
    }

    /** The state as a PathGraph value. */
    function State(): Graph
      reads this
    {
      Graph(nodes, displayFeatures)
    }

    /** `addNode(lat, lng)`: returns the key; the node is created only if the key is new. */
    method AddNode(lat: real, lng: real) returns (key: NodeKey)
      modifies this
      ensures key == NodeKeyOf(lat, lng) && key in nodes.vals
      ensures nodes == InsertNode(old(nodes), lat, lng)
      ensures displayFeatures == old(displayFeatures)
    {
      key := NodeKeyOf(lat, lng);
      if key !in nodes.vals {
        nodes := Set(nodes, key, GraphNode(lat, lng, Empty()));
      }
    }

    /** `addEdge(aKey, bKey)`; both keys must already be nodes (the source's `!`). */
    method AddEdge(aKey: NodeKey, bKey: NodeKey)
      requires aKey in nodes.vals && bKey in nodes.vals
      modifies this
      ensures nodes == InsertEdge(old(nodes), aKey, bKey, h)
      ensures displayFeatures == old(displayFeatures)
    {
      if aKey == bKey {
        return;
      }
      var a := nodes.vals[aKey];
      var b := nodes.vals[bKey];
      var w := h(a.lat, a.lng, b.lat, b.lng);
      a := a.(neighbors := Set(a.neighbors, bKey, MinWith(Get(a.neighbors, bKey), w)));
      b := b.(neighbors := Set(b.neighbors, aKey, MinWith(Get(b.neighbors, aKey), w)));
      nodes := Set(nodes, aKey, a);
      nodes := Set(nodes, bKey, b);
    }

    /** `processLine(coords)`. */
    method ProcessLine(coords: seq<Position>)
      modifies this
      ensures nodes == InsertLine(old(nodes), coords, h)
      ensures displayFeatures == old(displayFeatures)
    {
      if |coords| < 2 {
        return;
      }
      var prevKey: Option<NodeKey> := None;
      var i := 0;
      while i < |coords|
        invariant 0 <= i <= |coords|
        invariant i == 0 <==> prevKey.None?
        invariant prevKey.Some? ==> prevKey.value in nodes.vals && prevKey.value == VertexKey(coords, i - 1)
        invariant InsertVertices(nodes, coords, i, prevKey, h) == InsertLine(old(nodes), coords, h)
        invariant displayFeatures == old(displayFeatures)
      {
        ghost var before := nodes;
        var lng := coords[i].lng;
        var lat := coords[i].lat;
        var key := AddNode(lat, lng);
        if prevKey.Some? {
          AddEdge(prevKey.value, key);
        }
        assert nodes == InsertVertex(before, coords, i, prevKey, h);
        assert InsertVertices(before, coords, i, prevKey, h) == InsertVertices(nodes, coords, i + 1, Some(key), h);
        prevKey := Some(key);
        i := i + 1;
      }
      assert InsertVertices(nodes, coords, i, prevKey, h) == nodes;
    }

    /** The `forEach` callback for one feature. */
    method AddFeature(feat: Option<Feature>)
      modifies this
      ensures State() == InsertFeature(old(State()), feat, h)
    {
      if !ShouldUseFeature(feat) {
        return;
      }
      var geom := feat.value.geometry.value;
      match geom
      case LineString(coords) =>
        ProcessLine(coords);
        displayFeatures := displayFeatures + [feat.value];
      case MultiLineString(lines) =>
        var k := 0;
        while k < |lines|
          invariant 0 <= k <= |lines|
          invariant InsertLines(nodes, lines, k, h) == InsertLines(old(nodes), lines, 0, h)
          invariant displayFeatures == old(displayFeatures)
        {
          ProcessLine(lines[k]);
          k := k + 1;
        }
        displayFeatures := displayFeatures + [feat.value];
    }
  }

  /**
   * `_buildGraphFromGeoJSON(geojson)` with `geojson.features || []` given as a
   * sequence (an absent entry is None).  The result is the graph `Build`
   * describes, every `Map` in it is well-formed, and with a distance that is
   * non-negative and symmetric it keeps the builder invariant.
   */
  method BuildGraphFromGeoJSON(features: seq<Option<Feature>>, h: Metric) returns (g: Graph)
    ensures g == Build(features, h)
    ensures NodesWF(g.nodes)
    ensures g.displayFeatures == Accepted(features)
    ensures IsMetric(h) ==> GraphInv(g.nodes, h)
  {
    var builder := new GraphBuilder(h);
    var i := 0;
    while i < |features|
      invariant 0 <= i <= |features|
      invariant builder.h == h
      invariant InsertFeatures(builder.State(), features, i, h) == Build(features, h)
    {
      builder.AddFeature(features[i]);
      i := i + 1;
    }
    g := builder.State();
    BuildWF(features, h);
    BuildDisplay(features, h);
    if IsMetric(h) {
      BuildInv(features, h);
    }
  }
}
