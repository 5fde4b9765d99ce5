/**
 * The path graph and, as functions over values, what `_buildGraphFromGeoJSON`
 * does to it: the feature filter, `addNode`, `addEdge`, `processLine`, the
 * per-feature step and the whole build.  The class in graph_builder.dfy runs
 * the same steps in place and is proved equal to these functions.
 */
module PathGraph {
  import opened Wrappers
  import opened OrderedMaps
  import opened Geo

  /** A vertex: its coordinates and the weights of its edges, keyed by neighbour. */
  datatype GraphNode = GraphNode(lat: real, lng: real, neighbors: OrdMap<NodeKey, real>)

  /** `nodes`: all vertices by key, in order of first appearance. */
  type NodeMap = OrdMap<NodeKey, GraphNode>

  /** The node map and every neighbour map are well-formed `Map`s. */
  ghost predicate NodesWF(nodes: NodeMap) {
    && WellFormed(nodes)
    && (forall k :: k in nodes.vals ==> WellFormed(nodes.vals[k].neighbors))
  }

  /** A GeoJSON position, longitude first. */
  datatype Position = Position(lng: real, lat: real)

  datatype Geometry =
    | LineString(coordinates: seq<Position>)
    | MultiLineString(lines: seq<seq<Position>>)
    | OtherGeometry(kind: string)

  /**
   * A GeoJSON feature.  A missing `properties` object is the empty map; a
   * property counts as set when its value is a non-empty string.
   */
  datatype Feature = Feature(geometry: Option<Geometry>, properties: map<string, string>)

  /** The builder's result, without the Leaflet bounds. */
  datatype Graph = Graph(nodes: NodeMap, displayFeatures: seq<Feature>)

  /** The JavaScript truth value of `p[tag]`. */
  predicate IsSet(p: map<string, string>, tag: string) {
    tag in p && p[tag] != ""
  }

  /** The tags that mark a feature as a path; they do not influence the filter. */
  const PathTags: seq<string> :=
    ["highway", "footway", "path", "sidewalk", "cycleway", "pedestrian", "service", "track", "steps"]

  predicate IsLine(g: Geometry) {
    g.LineString? || g.MultiLineString?
  }

  /** `shouldUseFeature`: a denylist of power lines, fences and barriers over all line features. */
  function ShouldUseFeature(feat: Option<Feature>): (use: bool)
    ensures use <==>
      && feat.Some? && feat.value.geometry.Some? && IsLine(feat.value.geometry.value)
      && !IsSet(feat.value.properties, "power")
      && !IsSet(feat.value.properties, "fence_type")
      && !IsSet(feat.value.properties, "barrier")
  {
    if feat.None? || feat.value.geometry.None? then false
    else if !IsLine(feat.value.geometry.value) then false
    else
      var p := feat.value.properties;
      var tagged := exists i :: 0 <= i < |PathTags| && IsSet(p, PathTags[i]);
      if IsSet(p, "power") || IsSet(p, "fence_type") || IsSet(p, "barrier") then false
      else if tagged then true
      else true
  }

  /** Whatever value any non-barrier tag has, the filter's answer is the same. */
  lemma PathTagsIgnored(feat: Feature, tag: string, value: string)
    requires tag != "power" && tag != "fence_type" && tag != "barrier"
    ensures ShouldUseFeature(Some(feat.(properties := feat.properties[tag := value])))
         == ShouldUseFeature(Some(feat))
  {
    var p' := feat.properties[tag := value];
    assert IsSet(p', "power") == IsSet(feat.properties, "power");
    assert IsSet(p', "fence_type") == IsSet(feat.properties, "fence_type");
    assert IsSet(p', "barrier") == IsSet(feat.properties, "barrier");
  }

  /** `addNode(lat, lng)` on the node map: create the node only when its key is new. */
  function InsertNode(nodes: NodeMap, lat: real, lng: real): (r: NodeMap)
    ensures NodeKeyOf(lat, lng) in r.vals
    ensures NodeKeyOf(lat, lng) in nodes.vals ==> r == nodes
    ensures NodeKeyOf(lat, lng) !in nodes.vals ==>
      && r.keys == nodes.keys + [NodeKeyOf(lat, lng)]
      && r.vals == nodes.vals[NodeKeyOf(lat, lng) := GraphNode(lat, lng, Empty())]
  {
    var key := NodeKeyOf(lat, lng);
    if key in nodes.vals then nodes else Set(nodes, key, GraphNode(lat, lng, Empty()))
  }

  /** `Math.min(existing ?? Infinity, w)`. */
  function MinWith(existing: Option<real>, w: real): (m: real)
    ensures m <= w && (existing.Some? ==> m <= existing.value)
    ensures m == w || (existing.Some? && m == existing.value)
  {
    if existing.Some? && existing.value < w then existing.value else w
  }

  /** The haversine distance between the stored coordinates of two nodes. */
  function Span(nodes: NodeMap, h: Metric, a: NodeKey, b: NodeKey): real
    requires a in nodes.vals && b in nodes.vals
  {
    h(nodes.vals[a].lat, nodes.vals[a].lng, nodes.vals[b].lat, nodes.vals[b].lng)
  }

  /** Nothing a later build step does removes a node, moves it, or removes an edge. */
  ghost predicate Extends(before: NodeMap, after: NodeMap) {
    && before.keys <= after.keys
    && (forall k :: k in before.vals ==>
          && k in after.vals
          && after.vals[k].lat == before.vals[k].lat
          && after.vals[k].lng == before.vals[k].lng
          && before.vals[k].neighbors.vals.Keys <= after.vals[k].neighbors.vals.Keys)
  }

  /** Between two build states, no weight has gone up. */
  ghost predicate Lowers(before: NodeMap, after: NodeMap)
    requires Extends(before, after)
  {
    forall k, j :: k in before.vals && j in before.vals[k].neighbors.vals ==>
      after.vals[k].neighbors.vals[j] <= before.vals[k].neighbors.vals[j]
  }

  lemma ExtendsTransitive(a: NodeMap, b: NodeMap, c: NodeMap)
    requires Extends(a, b) && Extends(b, c)
    ensures Extends(a, c)
    ensures Lowers(a, b) && Lowers(b, c) ==> Lowers(a, c)
  {
  }

  /**
   * `addEdge(aKey, bKey)`: nothing for a self-loop; otherwise both directions
   * get the smaller of their previous weight and the distance between the
   * stored nodes, and no other node changes.
   */
  function InsertEdge(nodes: NodeMap, aKey: NodeKey, bKey: NodeKey, h: Metric): (r: NodeMap)
    requires aKey in nodes.vals && bKey in nodes.vals
    ensures aKey == bKey ==> r == nodes
    ensures r.keys == nodes.keys && r.vals.Keys == nodes.vals.Keys
    ensures forall k :: k in nodes.vals && k != aKey && k != bKey ==> r.vals[k] == nodes.vals[k]
    ensures aKey != bKey ==>
      && r.vals[aKey] == nodes.vals[aKey].(neighbors := r.vals[aKey].neighbors)
      && r.vals[bKey] == nodes.vals[bKey].(neighbors := r.vals[bKey].neighbors)
      && r.vals[aKey].neighbors.vals ==
           nodes.vals[aKey].neighbors.vals[bKey := MinWith(Get(nodes.vals[aKey].neighbors, bKey), Span(nodes, h, aKey, bKey))]
      && r.vals[bKey].neighbors.vals ==
           nodes.vals[bKey].neighbors.vals[aKey := MinWith(Get(nodes.vals[bKey].neighbors, aKey), Span(nodes, h, aKey, bKey))]
  {
    if aKey == bKey then nodes
    else
      var a := nodes.vals[aKey];
      var b := nodes.vals[bKey];
      var w := h(a.lat, a.lng, b.lat, b.lng);
      var a' := a.(neighbors := Set(a.neighbors, bKey, MinWith(Get(a.neighbors, bKey), w)));
      var b' := b.(neighbors := Set(b.neighbors, aKey, MinWith(Get(b.neighbors, aKey), w)));
      Set(Set(nodes, aKey, a'), bKey, b')
  }

  lemma InsertNodeExtends(nodes: NodeMap, lat: real, lng: real)
    ensures Extends(nodes, InsertNode(nodes, lat, lng))
    ensures NodesWF(nodes) ==> NodesWF(InsertNode(nodes, lat, lng))
  {
  }

  lemma InsertEdgeExtends(nodes: NodeMap, aKey: NodeKey, bKey: NodeKey, h: Metric)
    requires aKey in nodes.vals && bKey in nodes.vals
    ensures Extends(nodes, InsertEdge(nodes, aKey, bKey, h))
    ensures NodesWF(nodes) ==> NodesWF(InsertEdge(nodes, aKey, bKey, h))
  {
  }

  /** addEdge only ever lowers a weight (`Math.min`). */
  lemma InsertEdgeLowers(nodes: NodeMap, aKey: NodeKey, bKey: NodeKey, h: Metric)
    requires aKey in nodes.vals && bKey in nodes.vals
    ensures Extends(nodes, InsertEdge(nodes, aKey, bKey, h))
    ensures Lowers(nodes, InsertEdge(nodes, aKey, bKey, h))
  {
    InsertEdgeExtends(nodes, aKey, bKey, h);
  }

  /** The key `processLine` gives to the i-th vertex: GeoJSON stores [lng, lat], keys are lat first. */
  function VertexKey(coords: seq<Position>, i: nat): NodeKey
    requires i < |coords|
  {
    NodeKeyOf(coords[i].lat, coords[i].lng)
  }

  /** One pass of the `processLine` loop: add vertex i and link it to the previous vertex, if any. */
  function InsertVertex(nodes: NodeMap, coords: seq<Position>, i: nat, prevKey: Option<NodeKey>, h: Metric): (r: NodeMap)
    requires i < |coords|
    requires prevKey.Some? ==> prevKey.value in nodes.vals
    ensures VertexKey(coords, i) in r.vals
    ensures prevKey.Some? ==> prevKey.value in r.vals
  {
    var lng := coords[i].lng;
    var lat := coords[i].lat;
    var key := NodeKeyOf(lat, lng);
    var n1 := InsertNode(nodes, lat, lng);
    if prevKey.Some? then InsertEdge(n1, prevKey.value, key, h) else n1
  }

  lemma InsertVertexExtends(nodes: NodeMap, coords: seq<Position>, i: nat, prevKey: Option<NodeKey>, h: Metric)
    requires i < |coords|
    requires prevKey.Some? ==> prevKey.value in nodes.vals
    ensures Extends(nodes, InsertVertex(nodes, coords, i, prevKey, h))
    ensures NodesWF(nodes) ==> NodesWF(InsertVertex(nodes, coords, i, prevKey, h))
  {
    var n1 := InsertNode(nodes, coords[i].lat, coords[i].lng);
    InsertNodeExtends(nodes, coords[i].lat, coords[i].lng);
    if prevKey.Some? {
      InsertEdgeExtends(n1, prevKey.value, VertexKey(coords, i), h);
    }
  }

  lemma InsertVertexLowers(nodes: NodeMap, coords: seq<Position>, i: nat, prevKey: Option<NodeKey>, h: Metric)
    requires i < |coords|
    requires prevKey.Some? ==> prevKey.value in nodes.vals
    ensures Extends(nodes, InsertVertex(nodes, coords, i, prevKey, h))
    ensures Lowers(nodes, InsertVertex(nodes, coords, i, prevKey, h))
  {
    InsertVertexExtends(nodes, coords, i, prevKey, h);
    var n1 := InsertNode(nodes, coords[i].lat, coords[i].lng);
    if prevKey.Some? {
      InsertEdgeLowers(n1, prevKey.value, VertexKey(coords, i), h);
    }
  }

  /** The loop of `processLine` from vertex i on, `prevKey` being the previous vertex's key. */
  function InsertVertices(nodes: NodeMap, coords: seq<Position>, i: nat, prevKey: Option<NodeKey>, h: Metric): NodeMap
    requires i <= |coords|
    requires prevKey.Some? ==> prevKey.value in nodes.vals
    decreases |coords| - i
  {
    if i == |coords| then nodes
    else InsertVertices(InsertVertex(nodes, coords, i, prevKey, h), coords, i + 1, Some(VertexKey(coords, i)), h)
  }

  lemma {:induction false} InsertVerticesExtends(nodes: NodeMap, coords: seq<Position>, i: nat, prevKey: Option<NodeKey>, h: Metric)
    requires i < |coords|
    requires prevKey.Some? ==> prevKey.value in nodes.vals
    ensures Extends(nodes, InsertVertices(nodes, coords, i, prevKey, h))
    ensures NodesWF(nodes) ==> NodesWF(InsertVertices(nodes, coords, i, prevKey, h))
    decreases |coords| - i
  {
    var n1 := InsertVertex(nodes, coords, i, prevKey, h);
    var r := InsertVertices(n1, coords, i + 1, Some(VertexKey(coords, i)), h);
    assert r == InsertVertices(nodes, coords, i, prevKey, h);
    InsertVertexExtends(nodes, coords, i, prevKey, h);
    if i + 1 < |coords| {
      InsertVerticesExtends(n1, coords, i + 1, Some(VertexKey(coords, i)), h);
      ExtendsTransitive(nodes, n1, r);
    }
  }

  lemma {:induction false} InsertVerticesLowers(nodes: NodeMap, coords: seq<Position>, i: nat, prevKey: Option<NodeKey>, h: Metric)
    requires i < |coords|
    requires prevKey.Some? ==> prevKey.value in nodes.vals
    ensures Extends(nodes, InsertVertices(nodes, coords, i, prevKey, h))
    ensures Lowers(nodes, InsertVertices(nodes, coords, i, prevKey, h))
    decreases |coords| - i
  {
    var n1 := InsertVertex(nodes, coords, i, prevKey, h);
    var r := InsertVertices(n1, coords, i + 1, Some(VertexKey(coords, i)), h);
    assert r == InsertVertices(nodes, coords, i, prevKey, h);
    InsertVertexLowers(nodes, coords, i, prevKey, h);
    if i + 1 < |coords| {
      InsertVerticesLowers(n1, coords, i + 1, Some(VertexKey(coords, i)), h);
      ExtendsTransitive(nodes, n1, r);
    }
  }

  /** `processLine(coords)`: lines with fewer than two vertices are ignored. */
  function InsertLine(nodes: NodeMap, coords: seq<Position>, h: Metric): (r: NodeMap)
    ensures |coords| < 2 ==> r == nodes
  {
    if |coords| < 2 then nodes else InsertVertices(nodes, coords, 0, None, h)
  }

  lemma InsertLineExtends(nodes: NodeMap, coords: seq<Position>, h: Metric)
    ensures Extends(nodes, InsertLine(nodes, coords, h))
    ensures NodesWF(nodes) ==> NodesWF(InsertLine(nodes, coords, h))
  {
    if |coords| >= 2 { InsertVerticesExtends(nodes, coords, 0, None, h); }
  }

  /** `for (const part of g.coordinates) processLine(part)`, from part i on. */
  function InsertLines(nodes: NodeMap, lines: seq<seq<Position>>, i: nat, h: Metric): NodeMap
    requires i <= |lines|
    decreases |lines| - i
  {
    if i == |lines| then nodes
    else InsertLines(InsertLine(nodes, lines[i], h), lines, i + 1, h)
  }

  lemma {:induction false} InsertLinesExtends(nodes: NodeMap, lines: seq<seq<Position>>, i: nat, h: Metric)
    requires i <= |lines|
    ensures Extends(nodes, InsertLines(nodes, lines, i, h))
    ensures NodesWF(nodes) ==> NodesWF(InsertLines(nodes, lines, i, h))
    decreases |lines| - i
  {
    if i < |lines| {
      var n1 := InsertLine(nodes, lines[i], h);
      InsertLineExtends(nodes, lines[i], h);
      InsertLinesExtends(n1, lines, i + 1, h);
      ExtendsTransitive(nodes, n1, InsertLines(n1, lines, i + 1, h));
    }
  }

  /** The `forEach` callback: filter, add the geometry, keep the feature for display. */
  function InsertFeature(g: Graph, feat: Option<Feature>, h: Metric): (r: Graph)
    ensures !ShouldUseFeature(feat) ==> r == g
    ensures ShouldUseFeature(feat) ==> r.displayFeatures == g.displayFeatures + [feat.value]
  {
    if !ShouldUseFeature(feat) then g
    else
      match feat.value.geometry.value
      case LineString(coords) =>
        Graph(InsertLine(g.nodes, coords, h), g.displayFeatures + [feat.value])
      case MultiLineString(lines) =>
        Graph(InsertLines(g.nodes, lines, 0, h), g.displayFeatures + [feat.value])
  }

  lemma InsertFeatureExtends(g: Graph, feat: Option<Feature>, h: Metric)
    ensures Extends(g.nodes, InsertFeature(g, feat, h).nodes)
    ensures NodesWF(g.nodes) ==> NodesWF(InsertFeature(g, feat, h).nodes)
  {
    if ShouldUseFeature(feat) {
      match feat.value.geometry.value
      case LineString(coords) => InsertLineExtends(g.nodes, coords, h);
      case MultiLineString(lines) => InsertLinesExtends(g.nodes, lines, 0, h);
    }
  }

  /** `(geojson.features || []).forEach(...)` from feature i on. */
  function InsertFeatures(g: Graph, features: seq<Option<Feature>>, i: nat, h: Metric): Graph
    requires i <= |features|
    decreases |features| - i
  {
    if i == |features| then g
    else InsertFeatures(InsertFeature(g, features[i], h), features, i + 1, h)
  }

  lemma {:induction false} InsertFeaturesExtends(g: Graph, features: seq<Option<Feature>>, i: nat, h: Metric)
    requires i <= |features|
    ensures Extends(g.nodes, InsertFeatures(g, features, i, h).nodes)
    ensures NodesWF(g.nodes) ==> NodesWF(InsertFeatures(g, features, i, h).nodes)
    decreases |features| - i
  {
    if i < |features| {
      var g1 := InsertFeature(g, features[i], h);
      InsertFeatureExtends(g, features[i], h);
      InsertFeaturesExtends(g1, features, i + 1, h);
      ExtendsTransitive(g.nodes, g1.nodes, InsertFeatures(g1, features, i + 1, h).nodes);
    }
  }

  function EmptyGraph(): Graph {
    Graph(Empty(), [])
  }

  /** `_buildGraphFromGeoJSON`, given the feature list and the distance function. */
  function Build(features: seq<Option<Feature>>, h: Metric): Graph {
    InsertFeatures(EmptyGraph(), features, 0, h)
  }

  /** Every `Map` the build creates is well-formed. */
  lemma BuildWF(features: seq<Option<Feature>>, h: Metric)
    ensures NodesWF(Build(features, h).nodes)
  {
    InsertFeaturesExtends(EmptyGraph(), features, 0, h);
  }
}
