/**
 * `_findNearestNode`: the vertex closest to a clicked point, by the distance
 * function, scanning the vertices in the order the builder first met them.
 */
module Nearest {
  import opened Wrappers
  import opened OrderedMaps
  import opened PathGraph
  import opened Geo
  import opened RouteSearch

  /** `NearestNodeResult`: the vertex, its coordinates and its distance from the point. */
  datatype NearestNodeResult = NearestNodeResult(key: NodeKey, lat: real, lng: real, d: real)

  /** `_haversine(lat, lng, n.lat, n.lng)` for the vertex n at key k. */
  function DistanceTo(h: Metric, lat: real, lng: real, nodes: NodeMap, k: NodeKey): real
    requires k in nodes.vals
  {
    h(lat, lng, nodes.vals[k].lat, nodes.vals[k].lng)
  }

  /** The result describes vertex `r.key` as it is in the graph. */
  ghost predicate Describes(h: Metric, lat: real, lng: real, nodes: NodeMap, r: NearestNodeResult) {
    && r.key in nodes.vals
    && r.lat == nodes.vals[r.key].lat && r.lng == nodes.vals[r.key].lng
    && r.d == DistanceTo(h, lat, lng, nodes, r.key)
  }

  /**
   * `_findNearestNode(lat, lng, graph)`: null for a graph without vertices;
   * otherwise a vertex at the least distance, the first such in iteration
   * order since only a strictly smaller distance replaces the best so far.
   */
  method FindNearestNode(lat: real, lng: real, graph: Graph, h: Metric) returns (best: Option<NearestNodeResult>)
    requires WellFormed(graph.nodes)
    ensures best.None? <==> graph.nodes.keys == []
    ensures best.Some? ==> Describes(h, lat, lng, graph.nodes, best.value)
    ensures best.Some? ==> forall k :: k in graph.nodes.vals ==> best.value.d <= DistanceTo(h, lat, lng, graph.nodes, k)
    ensures best.Some? ==> exists i :: (0 <= i < |graph.nodes.keys| && graph.nodes.keys[i] == best.value.key &&
              forall j :: 0 <= j < i ==> best.value.d < DistanceTo(h, lat, lng, graph.nodes, graph.nodes.keys[j]))
  {
    var nodes := graph.nodes;
    best := None;
    var bestD := Inf;
    for i := 0 to |nodes.keys|
      invariant best.None? <==> i == 0
      invariant bestD == if best.None? then Inf else Fin(best.value.d)
      invariant best.Some? ==> Describes(h, lat, lng, nodes, best.value)
      invariant best.Some? ==> forall j :: 0 <= j < i ==> best.value.d <= DistanceTo(h, lat, lng, nodes, nodes.keys[j])
      invariant best.Some? ==> exists m :: (0 <= m < i && nodes.keys[m] == best.value.key &&
                  forall j :: 0 <= j < m ==> best.value.d < DistanceTo(h, lat, lng, nodes, nodes.keys[j]))
    {
      var k := nodes.keys[i];
      var n := nodes.vals[k];
      var d := h(lat, lng, n.lat, n.lng);
      if Below(Fin(d), bestD) {
        bestD := Fin(d);
        best := Some(NearestNodeResult(k, n.lat, n.lng, d));
      }
    }
  }
}
