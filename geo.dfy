/**
 * Node identity.  The builder keys every vertex by the text
 * `${lat.toFixed(6)},${lng.toFixed(6)}`, so two vertices become one node
 * exactly when both coordinates print the same with six decimals.
 */
module Geo {

  /**
   * The decimal text `x.toFixed(6)`: a sign and a count of millionths.
   * `Fixed6(b, u)` prints as "-" (when b) followed by u / 10^6 with six
   * decimals; distinct values print as distinct texts, so this datatype
   * stands for the text itself.
   */
  datatype Fixed6 = Fixed6(negative: bool, units: nat)

  const Million: real := 1000000.0

  /**
   * Number.prototype.toFixed(6) on a finite `x` below 10^21: the sign is taken
   * off first (`x < 0`, so -0 prints without a sign), then the magnitude is
   * rounded to the nearest millionth, a tie going to the larger count.
   */
  function ToFixed6(x: real): (f: Fixed6)
    ensures f.negative <==> x < 0.0
    ensures var y := if x < 0.0 then -x else x;
            f.units as real - 0.5 <= y * Million < f.units as real + 0.5
  {
    var y := if x < 0.0 then -x else x;
    var n := (y * Million + 0.5).Floor;
    Fixed6(x < 0.0, n)
  }

  /** The number the text denotes. */
  function Value(f: Fixed6): real {
    (if f.negative then -1.0 else 1.0) * (f.units as real) / Million
  }

  datatype NodeKey = NodeKey(lat: Fixed6, lng: Fixed6)

  /** `nodeKey(lat, lng)`. */
  function NodeKeyOf(lat: real, lng: real): NodeKey {
    NodeKey(ToFixed6(lat), ToFixed6(lng))
  }

  /** The printed value is within half a millionth of the coordinate. */
  lemma ToFixed6Error(x: real)
    ensures -0.5 <= x * Million - Value(ToFixed6(x)) * Million <= 0.5
  {
    var f := ToFixed6(x);
    var y := if x < 0.0 then -x else x;
    assert Value(f) * Million == (if f.negative then -1.0 else 1.0) * (f.units as real);
  }

  /**
   * Vertices that collapse into one node lie less than a millionth of a degree
   * apart on each axis (about 0.11 m of latitude).
   */
  lemma {:induction false} SameKeyClose(lat1: real, lng1: real, lat2: real, lng2: real)
    requires NodeKeyOf(lat1, lng1) == NodeKeyOf(lat2, lng2)
    ensures -1.0 < (lat1 - lat2) * Million < 1.0
    ensures -1.0 < (lng1 - lng2) * Million < 1.0
  {
    SameTextClose(lat1, lat2);
    SameTextClose(lng1, lng2);
  }

  lemma SameTextClose(x1: real, x2: real)
    requires ToFixed6(x1) == ToFixed6(x2)
    ensures -1.0 < (x1 - x2) * Million < 1.0
  {
    var f := ToFixed6(x1);
    var y1 := if x1 < 0.0 then -x1 else x1;
    var y2 := if x2 < 0.0 then -x2 else x2;
    assert f.units as real - 0.5 <= y1 * Million < f.units as real + 0.5;
    assert f.units as real - 0.5 <= y2 * Million < f.units as real + 0.5;
  }

  /** The vertex coordinates are (lat1, lon1) and (lat2, lon2), in degrees; result in metres. */
  type Metric = (real, real, real, real) -> real

  /**
   * What the route engine relies on from `_haversine`: distances are never
   * negative and do not depend on the direction of travel.
   */
  ghost predicate IsMetric(h: Metric) {
    forall lat1, lng1, lat2, lng2 ::
      0.0 <= h(lat1, lng1, lat2, lng2) && h(lat1, lng1, lat2, lng2) == h(lat2, lng2, lat1, lng1)
  }
}
