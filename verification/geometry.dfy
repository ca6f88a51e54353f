/** Points, the abstract travel metric, and the length of a path under it. */
module Geometry {

  /** A stop location in degrees, carried by the routing code as a (lat, long) pair. */
  datatype Point = Point(lat: real, long: real)

  /** The distance in kilometres between two points. The routing code uses the
      haversine great-circle distance; here it is any function of this type, and
      the properties haversine has are stated separately and assumed only where
      a result depends on them. */
  type Metric = (Point, Point) -> real

  ghost predicate NonNegative(dist: Metric) {
    forall a, b :: dist(a, b) >= 0.0
  }

  /** Identical points are 0 km apart: with equal coordinates both haversine
      differences vanish, so the central angle is 0. */
  ghost predicate ZeroOnSelf(dist: Metric) {
    forall a :: dist(a, a) == 0.0
  }

  function Last<T>(s: seq<T>): T
    requires |s| > 0
  {
    s[|s| - 1]
  }

  /** The set of elements of a sequence (what Python's `set(...)` keeps of a list). */
  function Elems<T>(s: seq<T>): set<T> {
    set x | x in s
  }

  lemma ElemsConcat<T>(a: seq<T>, b: seq<T>)
    ensures Elems(a + b) == Elems(a) + Elems(b)
  {
  }

  /** The distance travelled along `path`: the sum of `dist` over its consecutive pairs. */
  function PathLength(path: seq<Point>, dist: Metric): real
    decreases |path|
  {
    if |path| < 2 then 0.0
    else PathLength(path[..|path| - 1], dist) + dist(path[|path| - 2], path[|path| - 1])
  }

  /** Extending a path by one point adds exactly the leg to that point. */
  lemma PathLengthAppend(path: seq<Point>, q: Point, dist: Metric)
    requires |path| >= 1
    ensures PathLength(path + [q], dist) == PathLength(path, dist) + dist(Last(path), q)
  {
  }

  /** Under a non-negative metric every path has non-negative length. */
  lemma {:induction false} PathLengthNonNegative(path: seq<Point>, dist: Metric)
    requires NonNegative(dist)
    ensures PathLength(path, dist) >= 0.0
    decreases |path|
  {
    if |path| >= 2 {
      PathLengthNonNegative(path[..|path| - 1], dist);
    }
  }
}
