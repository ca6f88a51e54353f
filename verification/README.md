# Fleet route optimisation — a Dafny model

This project models the routing core of a vehicle-telemetry service
(`src/route_optimization.py`). That core has two parts:

- **the greedy tour builder** (`solve_tsp_greedy`). It starts at the first
  point and keeps a set of unvisited points. It repeatedly moves to the nearest
  unvisited point and adds that leg to a running total. Finally it returns to
  the start, adding the closing leg.
- **fleet assembly** (`optimize_routes`). It drops stops that lack a latitude or
  longitude. It returns an empty mapping when fewer located stops remain than
  vehicles. Otherwise it gives every stop a cluster index in `0 .. n-1`. It then
  gathers each cluster's points in input order, skips empty clusters, and maps
  each remaining cluster index to the greedy tour of its points.

Modules:

- `Wrappers` (`wrappers.dfy`): `Option` for missing table cells and `Result` for
  refused requests.
- `Geometry` (`geometry.dfy`): `Point`, the travel metric `Metric`, and
  `PathLength`, the sum of the metric over consecutive points.
- `Tour` (`tour.dfy`): the builder as a method (`SolveTspGreedy`), with its inner
  scan as `Nearest`. It is specified by an independent predicate, `IsGreedyTour`,
  and that predicate has lemmas of its own.
- `Fleet` (`fleet.dfy`): location filtering, clusters, the partition property
  (stated with `Count`, the number of occurrences of a point in a sequence),
  and `OptimizeRoutes`.

The haversine distance is floating-point trigonometry, so here it is an
arbitrary `Metric` parameter. The properties of haversine that some results
depend on are the ghost predicates `NonNegative` and `ZeroOnSelf`. Only the
lemmas that use them require them. The k-means step is a foreign,
randomised optimiser, so here it is a `labels` parameter. Whenever the source
would run k-means, `labels` must be a total labelling with every label in
`[0, n)`.

Python set iteration order is unspecified. The source keeps the first point
with strictly smaller distance, so a tie goes to whichever minimal point the
scan meets first. `Nearest` takes points from the set in an arbitrary order.
Its contract, and the method contracts built on it, promise only "some point
at minimal distance". `GreedyTourUnique` shows that ties are the only freedom
this leaves.

Edge cases, as the code handles them:

- `optimize_routes` signals too few located stops by returning `{}`. It does
  not raise an error.
- Empty clusters are left out of the result. They are not given empty tours.
- Each tour starts at the first point of its cluster in input order.
- A tie goes to whichever minimal point the set scan meets first. The model
  allows any minimal point.
- A vehicle count below one reaches the clustering library, which raises an
  error. This is `Failure(InvalidClusterCount)`.

## Model

| member | source | states |
|---|---|---|
| `Tour.Nearest` | src/route_optimization.py:37-46 | The scan returns a point of the non-empty unvisited set together with its distance from the current position. No unvisited point is closer. |
| `Tour.SolveTspGreedy` | src/route_optimization.py:21-59 | Empty input gives an empty path and total 0. Otherwise the path starts and ends at `points[0]`. Its interior holds each distinct element of `points[1:]` exactly once and nothing else. Each leg before the closing one goes to a nearest point still unvisited at that step. The total equals the summed length of the returned path, including the closing leg. |
| `Tour.WalkGreedily` | src/route_optimization.py:31-49 | The loop produces a walk that starts at `points[0]` and visits every distinct point of `points[1:]` once. Each step goes to a nearest point still unvisited. The running total equals the walk's length. |
| `Tour.ExtendGreedyWalk` | src/route_optimization.py:46-48 | Moving to a nearest unvisited point and removing it from the unvisited set keeps the walk distinct and greedy. The visited set grows by exactly that point. |
| `Tour.CloseGreedyWalk` | src/route_optimization.py:55-57 | Appending the start point to close a greedy walk keeps every earlier leg a nearest-unvisited choice. Only the closing leg is exempt from the greedy rule. |
| `Geometry.PathLengthNonNegative` | src/route_optimization.py:49-56 | Under a non-negative distance, every path length is at least 0. This includes the total the builder returns. |
| `Tour.TourSize` | src/route_optimization.py:31-57 | A greedy tour has exactly two entries more than the number of distinct points in `points[1:]`. |
| `Tour.TourCoversInput` | src/route_optimization.py:31-57 | The points on a greedy tour are exactly the input points. |
| `Tour.SinglePointTour` | src/route_optimization.py:31-57 | A one-point input `[p]` gives the tour `[p, p]` of length `dist(p, p)`. That length is 0 when identical points are 0 apart, as with haversine. |
| `Tour.GreedyTourUnique` | src/route_optimization.py:40-46 | When no input point is equally far from two different input points, any two greedy tours of the same input are equal. |
| `Fleet.ValidLocations` | src/route_optimization.py:75 | Every stop with both coordinates contributes its point, and every point kept comes from such a stop. The result is never longer than the input. When no coordinate is missing, nothing is dropped. |
| `Fleet.ClusterMembers` | src/route_optimization.py:91-92 | Cluster `i` contains the point of every stop labelled `i`. Each of its points comes from a stop labelled `i`. |
| `Fleet.ClusterStartsAtFirstMember` | src/route_optimization.py:91-92 | Cluster `i` is non-empty and starts with the first stop labelled `i` in input order. |
| `Fleet.RouteStartsAtFirstMember` | src/route_optimization.py:90-99 | Vehicle `i` has a route, and that route begins and ends at the first stop labelled `i` in input order. |
| `Fleet.SingleClusterIsEverything` | src/route_optimization.py:90-92 | If every stop carries label `i`, cluster `i` is the whole input in order. |
| `Fleet.ClustersPartition` | src/route_optimization.py:83-92 | For an in-range labelling, every point occurs across the `n` clusters exactly as many times as it occurs among the located stops. No stop is lost or duplicated by the split. |
| `Fleet.OptimizeRoutes` | src/route_optimization.py:61-116 | Fewer located stops than vehicles gives an empty mapping. A vehicle count below 1 is refused. Otherwise the keys are exactly the indices in `0 .. n-1` with a non-empty cluster. Each value is a greedy tour of that cluster's points, taken in input order. |
| `Fleet.EveryStopRouted` | src/route_optimization.py:90-99 | Every located stop lies on the route of the vehicle named by its label. Every point on route `i` belongs to a stop labelled `i`. |
| `Fleet.EachStopOnExactlyOneRoute` | src/route_optimization.py:82-99 | Suppose equal coordinates always get equal labels, as they do under nearest-centre assignment. Then every located stop lies on exactly one route: the route of its own label. |

## Left out

- Haversine trigonometry (`src/route_optimization.py:7-19`): the distance is
  the abstract `Metric`. The triangle inequality is not stated.
- Floating-point arithmetic: distances and totals are exact reals, so rounding
  in the running sum is not modelled. The `float('inf')` starting minimum is
  the `None` state of `Nearest`. A NaN distance cannot occur.
- k-means clustering (`src/route_optimization.py:82-83`): it is the `labels`
  parameter. Cluster quality, the random seed and `n_init` are not modelled.
- Plotting, `print`, `savefig` and the `__main__` block
  (`src/route_optimization.py:72, 78, 87-88, 101-114, 118-139`): these are output only.
- The discarded total in `optimize_routes` (`dist` at line 98) is only
  printed, so `OptimizeRoutes` does not return it.
- Fleet.ValidLocations: its contract states membership in both directions and
  the no-loss case. It does not state that input order and multiplicity are
  kept, although the definition keeps both.
- Fleet.EachStopOnExactlyOneRoute: it assumes that equal coordinates get equal
  labels. An arbitrary labelling may put two stops with equal coordinates on
  two routes. `EveryStopRouted` covers that general case.
- Data loading, the maintenance classifier, the HTTP façade and the driver
  scripts are outside the routing core.
- The default `n_vehicles=5` of `optimize_routes`
  (`src/route_optimization.py:61`): `OptimizeRoutes` takes the vehicle count
  as an explicit argument. `src/main.py:58` and `src/api.py:139` pass it
  explicitly. The `__main__` test run (`src/route_optimization.py:137`) uses
  the default.
