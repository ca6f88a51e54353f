/** Fleet assembly (`optimize_routes`): drop the stops without coordinates, split
    the rest by cluster label, and build one greedy tour per non-empty cluster. */
module Fleet {
  import opened Wrappers
  import opened Geometry
  import opened Tour

  /** A row of the location table; either coordinate may be missing. */
  datatype Stop = Stop(lat: Option<real>, long: Option<real>)

  /** Why fleet planning produced no routes at all. */
  datatype RouteError =
    | InvalidClusterCount  // the clustering library refuses fewer than one cluster

  predicate HasLocation(s: Stop) {
    s.lat.Some? && s.long.Some?
  }

  function LocationOf(s: Stop): Point
    requires HasLocation(s)
  {
    Point(s.lat.value, s.long.value)
  }

  /** The stops that have both coordinates, as points, in input order. */
  function ValidLocations(stops: seq<Stop>): (r: seq<Point>)
    ensures |r| <= |stops|
    ensures forall s :: s in stops && HasLocation(s) ==> LocationOf(s) in r
    ensures forall p :: p in r ==> exists s :: s in stops && HasLocation(s) && LocationOf(s) == p
    ensures (forall s :: s in stops ==> HasLocation(s)) ==> |r| == |stops|
    decreases |stops|
  {
    if stops == [] then []
    else if HasLocation(stops[0]) then [LocationOf(stops[0])] + ValidLocations(stops[1..])
    else ValidLocations(stops[1..])
  }

  /** What the clustering step is assumed to return: one label in `[0, n)` per point. */
  predicate IsLabelling(labels: seq<int>, count: int, n: int) {
    |labels| == count && forall j :: 0 <= j < |labels| ==> 0 <= labels[j] < n
  }

  /** The points labelled `i`, in input order. */
  function Cluster(pts: seq<Point>, labels: seq<int>, i: int): seq<Point>
    requires |labels| == |pts|
    decreases |pts|
  {
    if pts == [] then []
    else (if labels[0] == i then [pts[0]] else []) + Cluster(pts[1..], labels[1..], i)
  }

  /** Cluster `i` holds the point of every stop labelled `i`, and only such points. */
  lemma {:induction false} ClusterMembers(pts: seq<Point>, labels: seq<int>, i: int)
    requires |labels| == |pts|
    ensures forall j :: 0 <= j < |pts| && labels[j] == i ==> pts[j] in Cluster(pts, labels, i)
    ensures forall q :: q in Cluster(pts, labels, i) ==>
              exists j :: 0 <= j < |pts| && labels[j] == i && pts[j] == q
    decreases |pts|
  {
    if pts != [] {
      var head := if labels[0] == i then [pts[0]] else [];
      var rest := Cluster(pts[1..], labels[1..], i);
      ClusterMembers(pts[1..], labels[1..], i);
      assert Cluster(pts, labels, i) == head + rest;
      forall j | 0 <= j < |pts| && labels[j] == i
        ensures pts[j] in Cluster(pts, labels, i)
      {
        if j > 0 {
          assert pts[1..][j - 1] == pts[j] && labels[1..][j - 1] == labels[j];
        }
      }
      forall q | q in Cluster(pts, labels, i)
        ensures exists j :: 0 <= j < |pts| && labels[j] == i && pts[j] == q
      {
        if q in rest {
          var j :| 0 <= j < |pts| - 1 && labels[1..][j] == i && pts[1..][j] == q;
          assert labels[j + 1] == i && pts[j + 1] == q;
        } else {
          assert labels[0] == i && pts[0] == q;
        }
      }
    }
  }

  /** A cluster's first point is its first member in input order. */
  lemma {:induction false} ClusterStartsAtFirstMember(pts: seq<Point>, labels: seq<int>, i: int, j: int)
    requires |labels| == |pts|
    requires 0 <= j < |pts| && labels[j] == i
    requires forall k :: 0 <= k < j ==> labels[k] != i
    ensures Cluster(pts, labels, i) != []
    ensures Cluster(pts, labels, i)[0] == pts[j]
    decreases j
  {
    if j > 0 {
      ClusterStartsAtFirstMember(pts[1..], labels[1..], i, j - 1);
    }
  }

  /** With a single label in use, the cluster is the whole input, in order. */
  lemma {:induction false} SingleClusterIsEverything(pts: seq<Point>, labels: seq<int>, i: int)
    requires |labels| == |pts|
    requires forall j :: 0 <= j < |labels| ==> labels[j] == i
    ensures Cluster(pts, labels, i) == pts
    decreases |pts|
  {
    if pts != [] {
      SingleClusterIsEverything(pts[1..], labels[1..], i);
      assert pts == [pts[0]] + pts[1..];
    }
  }

  /** The number of times `x` occurs in `s`. */
  function Count(x: Point, s: seq<Point>): nat
    decreases |s|
  {
    if s == [] then 0 else (if s[0] == x then 1 else 0) + Count(x, s[1..])
  }

  lemma {:induction false} CountConcat(x: Point, a: seq<Point>, b: seq<Point>)
    ensures Count(x, a + b) == Count(x, a) + Count(x, b)
    decreases |a|
  {
    if a == [] {
      assert a + b == b;
    } else {
      assert (a + b)[1..] == a[1..] + b;
      CountConcat(x, a[1..], b);
    }
  }

  /** How often `x` occurs across clusters `0 .. n-1`. */
  function Occurrences(x: Point, pts: seq<Point>, labels: seq<int>, n: nat): nat
    requires |labels| == |pts|
  {
    if n == 0 then 0
    else Occurrences(x, pts, labels, n - 1) + Count(x, Cluster(pts, labels, n - 1))
  }

  /** Counting the first point of a cluster separately from the rest. */
  lemma ClusterCount(x: Point, pts: seq<Point>, labels: seq<int>, i: int)
    requires |labels| == |pts| > 0
    ensures Count(x, Cluster(pts, labels, i))
         == (if labels[0] == i && pts[0] == x then 1 else 0) + Count(x, Cluster(pts[1..], labels[1..], i))
  {
    var head := if labels[0] == i then [pts[0]] else [];
    assert Cluster(pts, labels, i) == head + Cluster(pts[1..], labels[1..], i);
    CountConcat(x, head, Cluster(pts[1..], labels[1..], i));
  }

  /** Peeling off the first point: it adds one occurrence when it is `x` and its
      label is in range. */
  lemma {:induction false} OccurrencesSplit(x: Point, pts: seq<Point>, labels: seq<int>, n: nat)
    requires |labels| == |pts| > 0
    ensures Occurrences(x, pts, labels, n)
         == Occurrences(x, pts[1..], labels[1..], n) + (if 0 <= labels[0] < n && pts[0] == x then 1 else 0)
  {
    if n > 0 {
      OccurrencesSplit(x, pts, labels, n - 1);
      ClusterCount(x, pts, labels, n - 1);
    }
  }

  lemma {:induction false} OccurrencesOfNothing(x: Point, n: nat)
    ensures Occurrences(x, [], [], n) == 0
  {
    if n > 0 {
      OccurrencesOfNothing(x, n - 1);
    }
  }

  lemma LabellingTail(labels: seq<int>, count: int, n: int)
    requires IsLabelling(labels, count, n) && count > 0
    ensures IsLabelling(labels[1..], count - 1, n)
  {
  }

  /** The clusters partition the points: across all `n` clusters every point
      occurs exactly as often as it occurs in the input. */
  lemma {:induction false} ClustersPartition(x: Point, pts: seq<Point>, labels: seq<int>, n: nat)
    requires IsLabelling(labels, |pts|, n)
    ensures Occurrences(x, pts, labels, n) == Count(x, pts)
    decreases |pts|
  {
    if pts == [] {
      OccurrencesOfNothing(x, n);
    } else {
      OccurrencesSplit(x, pts, labels, n);
      LabellingTail(labels, |pts|, n);
      ClustersPartition(x, pts[1..], labels[1..], n);
    }
  }

  /** The shape of a successful result: a route for exactly the non-empty clusters,
      each the greedy tour of that cluster's points. */
  ghost predicate RoutesFromClusters(pts: seq<Point>, labels: seq<int>, n: int,
                                     routes: map<int, seq<Point>>, dist: Metric)
    requires |labels| == |pts|
  {
    && routes.Keys == (set i | 0 <= i < n && Cluster(pts, labels, i) != [])
    && forall i :: i in routes ==> IsGreedyTour(Cluster(pts, labels, i), routes[i], dist)
  }

  /** Vehicle `i`'s route begins and ends at the first stop labelled `i` in input
      order: the greedy tour starts from its cluster's first point. */
  lemma RouteStartsAtFirstMember(pts: seq<Point>, labels: seq<int>, n: int,
                                 routes: map<int, seq<Point>>, dist: Metric, i: int, j: int)
    requires IsLabelling(labels, |pts|, n)
    requires RoutesFromClusters(pts, labels, n, routes, dist)
    requires 0 <= j < |pts| && labels[j] == i
    requires forall k :: 0 <= k < j ==> labels[k] != i
    ensures i in routes && routes[i][0] == pts[j] && Last(routes[i]) == pts[j]
  {
    ClusterStartsAtFirstMember(pts, labels, i, j);
  }

  /** Plans one closed route per vehicle. `labels` stands for the cluster index the
      clustering step gives to each located stop. */
  method OptimizeRoutes(stops: seq<Stop>, nVehicles: int, labels: seq<int>, dist: Metric)
    returns (r: Result<map<int, seq<Point>>, RouteError>)
    requires |ValidLocations(stops)| >= nVehicles >= 1 ==> IsLabelling(labels, |ValidLocations(stops)|, nVehicles)
    ensures |ValidLocations(stops)| < nVehicles ==> r == Success(map[])
    ensures nVehicles < 1 ==> r == Failure(InvalidClusterCount)
    ensures |ValidLocations(stops)| >= nVehicles >= 1 ==>
              r.Success? && RoutesFromClusters(ValidLocations(stops), labels, nVehicles, r.value, dist)
  {
    var valid := ValidLocations(stops);
    if |valid| < nVehicles {
      return Success(map[]);
    }
    if nVehicles < 1 {
      return Failure(InvalidClusterCount);
    }
    var routes: map<int, seq<Point>> := map[];
    var i := 0;
    while i < nVehicles
      invariant 0 <= i <= nVehicles
      invariant routes.Keys == (set j | 0 <= j < i && Cluster(valid, labels, j) != [])
      invariant forall j :: j in routes ==> IsGreedyTour(Cluster(valid, labels, j), routes[j], dist)
    {
      var clusterPoints := Cluster(valid, labels, i);
      if clusterPoints != [] {
        var orderedPath, _ := SolveTspGreedy(clusterPoints, dist);
        routes := routes[i := orderedPath];
      }
      i := i + 1;
    }
    return Success(routes);
  }

  /** Every located stop is on the route of the vehicle its label names, and every
      point on a route is a stop carrying that route's label. */
  lemma EveryStopRouted(pts: seq<Point>, labels: seq<int>, n: int,
                        routes: map<int, seq<Point>>, dist: Metric)
    requires IsLabelling(labels, |pts|, n)
    requires RoutesFromClusters(pts, labels, n, routes, dist)
    ensures forall j :: 0 <= j < |pts| ==> labels[j] in routes && pts[j] in routes[labels[j]]
    ensures forall i, q :: i in routes && q in routes[i] ==>
              exists j :: 0 <= j < |pts| && labels[j] == i && pts[j] == q
  {
    forall j | 0 <= j < |pts|
      ensures labels[j] in routes && pts[j] in routes[labels[j]]
    {
      var c := Cluster(pts, labels, labels[j]);
      ClusterMembers(pts, labels, labels[j]);
      assert pts[j] in c;
      assert labels[j] in routes;
      TourCoversInput(c, routes[labels[j]], dist);
      assert pts[j] in Elems(c);
    }
    forall i, q | i in routes && q in routes[i]
      ensures exists j :: 0 <= j < |pts| && labels[j] == i && pts[j] == q
    {
      var c := Cluster(pts, labels, i);
      ClusterMembers(pts, labels, i);
      TourCoversInput(c, routes[i], dist);
      assert q in Elems(routes[i]);
    }
  }

  /** When equal coordinates always get equal labels, as they do from a clustering
      that assigns each point to its nearest centre, each located stop lies on
      exactly one route. */
  lemma EachStopOnExactlyOneRoute(pts: seq<Point>, labels: seq<int>, n: int,
                                  routes: map<int, seq<Point>>, dist: Metric)
    requires IsLabelling(labels, |pts|, n)
    requires RoutesFromClusters(pts, labels, n, routes, dist)
    requires forall j, k :: 0 <= j < |pts| && 0 <= k < |pts| && pts[j] == pts[k] ==> labels[j] == labels[k]
    ensures forall j :: 0 <= j < |pts| ==> labels[j] in routes && pts[j] in routes[labels[j]]
    ensures forall j, i :: 0 <= j < |pts| && i in routes && pts[j] in routes[i] ==> i == labels[j]
  {
    EveryStopRouted(pts, labels, n, routes, dist);
  }
}
