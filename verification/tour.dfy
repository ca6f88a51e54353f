/** The greedy nearest-neighbour tour builder (`solve_tsp_greedy`). */
module Tour {
  import opened Wrappers
  import opened Geometry

  predicate Distinct<T(==)>(s: seq<T>) {
    forall i, j :: 0 <= i < j < |s| ==> s[i] != s[j]
  }

  /** The points left to visit when the tour starts: the distinct points after the
      first. The first point itself belongs to it again if it is repeated later. */
  function Pool(points: seq<Point>): set<Point>
    requires |points| > 0
  {
    Elems(points[1..])
  }

  /** The visited points between the start and the closing return. */
  function Interior(tour: seq<Point>): seq<Point>
    requires |tour| >= 2
  {
    tour[1..|tour| - 1]
  }

  /** The tour leaves from `start` and comes back to it. */
  predicate StartsAndEndsAt(tour: seq<Point>, start: Point) {
    |tour| >= 2 && tour[0] == start && Last(tour) == start
  }

  /** Between start and return, every point of `pool` is visited exactly once and
      nothing else is. */
  predicate VisitsEachOnce(tour: seq<Point>, pool: set<Point>) {
    |tour| >= 2 && Distinct(Interior(tour)) && Elems(Interior(tour)) == pool
  }

  /** Leg k of `tour` goes to a point that is, among the points of `pool` not yet
      visited before step k, at minimal distance from the point it leaves. */
  ghost predicate NearestAt(tour: seq<Point>, pool: set<Point>, k: int, dist: Metric)
    requires 1 <= k < |tour|
  {
    forall q :: q in pool && q !in tour[1..k] ==> dist(tour[k - 1], tour[k]) <= dist(tour[k - 1], q)
  }

  /** Every leg before the closing one is a nearest-unvisited choice. */
  ghost predicate ChoosesNearest(tour: seq<Point>, pool: set<Point>, dist: Metric) {
    forall k :: 1 <= k < |tour| - 1 ==> NearestAt(tour, pool, k, dist)
  }

  /** What a result of the greedy builder is, for a non-empty input. */
  ghost predicate IsGreedyTour(points: seq<Point>, tour: seq<Point>, dist: Metric) {
    && |points| > 0
    && StartsAndEndsAt(tour, points[0])
    && VisitsEachOnce(tour, Pool(points))
    && ChoosesNearest(tour, Pool(points), dist)
  }

  /** The inner scan: a point of `unvisited` nearest to `current`, and its distance.
      Ties go to whichever minimal point the scan meets first, and the scan order
      of a set is unspecified, so any minimal point may be returned. */
  method Nearest(current: Point, unvisited: set<Point>, dist: Metric) returns (nearest: Point, minDist: real)
    requires unvisited != {}
    ensures nearest in unvisited
    ensures minDist == dist(current, nearest)
    ensures forall q :: q in unvisited ==> minDist <= dist(current, q)
  {
    // None stands for the initial "no point yet, infinite distance".
    var best: Option<Point> := None;
    minDist := 0.0;
    var remaining := unvisited;
    while remaining != {}
      invariant remaining <= unvisited
      invariant best.None? ==> remaining == unvisited
      invariant best.Some? ==> best.value in unvisited && minDist == dist(current, best.value)
      invariant best.Some? ==> forall q :: q in unvisited - remaining ==> minDist <= dist(current, q)
      decreases |remaining|
    {
      var point :| point in remaining;
      var d := dist(current, point);
      if best.None? || d < minDist {
        best := Some(point);
        minDist := d;
      }
      remaining := remaining - {point};
    }
    nearest := best.value;
  }

  /** Appending a point leaves the earlier legs' nearest-choice facts unchanged. */
  lemma NearestAtAppend(walk: seq<Point>, q: Point, pool: set<Point>, dist: Metric, k: int)
    requires 1 <= k < |walk|
    ensures NearestAt(walk + [q], pool, k, dist) <==> NearestAt(walk, pool, k, dist)
  {
    assert (walk + [q])[1..k] == walk[1..k];
  }

  /** The open walk the loop has built so far: it starts at `points[0]`, then
      visits distinct points of the pool, each a nearest-unvisited choice. */
  ghost predicate GreedyWalk(points: seq<Point>, walk: seq<Point>, dist: Metric) {
    && |points| > 0
    && |walk| >= 1
    && walk[0] == points[0]
    && Elems(walk[1..]) <= Pool(points)
    && Distinct(walk[1..])
    && forall k :: 1 <= k < |walk| ==> NearestAt(walk, Pool(points), k, dist)
  }

  lemma DistinctAppend<T>(s: seq<T>, x: T)
    requires Distinct(s) && x !in s
    ensures Distinct(s + [x])
  {
  }

  /** The leg to `q` is a nearest-unvisited choice when `q` is nearest among the
      pool points the walk has not visited. */
  lemma NearestAtEnd(walk: seq<Point>, q: Point, pool: set<Point>, dist: Metric)
    requires |walk| >= 1
    requires forall r :: r in pool && r !in walk[1..] ==> dist(Last(walk), q) <= dist(Last(walk), r)
    ensures NearestAt(walk + [q], pool, |walk|, dist)
  {
  }

  /** One iteration of the loop: moving to a nearest unvisited point keeps the walk greedy. */
  lemma ExtendGreedyWalk(points: seq<Point>, walk: seq<Point>, q: Point, dist: Metric)
    requires GreedyWalk(points, walk, dist)
    requires q in Pool(points) - Elems(walk[1..])
    requires forall r :: r in Pool(points) - Elems(walk[1..]) ==> dist(Last(walk), q) <= dist(Last(walk), r)
    ensures GreedyWalk(points, walk + [q], dist)
    ensures Elems((walk + [q])[1..]) == Elems(walk[1..]) + {q}
  {
    var pool := Pool(points);
    var w := walk + [q];
    assert w[1..] == walk[1..] + [q];
    ElemsConcat(walk[1..], [q]);
    DistinctAppend(walk[1..], q);
    forall k | 1 <= k < |walk|
      ensures NearestAt(w, pool, k, dist)
    {
      NearestAtAppend(walk, q, pool, dist, k);
    }
    NearestAtEnd(walk, q, pool, dist);
  }

  /** The closing step: returning to the start keeps every earlier leg a
      nearest-unvisited choice. */
  lemma CloseGreedyWalk(points: seq<Point>, walk: seq<Point>, dist: Metric)
    requires GreedyWalk(points, walk, dist)
    ensures ChoosesNearest(walk + [walk[0]], Pool(points), dist)
  {
    forall k | 1 <= k < |walk| {
      NearestAtAppend(walk, walk[0], Pool(points), dist, k);
    }
  }

  lemma NothingLeft<T>(pool: set<T>, visited: set<T>)
    requires pool - visited == {} && visited <= pool
    ensures visited == pool
  {
    forall x | x in pool
      ensures x in visited
    {
      assert x !in pool - visited;
    }
  }

  /** The main loop: from `points[0]`, keep moving to a nearest unvisited point
      until none is left, adding up the legs travelled. */
  method WalkGreedily(points: seq<Point>, dist: Metric) returns (walk: seq<Point>, total: real)
    requires |points| > 0
    ensures GreedyWalk(points, walk, dist)
    ensures Elems(walk[1..]) == Pool(points)
    ensures total == PathLength(walk, dist)
  {
    var current := points[0];
    walk := [current];
    var unvisited := Elems(points[1..]);
    total := 0.0;
    while unvisited != {}
      invariant GreedyWalk(points, walk, dist)
      invariant current == Last(walk)
      invariant unvisited == Pool(points) - Elems(walk[1..])
      invariant total == PathLength(walk, dist)
      decreases unvisited
    {
      var nearest, minDist := Nearest(current, unvisited, dist);
      ExtendGreedyWalk(points, walk, nearest, dist);
      PathLengthAppend(walk, nearest, dist);
      current := nearest;
      walk := walk + [current];
      unvisited := unvisited - {current};
      total := total + minDist;
    }
    NothingLeft(Pool(points), Elems(walk[1..]));
  }

  /** Builds the closed greedy tour from `points[0]` and returns it with its length. */
  method SolveTspGreedy(points: seq<Point>, dist: Metric) returns (path: seq<Point>, total: real)
    ensures points == [] ==> path == [] && total == 0.0
    ensures points != [] ==> StartsAndEndsAt(path, points[0])
    ensures points != [] ==> VisitsEachOnce(path, Pool(points))
    ensures points != [] ==> ChoosesNearest(path, Pool(points), dist)
    ensures total == PathLength(path, dist)
  {
    if points == [] {
      return [], 0.0;
    }
    var walk, walked := WalkGreedily(points, dist);
    CloseGreedyWalk(points, walk, dist);
    PathLengthAppend(walk, walk[0], dist);
    assert Interior(walk + [walk[0]]) == walk[1..];
    var returnDist := dist(Last(walk), walk[0]);
    total := walked + returnDist;
    path := walk + [walk[0]];
  }

  /** A sequence without repeats has as many distinct elements as entries. */
  lemma {:induction false} DistinctCardinality<T>(s: seq<T>)
    requires Distinct(s)
    ensures |Elems(s)| == |s|
    decreases |s|
  {
    if |s| > 0 {
      var init := s[..|s| - 1];
      assert Distinct(init);
      DistinctCardinality(init);
      assert s == init + [Last(s)];
      assert Elems(s) == Elems(init) + {Last(s)};
      assert Last(s) !in Elems(init);
    }
  }

  /** A greedy tour has one entry per distinct point of `points[1..]`, plus the
      start and the closing return. */
  lemma TourSize(points: seq<Point>, tour: seq<Point>, dist: Metric)
    requires IsGreedyTour(points, tour, dist)
    ensures |tour| == |Pool(points)| + 2
  {
    DistinctCardinality(Interior(tour));
  }

  /** A greedy tour passes through every input point and through nothing else. */
  lemma TourCoversInput(points: seq<Point>, tour: seq<Point>, dist: Metric)
    requires IsGreedyTour(points, tour, dist)
    ensures Elems(tour) == Elems(points)
  {
    assert tour == [tour[0]] + Interior(tour) + [Last(tour)];
    ElemsConcat([tour[0]] + Interior(tour), [Last(tour)]);
    ElemsConcat([tour[0]], Interior(tour));
    assert points == [points[0]] + points[1..];
    ElemsConcat([points[0]], points[1..]);
  }

  /** A single input point gives the degenerate tour `[p, p]`, whose length is the
      distance from `p` to itself, which is 0 for the haversine distance. */
  lemma SinglePointTour(p: Point, tour: seq<Point>, dist: Metric)
    requires IsGreedyTour([p], tour, dist)
    ensures tour == [p, p]
    ensures PathLength(tour, dist) == dist(p, p)
    ensures ZeroOnSelf(dist) ==> PathLength(tour, dist) == 0.0
  {
    assert Pool([p]) == {};
    DistinctCardinality(Interior(tour));
    assert |tour| == 2;
  }

  /** No point of the input is equally far from two different input points. */
  ghost predicate NoTies(points: seq<Point>, dist: Metric) {
    forall a, b, c :: a in points && b in points && c in points && b != c ==> dist(a, b) != dist(a, c)
  }

  /** Two greedy tours of the same input that agree up to step k agree at step k
      too when no distances tie. */
  lemma AgreeStep(points: seq<Point>, t1: seq<Point>, t2: seq<Point>, k: int, dist: Metric)
    requires NoTies(points, dist)
    requires IsGreedyTour(points, t1, dist) && IsGreedyTour(points, t2, dist)
    requires |t1| == |t2|
    requires 1 <= k < |t1| - 1
    requires t1[..k] == t2[..k]
    ensures t1[k] == t2[k]
  {
    var pool := Pool(points);
    var c := t1[k - 1];
    assert c == t2[k - 1] by { assert t1[..k][k - 1] == t2[..k][k - 1]; }
    assert Elems(points) == {points[0]} + pool by { assert points == [points[0]] + points[1..]; }
    assert c in points by {
      if k > 1 {
        assert c == Interior(t1)[k - 2];
        assert c in Elems(Interior(t1));
      }
    }
    assert t1[1..k] == Interior(t1)[..k - 1];
    assert t2[1..k] == Interior(t2)[..k - 1];
    assert t1[1..k] == t2[1..k] by { assert t1[1..k] == t1[..k][1..]; assert t2[1..k] == t2[..k][1..]; }
    assert t1[k] == Interior(t1)[k - 1];
    assert t2[k] == Interior(t2)[k - 1];
    assert t1[k] in pool by { assert t1[k] in Elems(Interior(t1)); }
    assert t2[k] in pool by { assert t2[k] in Elems(Interior(t2)); }
    assert t1[k] !in t1[1..k];
    assert t2[k] !in t2[1..k];
    assert NearestAt(t1, pool, k, dist);
    assert NearestAt(t2, pool, k, dist);
    assert dist(c, t1[k]) <= dist(c, t2[k]);
    assert dist(c, t2[k]) <= dist(c, t1[k]);
  }

  lemma {:induction false} AgreeUpTo(points: seq<Point>, t1: seq<Point>, t2: seq<Point>, k: int, dist: Metric)
    requires NoTies(points, dist)
    requires IsGreedyTour(points, t1, dist) && IsGreedyTour(points, t2, dist)
    requires |t1| == |t2|
    requires 1 <= k <= |t1| - 1
    ensures t1[..k] == t2[..k]
    decreases k
  {
    if k == 1 {
      assert t1[..1] == [points[0]] == t2[..1];
    } else {
      AgreeUpTo(points, t1, t2, k - 1, dist);
      AgreeStep(points, t1, t2, k - 1, dist);
      assert t1[..k] == t1[..k - 1] + [t1[k - 1]];
      assert t2[..k] == t2[..k - 1] + [t2[k - 1]];
    }
  }

  /** Only ties leave the greedy builder a choice: without them, its tour is
      determined by the input. */
  lemma GreedyTourUnique(points: seq<Point>, t1: seq<Point>, t2: seq<Point>, dist: Metric)
    requires NoTies(points, dist)
    requires IsGreedyTour(points, t1, dist) && IsGreedyTour(points, t2, dist)
    ensures t1 == t2
  {
    TourSize(points, t1, dist);
    TourSize(points, t2, dist);
    var n := |t1|;
    AgreeUpTo(points, t1, t2, n - 1, dist);
    assert t1 == t1[..n - 1] + [Last(t1)];
    assert t2 == t2[..n - 1] + [Last(t2)];
  }
}
