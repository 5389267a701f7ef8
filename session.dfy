/** The `isCalculating` guard around createRoute and the two ways the
    repository finishes a route once the distance table arrives: the Dijkstra
    walk of s.js / learnjs.js and the nearest-neighbour tour of script.js. */
module Session {
  import opened Common
  import opened Graph
  import opened Points
  import opened Dijkstra
  import opened PathTrace
  import opened Nearest

  /** The JSON body of the table service's answer: `data.code` and `data.distances`. */
  datatype Envelope = Envelope(code: string, distances: Option<Matrix>)

  const OkCode: string := "Ok"

  /** What the synchronous part of createRoute did before the table request. */
  datatype Request = Dropped | EndpointsMissing | Started(points: seq<Station>)

  /** How the asynchronous part ended once the service answered. */
  datatype Settled = ProviderFailure | NoDistances | Routed(route: seq<nat>, waypoints: seq<LatLng>)

  /** A successful table has one row and one column per requested point. */
  predicate Fits(response: Envelope, n: nat)
  {
    response.code == OkCode && response.distances.Some? ==>
      Square(response.distances.value) && |response.distances.value| == n
  }

  /** `path.map(index => L.latLng(points[index].latitude, points[index].longitude))`. */
  function Locate(points: seq<Station>, route: seq<nat>): (w: seq<LatLng>)
    requires forall k :: 0 <= k < |route| ==> route[k] < |points|
    ensures |w| == |route|
  {
    seq(|route|, k requires 0 <= k < |route| => LatLngOf(points[route[k]]))
  }

  /** The waypoints are the locations of the route's points, in route order. */
  predicate Locates(points: seq<Station>, route: seq<nat>, waypoints: seq<LatLng>)
  {
    && |waypoints| == |route|
    && forall k :: 0 <= k < |route| ==> route[k] < |points| && waypoints[k] == LatLngOf(points[route[k]])
  }

  /** The route part of buildRoute (s.js:224-237): solve, walk back from the
      end point, locate. When the end can be reached the route is a cheapest
      walk from the start; when it cannot, the route is the end point alone. */
  method DijkstraRoute(points: seq<Station>, distances: Matrix) returns (route: seq<nat>, waypoints: seq<LatLng>)
    requires |points| >= 1 && Square(distances) && |distances| == |points|
    ensures SearchWalk(distances, route, |points| - 1)
    ensures BestRoute(distances, route, |points| - 1)
    ensures Locates(points, route, waypoints)
  {
    var previous;
    ghost var dist, selected, trace;
    previous, dist, selected, trace := Solve(distances);
    TreeRanked(distances, previous, dist);
    route := TracePath(previous, RankOf(dist), |points| - 1);
    assert SearchResult(distances, previous) && IsChain(previous, route, |points| - 1);
    RouteIsShortest(distances, previous, dist, route, |points| - 1);
    waypoints := Locate(points, route);
  }

  /** The route part of calculateRoute (script.js:154-181), for the point
      list `points` assembled from `total` stations: the waypoint list starts
      at the start point, takes every intermediate once in greedy order, and
      ends at the end point. */
  method NearestRoute(points: seq<Station>, total: nat, distances: Matrix)
    returns (route: seq<nat>, waypoints: seq<LatLng>)
    requires |points| >= 2 && total >= |points|
    requires Square(distances) && |distances| == |points|
    ensures exists order :: IsGreedyOrder(distances, |points| - 2, order) && route == Tour(order, |points|)
    ensures |route| == |points|
    ensures forall i :: 0 < i < |points| - 1 ==> InTour(route, i)
    ensures Locates(points, route, waypoints)
  {
    var count := |points| - 2;
    var order := NearestOrder(distances, count, total);
    GreedyDistinct(distances, count, order);
    GreedyVisitsAll(distances, count, order);
    route := Tour(order, |points|);
    TourCoversAll(order, count, route);
    assert forall k :: 0 <= k < |route| ==> route[k] < |points| by {
      forall k | 0 < k < |route| - 1 ensures route[k] < |points| {
        assert route[k] == order[k - 1] + 1;
      }
    }
    waypoints := Locate(points, route);
    assert IsGreedyOrder(distances, count, order) && route == Tour(order, |points|);
  }

  /** The page's route state: the module-level `isCalculating` flag. */
  class RouteSession {
    var calculating: bool

    constructor ()
      ensures !calculating
    {
      calculating := false;
    }

    /** createRoute up to the table request (s.js:140-162): a call made while a
        calculation runs is dropped and changes nothing; otherwise the flag is
        raised, and lowered again if either role is missing. */
    method CreateRoute(stations: seq<Station>) returns (r: Request)
      modifies this
      ensures old(calculating) ==> r == Dropped && calculating
      ensures !old(calculating) && AssemblePoints(stations).Err? ==> r == EndpointsMissing && !calculating
      ensures !old(calculating) && AssemblePoints(stations).Ok? ==>
                r == Started(AssemblePoints(stations).value) && calculating
    {
      if calculating {
        return Dropped;
      }
      calculating := true;
      var assembled := AssemblePoints(stations);
      if assembled.Err? {
        calculating := false;
        return EndpointsMissing;
      }
      return Started(assembled.value);
    }

    /** fetchDistanceMatrix's check and buildRoute (s.js:173-179, 220-264): a
        non-"Ok" answer lowers the flag; an "Ok" answer without distances
        returns with the flag as it was; otherwise the shortest route is
        rendered and the flag lowered. */
    method BuildRoute(points: seq<Station>, response: Envelope) returns (r: Settled)
      requires |points| >= 1 && Fits(response, |points|)
      modifies this
      ensures response.code != OkCode ==> r == ProviderFailure && !calculating
      ensures response.code == OkCode && response.distances.None? ==>
                r == NoDistances && calculating == old(calculating)
      ensures response.code == OkCode && response.distances.Some? ==>
                && !calculating && r.Routed?
                && SearchWalk(response.distances.value, r.route, |points| - 1)
                && BestRoute(response.distances.value, r.route, |points| - 1)
                && Locates(points, r.route, r.waypoints)
    {
      if response.code != OkCode {
        calculating := false;
        return ProviderFailure;
      }
      if response.distances.None? {
        return NoDistances;
      }
      var route, waypoints := DijkstraRoute(points, response.distances.value);
      calculating := false;
      return Routed(route, waypoints);
    }

    /** calculateRoute of script.js:138-200: a non-"Ok" answer lowers the flag;
        otherwise the nearest-neighbour tour is rendered and the flag lowered.
        With no intermediates the scan never reads the table, so the route
        [start, end] is drawn even when the answer carries no distances. */
    method CalculateRoute(stations: seq<Station>, points: seq<Station>, response: Envelope) returns (r: Settled)
      requires AssemblePoints(stations) == Ok(points)
      requires Fits(response, |points|)
      requires response.code == OkCode && |points| > 2 ==> response.distances.Some?
      modifies this
      ensures response.code != OkCode ==> r == ProviderFailure && !calculating
      ensures response.code == OkCode ==>
                && !calculating && r.Routed? && |r.route| == |points|
                && (forall i :: 0 < i < |points| - 1 ==> InTour(r.route, i))
                && Locates(points, r.route, r.waypoints)
                && (|r.waypoints| == |stations| <==>
                      CountNamed(stations, StartName) == 1 && CountNamed(stations, EndName) == 1)
      ensures response.code == OkCode && response.distances.Some? ==>
                r.Routed? && exists order :: IsGreedyOrder(response.distances.value, |points| - 2, order) &&
                                             r.route == Tour(order, |points|)
      ensures response.code == OkCode && response.distances.None? ==> r.Routed? && r.route == [0, 1]
    {
      if response.code != OkCode {
        calculating := false;
        return ProviderFailure;
      }
      PointsCoverStations(stations);
      var route, waypoints;
      if response.distances.None? {
        route := Tour([], |points|);
        waypoints := Locate(points, route);
      } else {
        route, waypoints := NearestRoute(points, |stations|, response.distances.value);
      }
      calculating := false;
      return Routed(route, waypoints);
    }
  }
}
