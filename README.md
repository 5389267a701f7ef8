# Route ordering for a station map, in Dafny

The repository is a browser page that puts charging stations on a map and,
when the "center" button is pressed, asks a table service for the driving
distances between a start, the intermediate stations and an end, orders the
stations into a route and hands that route to a renderer. This project
models the part of it that decides *which* route is drawn:

- the `isCalculating` guard that drops a press while a calculation is still
  running, and the paths that lower it again (`Session.RouteSession`);
- the point list `[start, ...intermediates, end]` built from the station
  data with `find` and `filter` (`Points`);
- the Dijkstra search of `s.js` over the dense distance table, with its exact
  tie rule (`<=`, so the last of equal minima wins), its truthy edge test (a
  `null` or `0` entry is no edge) and its `n - 1` rounds (`Dijkstra`);
- the backward walk over `previous` from the end point until `null`, and
  the final reverse (`PathTrace`);
- the nearest-neighbour ordering of `script.js`, with its strict `<` (the
  first of equal minima wins), its `i + 1` row/column offset for
  intermediate `i`, and its loop bound `waypoints.length < jsonData.length`
  (`Nearest`).

`learnjs.js` carries the same guard, point list, search and walk as `s.js`
(learnjs.js:5-18, 39-43, 49-86, 101-110, 143), so the `s.js` model covers
both files. The rows below cite the `s.js` lines.

The distance table is `seq<seq<Option<nat>>>`, where `None` is JSON `null`.
Tentative distances are `Fin(n) | Inf`. `Le` and `Lt` compare them the way
JavaScript's `<=` and `<` compare numbers with `Infinity`.

The main results are these:

- Whenever the end point can be reached, the route `buildRoute` draws is a
  cheapest walk from the start to it over the edges of the table.
- That route is pinned down exactly: each round of the search is one step
  of a run that the table determines, including both tie rules, so among
  several cheapest walks the model names the one the code draws.
- The greedy route of `script.js` visits every intermediate exactly once,
  each step taking the nearest unvisited one.
- The guard ends every completed calculation, and every answer that is not
  "Ok", with the flag lowered. The code leaves the flag raised in two cases:
  an "Ok" answer without distances in `s.js`, and any error thrown while
  requesting or reading the table (not modelled, see below).

Three behaviours of the code are modelled as written, though a caller might
expect otherwise:

- **No unreachable check.** When the end cannot be reached, the walk stops
  at once (`previous[end]` is `null`). The drawn route is then the end point
  alone, and no "unreachable" outcome is reported. `PathTrace.BestRoute`
  states exactly this.
- **"Ok" answer without distances.** In `s.js` such an answer returns
  before the flag is lowered, so the page stays locked
  (`Session.RouteSession.BuildRoute`).
- **`null` in the greedy scan.** `script.js` compares table entries with
  `<`, which turns `null` into `0`, so an unknown distance counts as the
  nearest one (`Nearest.Compared`).

## Model

| member | source | states |
|---|---|---|
| Points.FindNamed | s.js:144-149 | `find` by name gives the index of the FIRST station with that name, and nothing exactly when no station has it |
| Points.Intermediates | s.js:157-160 | the filtered list is no longer than the stations and holds no start or end station |
| Points.IntermediatesKeep | s.js:157-160 | the filter keeps every station that is neither start nor end, as often as it occurs, and drops every other one |
| Points.IntermediatesAppend | s.js:157-160 | filtering keeps the stations' relative order: the filter of a concatenation is the concatenation of the filters |
| Points.IntermediatesCount | s.js:157-160 | every station is counted once: intermediates plus start-named plus end-named stations make up the whole list |
| Points.AssemblePoints | s.js:144-162 | fails exactly when no station is named "Starting Point" or none is named "Ending Point"; otherwise the list is the first start, all intermediates in order, then the first end |
| Points.PointsCoverStations | script.js:130-133 | the point list is never longer than the station list, and it is as long exactly when each role name occurs once |
| Dijkstra.SelectMin | s.js:190-198 | returns -1 exactly when every point is visited; otherwise an unvisited point of least distance, later than every other unvisited point of that distance |
| Dijkstra.SelectionUnique | s.js:190-198 | the tie rule decides the scan: two selections from the same arrays are the same point |
| Dijkstra.Relax | s.js:202-214 | each unvisited point with a truthy edge from the selected reached point, and a strictly shorter distance through it, gets that distance and that predecessor; no other entry changes |
| Dijkstra.RoundKeepsInv | s.js:189-214 | one round keeps the search invariant: predecessors are visited, visited points are no farther than unvisited ones, and edges out of visited points are relaxed |
| Dijkstra.Round | s.js:189-214 | with two or more points unvisited, the round selects a real point (never -1) by the tie rule, marks exactly that point visited, leaves the distances and predecessors relaxed from it, and keeps the invariant |
| Dijkstra.Initial | s.js:184-187 | the search starts with nothing visited, the start at distance 0, every other point unreached, and no predecessors |
| Dijkstra.StepUnique | s.js:190-214 | the tie rule of the scan and the strict test of the relaxation leave a round no choice: one state has one successor |
| Dijkstra.RunUnique | s.js:189-215 | two runs of the search over the same table with the same number of rounds are identical |
| Dijkstra.RunPicks | s.js:189-200 | the rounds of a run pick distinct points, the start first, and exactly the picked points are marked visited |
| Dijkstra.SearchResultUnique | s.js:182-218 | a table has exactly one predecessor array that the search returns |
| Dijkstra.FinalTree | s.js:189-215 | after n - 1 rounds the single unvisited point is a farthest one, so the arrays form a shortest-path tree |
| Dijkstra.Solve | s.js:182-218 | the returned array is the last state of the run over the table (so it is THE result, tie rules included); every predecessor link is an edge of the table and the start has none; the links form a shortest-path tree rooted at the start: links are edges that account exactly for distances, and no edge shortens any distance; rounds pick n - 1 distinct points, the start first |
| PathTrace.Reverse | s.js:233 | the reversed list has the same length, with entry k taken from position length - 1 - k |
| PathTrace.TracePath | s.js:225-233 | the walk ends and yields a chain of predecessor links from a point without predecessor to the end; it is just the end when the end has no predecessor |
| PathTrace.ChainLastLink | s.js:228-231 | in a chain of two or more points, the last link enters the end point from the point before it |
| PathTrace.RootChain | s.js:228-231 | a chain ending at a point without predecessor is that point alone |
| PathTrace.ChainUnique | s.js:228-231 | following `previous` is deterministic: two chains to the same point are equal |
| PathTrace.TreeRanked | s.js:207-212 | every predecessor is strictly closer to the start than its successor, so `previous` has no cycle and the walk stops |
| PathTrace.ChainWeight | s.js:225-233 | a chain ending at a reached point is a walk from the start whose total cost is that point's distance |
| PathTrace.NoShorterPath | s.js:202-214 | no walk from the start to a point costs less than that point's distance |
| PathTrace.RouteIsShortest | s.js:182-233 | the end is reachable exactly when its distance is finite, and exactly when it is the start or has a predecessor; the walked route is a cheapest walk when reachable and the end alone otherwise |
| Session.DijkstraRoute | s.js:224-237 | the route is the backward walk over the array the search returns (hence unique); it is a cheapest walk from the start to the end whenever one exists, and the end alone otherwise; the waypoints are the route's points' coordinates in route order |
| PathTrace.SearchWalkUnique | s.js:182-233 | the table alone decides the drawn route |
| PathTrace.TieFirstRound | s.js:189-214 | on a three-point table where the direct edge and the detour cost the same, round 0 picks the start and reaches both other points from it |
| PathTrace.TieSecondRound | s.js:189-214 | on that table round 1 picks point 1, whose detour only ties, so point 2 keeps the start as predecessor |
| PathTrace.TieKeepsEarlierPredecessor | s.js:207-212 | on that table buildRoute draws the direct route [0, 2], not the equally cheap [0, 1, 2] |
| Nearest.NearestUnvisited | script.js:159-167 | returns -1 exactly when every intermediate is visited; otherwise the unvisited intermediate of least cost from the current row, the first of equal costs |
| Nearest.NearestUnique | script.js:162-167 | the strict `<` decides the scan: two picks from the same row and marks are the same intermediate |
| Nearest.GreedyExtend | script.js:169-172 | appending the nearest pick from where a greedy order left off gives a greedy order |
| Nearest.GreedyDistinct | script.js:163-171 | a greedy order stays within the intermediates and never visits one twice |
| Nearest.CountMarks | script.js:155-171 | an order without repeats leaves one visited mark per step |
| Nearest.GreedyVisitsAll | script.js:158-179 | a greedy order as long as the intermediates visits each of them exactly once |
| Nearest.NearestOrder | script.js:154-179 | the order is greedy at every step and its length is the smaller of the intermediate count and `jsonData.length - 1` |
| Nearest.Tour | script.js:135-181 | the waypoint list starts at the start point and ends at the end point, with the visited intermediates in between in order, each as point i + 1 |
| Nearest.TourCoversAll | script.js:135-181 | over an order listing each intermediate once, the tour passes through every intermediate between its ends, each exactly once |
| Session.NearestRoute | script.js:154-181 | the route is the tour of a greedy order, has one entry per point and passes through every intermediate; the waypoints are the route's points' coordinates in route order |
| Session.RouteSession.constructor | s.js:138 | a new page starts with no calculation running |
| Session.RouteSession.CreateRoute | s.js:140-162 | a press while the flag is raised changes nothing; otherwise the flag is raised, then lowered again when the start or end is missing, and the point list is handed on when both are present |
| Session.RouteSession.BuildRoute | s.js:173-264 | a non-"Ok" answer lowers the flag; an "Ok" answer without distances leaves the flag as it was; otherwise it draws the route the search determines, a cheapest one to the end, located point by point, and lowers the flag |
| Session.RouteSession.CalculateRoute | script.js:138-200 | a non-"Ok" answer lowers the flag; otherwise it draws the greedy tour through every intermediate, located point by point, and lowers the flag, and with no intermediates it draws [start, end] even without distances; the drawn list has one entry per station exactly when each role name is used once |

## Left out

- Map rendering, markers, popups and the routing control (`L.Routing.control`, `setWaypoints`, the OSRM route options and `radiuses`): drawing is not route ordering. The drawn route is the `route`/`waypoints` result.
- The table request (`fetch`, the URL built from the coordinates, `response.json()`): the service's answer is a parameter, an `Envelope` of `code` and `distances`.
- `alert` messages and the button's DOM wiring: they are user-interface side effects.
- The hard-coded station list `jsonData`: every operation takes the station list as a parameter.
- Floating point: coordinates are `real`, and table distances are natural numbers. Rounding in float sums, which can create or break a tie, is not modelled.
- Interleaving of asynchronous calls: each continuation is modelled as one atomic step after the request. The guard's job of dropping presses in between is captured by `CreateRoute`.
- Exceptions thrown by `fetch`, `response.json()` or by indexing a missing table row: the code does not catch them, so the flag stays raised. The model has no thrown-error outcome.
- The unused `waypoints` list that `s.js` builds at line 163 is not modelled.
- Session.RouteSession.BuildRoute: requires a table with one row and one column per point (`Fits`). In `s.js` a missing row makes line 205 throw, which is not modelled. A row shorter than the point count reads `undefined` there, which the code treats as no edge without throwing; such ragged tables are not covered either.
- Session.RouteSession.CalculateRoute: requires distances in every "Ok" answer that lists intermediates. There, script.js:163 reads the missing table and throws, and that error path is not modelled. With no intermediates the scan never reads the table, and that normal completion is modelled.
- Session.RouteSession.CalculateRoute: takes the assembled point list as a parameter tied to the stations by `AssemblePoints`, rather than repeating the `find`/`filter` of script.js:117-133. That code is the same as in `s.js` and is modelled by `Points.AssemblePoints` and `Session.RouteSession.CreateRoute`.
- The walk has no step bound and no "unreachable" result, because the code has neither. The model states what the code does instead (see above).
