/** The backward walk of buildRoute (s.js:225-233, learnjs.js:101-110): follow
    `previous` from the end point until `null`, then reverse. */
module PathTrace {
  import opened Common
  import opened Graph
  import opened Dijkstra

  /** `Array.prototype.reverse`. */
  function Reverse<T>(s: seq<T>): (r: seq<T>)
    ensures |r| == |s|
    ensures forall k :: 0 <= k < |s| ==> r[k] == s[|s| - 1 - k]
  {
    if s == [] then [] else Reverse(s[1..]) + [s[0]]
  }

  /** Every predecessor link points to a point of strictly smaller rank, so no
      chain of links can cycle. */
  ghost predicate Ranked(prev: seq<Option<nat>>, rank: seq<nat>)
  {
    && |rank| == |prev|
    && forall v :: 0 <= v < |prev| && prev[v].Some? ==> prev[v].value < |prev| && rank[prev[v].value] < rank[v]
  }

  /** path runs along predecessor links from a point with no predecessor to t. */
  predicate IsChain(prev: seq<Option<nat>>, path: seq<nat>, t: nat)
  {
    && |path| >= 1 && path[|path| - 1] == t
    && (forall k :: 0 <= k < |path| ==> path[k] < |prev|)
    && prev[path[0]] == None
    && (forall k :: 0 <= k < |path| - 1 ==> prev[path[k + 1]] == Some(path[k]))
  }

  /** The `while (current !== null)` walk and the final reverse. It stops
      because every link lowers the ghost rank. */
  method TracePath(prev: seq<Option<nat>>, ghost rank: seq<nat>, target: nat) returns (path: seq<nat>)
    requires Ranked(prev, rank) && target < |prev|
    ensures IsChain(prev, path, target)
    ensures prev[target] == None ==> path == [target]
  {
    var back: seq<nat> := [];
    var current: Option<nat> := Some(target);
    while current.Some?
      invariant current.Some? ==> current.value < |prev|
      invariant back == [] ==> current == Some(target)
      invariant forall k :: 0 <= k < |back| ==> back[k] < |prev|
      invariant back != [] ==> back[0] == target && current == prev[back[|back| - 1]]
      invariant forall k :: 0 <= k < |back| - 1 ==> prev[back[k]] == Some(back[k + 1])
      decreases if current.Some? then rank[current.value] + 1 else 0
    {
      back := back + [current.value];
      current := prev[current.value];
    }
    path := Reverse(back);
    if prev[target] == None {
      RootChain(prev, path, target);
    }
  }

  /** The last link of a chain of two or more points enters t. */
  lemma ChainLastLink(prev: seq<Option<nat>>, path: seq<nat>, t: nat)
    requires IsChain(prev, path, t)
    ensures |path| > 1 ==> prev[t] == Some(path[|path| - 2])
  {
    if |path| > 1 {
      var k := |path| - 2;
      assert prev[path[k + 1]] == Some(path[k]);
    }
  }

  /** A point without a predecessor is the whole of its chain. */
  lemma RootChain(prev: seq<Option<nat>>, path: seq<nat>, t: nat)
    requires IsChain(prev, path, t) && prev[t] == None
    ensures path == [t]
  {
    ChainLastLink(prev, path, t);
  }

  /** The chain ending at t is unique, so the walk's result is determined by
      the predecessor array alone. */
  lemma {:induction false} ChainUnique(prev: seq<Option<nat>>, p: seq<nat>, q: seq<nat>, t: nat)
    requires IsChain(prev, p, t) && IsChain(prev, q, t)
    ensures p == q
  {
    if prev[t] == None {
      RootChain(prev, p, t);
      RootChain(prev, q, t);
    } else {
      var u := p[|p| - 2];
      assert prev[t] == Some(u) && prev[t] == Some(q[|q| - 2]);
      ChainUnique(prev, p[..|p| - 1], q[..|q| - 1], u);
      assert p == p[..|p| - 1] + [t] && q == q[..|q| - 1] + [t];
    }
  }

  /** The rank a shortest-path tree gives each point: its distance. */
  ghost function RankOf(dist: seq<Dist>): (rank: seq<nat>)
    ensures |rank| == |dist|
  {
    seq(|dist|, k requires 0 <= k < |dist| => if dist[k].Fin? then dist[k].cost else 0)
  }

  /** Edges have positive cost, so a predecessor is strictly closer to the
      source than its successor: the predecessor array is acyclic. */
  lemma TreeRanked(m: Matrix, prev: seq<Option<nat>>, dist: seq<Dist>)
    requires ShortestPathTree(m, prev, dist)
    ensures Ranked(prev, RankOf(dist))
  {
    forall v | 0 <= v < |prev| && prev[v].Some?
      ensures prev[v].value < |prev| && RankOf(dist)[prev[v].value] < RankOf(dist)[v]
    {
      assert LinkOk(m, prev, dist, v);
    }
  }

  /** A chain in the tree that ends at a reached point starts at the source and
      is a walk whose cost is that point's distance. */
  lemma {:induction false} ChainWeight(m: Matrix, prev: seq<Option<nat>>, dist: seq<Dist>, path: seq<nat>, t: nat)
    requires ShortestPathTree(m, prev, dist) && IsChain(prev, path, t) && dist[t].Fin?
    ensures IsPath(m, path, 0, t)
    ensures dist[t] == Fin(PathWeight(m, path))
  {
    assert LinkOk(m, prev, dist, t);
    if |path| > 1 {
      var u := path[|path| - 2];
      var init := path[..|path| - 1];
      assert prev[t] == Some(u);
      ChainWeight(m, prev, dist, init, u);
      assert path == init + [t];
    }
  }

  /** No walk from the source undercuts a distance of the tree: the triangle
      inequality, applied edge by edge. */
  lemma {:induction false} NoShorterPath(m: Matrix, prev: seq<Option<nat>>, dist: seq<Dist>, p: seq<nat>, t: nat)
    requires ShortestPathTree(m, prev, dist) && IsPath(m, p, 0, t)
    ensures Le(dist[t], Fin(PathWeight(m, p)))
  {
    if |p| > 1 {
      var u := p[|p| - 2];
      var init := p[..|p| - 1];
      assert IsPath(m, init, 0, u);
      NoShorterPath(m, prev, dist, init, u);
      assert Edge(m, u, t);
    }
  }

  /** What buildRoute's route amounts to: a cheapest walk from the start to t
      when t can be reached, and t alone when it cannot. */
  ghost predicate BestRoute(m: Matrix, route: seq<nat>, t: nat)
  {
    && (Reachable(m, 0, t) ==> IsShortestPath(m, route, 0, t))
    && (!Reachable(m, 0, t) ==> route == [t])
  }

  /** The route buildRoute hands to the renderer: when the end point can be
      reached at all, the walk from it is a cheapest walk from the start; when
      it cannot, the walk is just the end point, since the code makes no
      unreachable check. */
  lemma RouteIsShortest(m: Matrix, prev: seq<Option<nat>>, dist: seq<Dist>, path: seq<nat>, t: nat)
    requires ShortestPathTree(m, prev, dist) && t < |m| && IsChain(prev, path, t)
    ensures Reachable(m, 0, t) <==> dist[t].Fin?
    ensures Reachable(m, 0, t) <==> (t == 0 || prev[t].Some?)
    ensures BestRoute(m, path, t)
  {
    if dist[t].Fin? {
      ChainWeight(m, prev, dist, path, t);
      forall q | IsPath(m, q, 0, t) ensures PathWeight(m, path) <= PathWeight(m, q) {
        NoShorterPath(m, prev, dist, q, t);
      }
    } else {
      forall q | IsPath(m, q, 0, t) ensures false {
        NoShorterPath(m, prev, dist, q, t);
      }
      assert LinkOk(m, prev, dist, t);
      RootChain(prev, path, t);
    }
  }

  /** route is what buildRoute walks back from t over the predecessor array
      that `dijkstra(m)` returns. */
  ghost predicate SearchWalk(m: Matrix, route: seq<nat>, t: nat)
  {
    exists prev :: SearchResult(m, prev) && IsChain(prev, route, t)
  }

  /** The table alone decides the drawn route: the search has one result and
      the walk over it one chain. */
  lemma SearchWalkUnique(m: Matrix, route: seq<nat>, route': seq<nat>, t: nat)
    requires SearchWalk(m, route, t) && SearchWalk(m, route', t)
    ensures route == route'
  {
    var prev :| SearchResult(m, prev) && IsChain(prev, route, t);
    var prev' :| SearchResult(m, prev') && IsChain(prev', route', t);
    SearchResultUnique(m, prev, prev');
    ChainUnique(prev, route, route', t);
  }

  /** Three points where the direct edge 0 -> 2 and the detour 0 -> 1 -> 2
      cost the same (2). */
  const TieTable: Matrix := [[None, Some(1), Some(2)], [None, None, Some(1)], [None, None, None]]

  /** Round 0 on TieTable picks the start and reaches both other points
      directly from it. */
  lemma TieFirstRound(u: nat, t: SearchState)
    requires Step(TieTable, Initial(3), u, t)
    ensures u == 0
    ensures t.visited == [true, false, false]
    ensures t.dist == [Fin(0), Fin(1), Fin(2)] && t.prev == [None, Some(0), Some(0)]
  {
    var s := Initial(3);
    assert Le(s.dist[u], s.dist[0]);
    assert RelaxedAt(TieTable, 0, t.visited, s.dist, s.prev, t.dist, t.prev, 0);
    assert RelaxedAt(TieTable, 0, t.visited, s.dist, s.prev, t.dist, t.prev, 1);
    assert RelaxedAt(TieTable, 0, t.visited, s.dist, s.prev, t.dist, t.prev, 2);
  }

  /** Round 1 on TieTable picks point 1; its detour to point 2 only ties, so
      point 2 keeps the start as predecessor. */
  lemma TieSecondRound(s: SearchState, u: nat, t: SearchState)
    requires s == SearchState([true, false, false], [Fin(0), Fin(1), Fin(2)], [None, Some(0), Some(0)])
    requires Step(TieTable, s, u, t)
    ensures u == 1 && t.prev == [None, Some(0), Some(0)]
  {
    assert Le(s.dist[u], s.dist[1]);
    assert RelaxedAt(TieTable, 1, t.visited, s.dist, s.prev, t.dist, t.prev, 0);
    assert RelaxedAt(TieTable, 1, t.visited, s.dist, s.prev, t.dist, t.prev, 1);
    assert RelaxedAt(TieTable, 1, t.visited, s.dist, s.prev, t.dist, t.prev, 2);
  }

  /** On TieTable both routes are cheapest, but the strict `<` of the
      relaxation keeps the predecessor found first: point 2 keeps point 0, and
      buildRoute draws the direct route. */
  lemma TieKeepsEarlierPredecessor(route: seq<nat>)
    requires SearchWalk(TieTable, route, 2)
    ensures route == [0, 2]
  {
    var m := TieTable;
    var prev :| SearchResult(m, prev) && IsChain(prev, route, 2);
    var trace: seq<SearchState>, selected: seq<nat> :| IsRun(m, trace, selected) && trace[2].prev == prev;
    RunStart(m, trace, selected);
    RunStep(m, trace, selected, 0);
    RunStep(m, trace, selected, 1);
    TieFirstRound(selected[0], trace[1]);
    TieSecondRound(trace[1], selected[1], trace[2]);
    assert IsChain(prev, [0, 2], 2);
    ChainUnique(prev, route, [0, 2], 2);
  }
}
