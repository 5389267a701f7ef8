/** The nested `dijkstra` function of createRoute (s.js:182-218, repeated in
    learnjs.js:49-86): n - 1 rounds over three parallel arrays, each round
    picking the unvisited point with the smallest tentative distance and
    relaxing the truthy edges out of it. */
module Dijkstra {
  import opened Common
  import opened Graph
  import opened Flags

  /** What the search promises about its predecessor and distance arrays: the
      source is at distance 0 with no predecessor, every predecessor link is an
      edge whose cost accounts exactly for the distance, every other point
      without a predecessor is unreached, and no edge could shorten any
      distance further. */
  ghost predicate ShortestPathTree(m: Matrix, prev: seq<Option<nat>>, dist: seq<Dist>)
  {
    && Square(m) && |m| >= 1 && |prev| == |m| && |dist| == |m|
    && dist[0] == Fin(0) && prev[0] == None
    && (forall v :: 0 <= v < |m| ==> LinkOk(m, prev, dist, v))
    && (forall u, v :: 0 <= u < |m| && 0 <= v < |m| && Edge(m, u, v) && dist[u].Fin? ==>
          Le(dist[v], Plus(dist[u], Weight(m, u, v))))
  }

  /** The predecessor of v, if any, is a reached point joined to v by an edge
      whose cost is the difference of their distances; a point with no
      predecessor other than the source is unreached. */
  ghost predicate LinkOk(m: Matrix, prev: seq<Option<nat>>, dist: seq<Dist>, v: nat)
    requires |prev| == |m| && |dist| == |m| && v < |m|
  {
    match prev[v]
    case Some(u) => u < |m| && Edge(m, u, v) && dist[u].Fin? && dist[v] == Plus(dist[u], Weight(m, u, v))
    case None => v == 0 || dist[v] == Inf
  }

  /** u is what one scan of the minimum loop (s.js:190-198) picks: an unvisited
      point of least distance; since `<=` lets a later equal distance replace an
      earlier one, every later unvisited point is strictly farther. */
  ghost predicate IsSelection(visited: seq<bool>, dist: seq<Dist>, u: nat)
    requires |visited| == |dist|
  {
    && u < |visited| && !visited[u]
    && (forall k :: 0 <= k < |visited| && !visited[k] ==> Le(dist[u], dist[k]))
    && (forall k :: u < k < |visited| && !visited[k] ==> Lt(dist[u], dist[k]))
  }

  /** The tie rule leaves no choice: one scan has one answer. */
  lemma SelectionUnique(visited: seq<bool>, dist: seq<Dist>, u: nat, w: nat)
    requires |visited| == |dist|
    requires IsSelection(visited, dist, u) && IsSelection(visited, dist, w)
    ensures u == w
  {
  }

  /** The relaxation test of s.js:203-209 for the edge u -> j. */
  predicate Improves(m: Matrix, u: nat, visited: seq<bool>, dist: seq<Dist>, j: nat)
    requires u < |dist| && j < |dist| && j < |visited|
  {
    !visited[j] && Edge(m, u, j) && dist[u].Fin? && Lt(Plus(dist[u], Weight(m, u, j)), dist[j])
  }

  /** After relaxing from u, point j has the improved distance and predecessor
      u when the test holds, and keeps its old entries otherwise. */
  ghost predicate RelaxedAt(m: Matrix, u: nat, visited: seq<bool>, dist: seq<Dist>, prev: seq<Option<nat>>,
                            dist': seq<Dist>, prev': seq<Option<nat>>, j: nat)
    requires u < |dist| && |visited| == |dist| == |prev| == |dist'| == |prev'| && j < |dist|
  {
    if Improves(m, u, visited, dist, j)
    then dist'[j] == Plus(dist[u], Weight(m, u, j)) && prev'[j] == Some(u)
    else dist'[j] == dist[j] && prev'[j] == prev[j]
  }

  ghost predicate Relaxed(m: Matrix, u: nat, visited: seq<bool>, dist: seq<Dist>, prev: seq<Option<nat>>,
                          dist': seq<Dist>, prev': seq<Option<nat>>)
  {
    && u < |dist| && |visited| == |dist| == |prev| == |dist'| == |prev'|
    && forall j :: 0 <= j < |dist| ==> RelaxedAt(m, u, visited, dist, prev, dist', prev', j)
  }

  /** The three arrays of the search between two rounds. */
  datatype SearchState = SearchState(visited: seq<bool>, dist: seq<Dist>, prev: seq<Option<nat>>)

  /** The arrays as s.js:184-187 set them up: nothing visited, the start at
      distance 0, every other point at `Infinity`, no predecessors. */
  function Initial(n: nat): (s: SearchState)
    requires n >= 1
    ensures |s.visited| == |s.dist| == |s.prev| == n
    ensures s.dist[0] == Fin(0) && forall k :: 0 < k < n ==> s.dist[k] == Inf
    ensures forall k :: 0 <= k < n ==> !s.visited[k] && s.prev[k] == None
  {
    SearchState(seq(n, _ => false), seq(n, k => if k == 0 then Fin(0) else Inf), seq(n, _ => None))
  }

  /** One round of s.js:190-214 takes state s to state t: the scan picks u,
      u is marked visited, and the edges out of u are relaxed. */
  ghost predicate Step(m: Matrix, s: SearchState, u: nat, t: SearchState)
  {
    && |s.visited| == |s.dist| == |s.prev|
    && IsSelection(s.visited, s.dist, u)
    && t.visited == s.visited[u := true]
    && Relaxed(m, u, t.visited, s.dist, s.prev, t.dist, t.prev)
  }

  /** The first |selected| rounds of a run: trace[k] holds the arrays before
      round k (the last entry the arrays after the last of these rounds), and
      selected[k] is the point round k picks. */
  ghost predicate Run(m: Matrix, trace: seq<SearchState>, selected: seq<nat>)
    decreases |selected|
  {
    && |m| >= 1 && |trace| == |selected| + 1
    && if selected == [] then trace[0] == Initial(|m|)
       else
         && Run(m, trace[..|trace| - 1], selected[..|selected| - 1])
         && Step(m, trace[|trace| - 2], selected[|selected| - 1], trace[|trace| - 1])
  }

  /** A full run of `dijkstra`: all n - 1 rounds. */
  ghost predicate IsRun(m: Matrix, trace: seq<SearchState>, selected: seq<nat>)
  {
    |trace| == |m| && Run(m, trace, selected)
  }

  /** The tie rule of the scan and the strict test of the relaxation leave a
      round no choice: from one state there is one next state. */
  lemma StepUnique(m: Matrix, s: SearchState, u: nat, t: SearchState, u': nat, t': SearchState)
    requires Step(m, s, u, t) && Step(m, s, u', t')
    ensures u == u' && t == t'
  {
    SelectionUnique(s.visited, s.dist, u, u');
    forall j | 0 <= j < |s.dist| ensures t.dist[j] == t'.dist[j] && t.prev[j] == t'.prev[j] {
      assert RelaxedAt(m, u, t.visited, s.dist, s.prev, t.dist, t.prev, j);
      assert RelaxedAt(m, u, t'.visited, s.dist, s.prev, t'.dist, t'.prev, j);
    }
    assert t.dist == t'.dist && t.prev == t'.prev;
  }

  /** Two runs of the same number of rounds over one table are the same run. */
  lemma {:induction false} RunUnique(m: Matrix, trace: seq<SearchState>, selected: seq<nat>,
                                     trace': seq<SearchState>, selected': seq<nat>)
    requires Run(m, trace, selected) && Run(m, trace', selected') && |selected| == |selected'|
    ensures trace == trace' && selected == selected'
    decreases |selected|
  {
    if selected != [] {
      var n := |selected|;
      RunUnique(m, trace[..n], selected[..n - 1], trace'[..n], selected'[..n - 1]);
      StepUnique(m, trace[n - 1], selected[n - 1], trace[n], selected'[n - 1], trace'[n]);
      assert trace == trace[..n] + [trace[n]] && trace' == trace'[..n] + [trace'[n]];
      assert selected == selected[..n - 1] + [selected[n - 1]];
      assert selected' == selected'[..n - 1] + [selected'[n - 1]];
    }
  }

  /** A run starts from the arrays s.js:184-187 set up. */
  lemma {:induction false} RunStart(m: Matrix, trace: seq<SearchState>, selected: seq<nat>)
    requires Run(m, trace, selected)
    ensures trace[0] == Initial(|m|)
    decreases |selected|
  {
    if selected != [] {
      RunStart(m, trace[..|trace| - 1], selected[..|selected| - 1]);
    }
  }

  /** Round k of a run is one step from trace[k] to trace[k + 1]. */
  lemma {:induction false} RunStep(m: Matrix, trace: seq<SearchState>, selected: seq<nat>, k: nat)
    requires Run(m, trace, selected) && k < |selected|
    ensures Step(m, trace[k], selected[k], trace[k + 1])
    decreases |selected|
  {
    if k < |selected| - 1 {
      RunStep(m, trace[..|trace| - 1], selected[..|selected| - 1], k);
    }
  }

  /** One more round extends a run. */
  lemma RunExtend(m: Matrix, trace: seq<SearchState>, selected: seq<nat>, u: nat, t: SearchState)
    requires Run(m, trace, selected) && Step(m, trace[|trace| - 1], u, t)
    ensures Run(m, trace + [t], selected + [u])
  {
  }

  /** What the rounds of a run pick: n - 1 different points, the start
      first, and exactly the points picked so far are marked visited. */
  lemma {:induction false} RunPicks(m: Matrix, trace: seq<SearchState>, selected: seq<nat>)
    requires Run(m, trace, selected)
    ensures |trace[|trace| - 1].visited| == |m|
    ensures forall v :: 0 <= v < |m| ==> (trace[|trace| - 1].visited[v] <==> v in selected)
    ensures forall k :: 0 <= k < |selected| ==> selected[k] < |m|
    ensures forall a, b :: 0 <= a < b < |selected| ==> selected[a] != selected[b]
    ensures |selected| > 0 ==> selected[0] == 0
    decreases |selected|
  {
    if selected != [] {
      var n := |selected|;
      var trace0, selected0 := trace[..n], selected[..n - 1];
      RunPicks(m, trace0, selected0);
      var u := selected[n - 1];
      assert trace[n - 1] == trace0[|trace0| - 1];
      assert Step(m, trace[n - 1], u, trace[n]);
      assert selected == selected0 + [u];
      forall a, b | 0 <= a < b < n ensures selected[a] != selected[b] {
        if b == n - 1 {
          assert selected[a] in selected0;
        }
      }
      if n == 1 {
        assert trace[0] == Initial(|m|);
      }
    }
  }

  /** prev is the predecessor array `dijkstra(m)` returns. */
  ghost predicate SearchResult(m: Matrix, prev: seq<Option<nat>>)
  {
    exists trace: seq<SearchState>, selected: seq<nat> :: IsRun(m, trace, selected) && trace[|m| - 1].prev == prev
  }

  /** A table has one search result. */
  lemma SearchResultUnique(m: Matrix, prev: seq<Option<nat>>, prev': seq<Option<nat>>)
    requires SearchResult(m, prev) && SearchResult(m, prev')
    ensures prev == prev'
  {
    var trace: seq<SearchState>, selected: seq<nat> :| IsRun(m, trace, selected) && trace[|m| - 1].prev == prev;
    var trace': seq<SearchState>, selected': seq<nat> :| IsRun(m, trace', selected') && trace'[|m| - 1].prev == prev';
    RunUnique(m, trace, selected, trace', selected');
  }

  /** The loop invariant of the round loop: the tree links hold with every
      predecessor already visited, visited points are no farther than unvisited
      ones, and no edge out of a visited point can still shorten a distance. */
  ghost predicate Inv(m: Matrix, visited: seq<bool>, dist: seq<Dist>, prev: seq<Option<nat>>)
  {
    && Square(m) && |m| >= 1 && |visited| == |m| && |dist| == |m| && |prev| == |m|
    && dist[0] == Fin(0) && prev[0] == None
    && (forall v :: 0 <= v < |m| ==> LinkOk(m, prev, dist, v))
    && (forall v :: 0 <= v < |m| && prev[v].Some? ==> prev[v].value < |m| && visited[prev[v].value])
    && (forall u, v :: 0 <= u < |m| && 0 <= v < |m| && visited[u] && !visited[v] ==> Le(dist[u], dist[v]))
    && (forall u, v :: 0 <= u < |m| && 0 <= v < |m| && visited[u] && Edge(m, u, v) && dist[u].Fin? ==>
          Le(dist[v], Plus(dist[u], Weight(m, u, v))))
  }

  lemma LeTrans(a: Dist, b: Dist, c: Dist)
    requires Le(a, b) && Le(b, c)
    ensures Le(a, c)
  {
  }

  /** One round keeps the invariant: marking the selected point u and relaxing
      its edges preserves every clause of Inv. */
  lemma RoundKeepsInv(m: Matrix, visited: seq<bool>, dist: seq<Dist>, prev: seq<Option<nat>>, u: nat,
                      dist': seq<Dist>, prev': seq<Option<nat>>)
    requires Inv(m, visited, dist, prev)
    requires IsSelection(visited, dist, u)
    requires Relaxed(m, u, visited[u := true], dist, prev, dist', prev')
    ensures Inv(m, visited[u := true], dist', prev')
  {
    var n := |m|;
    var vis' := visited[u := true];
    // Every point marked visited keeps its entries; every distance only shrinks.
    assert forall j :: 0 <= j < n && vis'[j] ==> dist'[j] == dist[j] && prev'[j] == prev[j] by {
      forall j | 0 <= j < n && vis'[j] ensures dist'[j] == dist[j] && prev'[j] == prev[j] {
        assert RelaxedAt(m, u, vis', dist, prev, dist', prev', j);
      }
    }
    assert forall j :: 0 <= j < n ==> Le(dist'[j], dist[j]) by {
      forall j | 0 <= j < n ensures Le(dist'[j], dist[j]) {
        assert RelaxedAt(m, u, vis', dist, prev, dist', prev', j);
      }
    }
    // The selected point is no farther than what relaxing from it produces.
    assert forall j :: 0 <= j < n && !vis'[j] ==> Le(dist[u], dist'[j]) by {
      forall j | 0 <= j < n && !vis'[j] ensures Le(dist[u], dist'[j]) {
        assert RelaxedAt(m, u, vis', dist, prev, dist', prev', j);
      }
    }
    assert dist'[0] == Fin(0) && prev'[0] == None by {
      assert RelaxedAt(m, u, vis', dist, prev, dist', prev', 0);
    }
    forall v | 0 <= v < n
      ensures LinkOk(m, prev', dist', v)
      ensures prev'[v].Some? ==> prev'[v].value < n && vis'[prev'[v].value]
    {
      assert RelaxedAt(m, u, vis', dist, prev, dist', prev', v);
      assert LinkOk(m, prev, dist, v);
      assert dist'[u] == dist[u];
    }
    forall a, b | 0 <= a < n && 0 <= b < n && vis'[a] && !vis'[b]
      ensures Le(dist'[a], dist'[b])
    {
      if a != u {
        LeTrans(dist[a], dist[u], dist'[b]);
      }
    }
    forall a, b | 0 <= a < n && 0 <= b < n && vis'[a] && Edge(m, a, b) && dist'[a].Fin?
      ensures Le(dist'[b], Plus(dist'[a], Weight(m, a, b)))
    {
      if a == u {
        assert RelaxedAt(m, u, vis', dist, prev, dist', prev', b);
        if !Improves(m, u, vis', dist, b) && vis'[b] && b != u {
          LeTrans(dist[b], dist[u], Plus(dist[u], Weight(m, u, b)));
        }
      } else {
        LeTrans(dist'[b], dist[b], Plus(dist[a], Weight(m, a, b)));
      }
    }
  }

  /** When all but one point are visited, the invariant gives the full tree:
      the one unvisited point is the farthest, so its edges shorten nothing. */
  lemma FinalTree(m: Matrix, visited: seq<bool>, dist: seq<Dist>, prev: seq<Option<nat>>)
    requires Inv(m, visited, dist, prev)
    requires CountTrue(visited) == |m| - 1
    ensures ShortestPathTree(m, prev, dist)
  {
    var n := |m|;
    forall a, b | 0 <= a < n && 0 <= b < n && Edge(m, a, b) && dist[a].Fin?
      ensures Le(dist[b], Plus(dist[a], Weight(m, a, b)))
    {
      if !visited[a] {
        if visited[b] {
          LeTrans(dist[b], dist[a], Plus(dist[a], Weight(m, a, b)));
        } else if a != b {
          CountTrueTwoUnset(visited, a, b);
        }
      }
    }
  }

  /** The minimum scan of s.js:190-198: `<=` keeps the last of equal minima,
      and `Infinity <= Infinity` lets an unreached point be picked. */
  method SelectMin(visited: array<bool>, dist: array<Dist>) returns (minIndex: int)
    requires visited.Length == dist.Length
    ensures minIndex == -1 <==> forall k :: 0 <= k < visited.Length ==> visited[k]
    ensures minIndex != -1 ==> 0 <= minIndex && IsSelection(visited[..], dist[..], minIndex)
  {
    var minDistance := Inf;
    minIndex := -1;
    for j := 0 to visited.Length
      invariant minIndex == -1 <==> forall k :: 0 <= k < j ==> visited[k]
      invariant minIndex == -1 ==> minDistance == Inf
      invariant minIndex != -1 ==> 0 <= minIndex < j && !visited[minIndex] && dist[minIndex] == minDistance
      invariant forall k :: 0 <= k < j && !visited[k] ==> Le(minDistance, dist[k])
      invariant forall k :: minIndex < k < j && !visited[k] ==> Lt(minDistance, dist[k])
    {
      if !visited[j] && Le(dist[j], minDistance) {
        minDistance := dist[j];
        minIndex := j;
      }
    }
  }

  /** The relaxation loop of s.js:202-214 for the point u just marked visited:
      it touches only unvisited points, and only to shrink their distance. */
  method Relax(m: Matrix, u: nat, visited: array<bool>, dist: array<Dist>, prev: array<Option<nat>>)
    requires u < visited.Length == dist.Length == prev.Length && visited[u]
    modifies dist, prev
    ensures Relaxed(m, u, visited[..], old(dist[..]), old(prev[..]), dist[..], prev[..])
    ensures forall j :: 0 <= j < dist.Length && dist[j] != old(dist[j]) ==>
              !visited[j] && Lt(dist[j], old(dist[j])) && prev[j] == Some(u)
  {
    ghost var dist0, prev0 := dist[..], prev[..];
    for j := 0 to visited.Length
      invariant dist[u] == dist0[u]
      invariant forall k :: 0 <= k < j ==>
                  if Improves(m, u, visited[..], dist0, k)
                  then dist[k] == Plus(dist0[u], Weight(m, u, k)) && prev[k] == Some(u)
                  else dist[k] == dist0[k] && prev[k] == prev0[k]
      invariant forall k :: j <= k < dist.Length ==> dist[k] == dist0[k] && prev[k] == prev0[k]
    {
      if !visited[j] && Edge(m, u, j) && dist[u] != Inf && Lt(Plus(dist[u], Weight(m, u, j)), dist[j]) {
        dist[j] := Plus(dist[u], Weight(m, u, j));
        prev[j] := Some(u);
      }
    }
    forall j | 0 <= j < dist.Length
      ensures RelaxedAt(m, u, visited[..], dist0, prev0, dist[..], prev[..], j)
    {
    }
  }

  /** One pass of the outer loop body (s.js:190-214): select, mark, relax. */
  method Round(m: Matrix, visited: array<bool>, dist: array<Dist>, prev: array<Option<nat>>) returns (u: nat)
    requires Inv(m, visited[..], dist[..], prev[..])
    requires CountTrue(visited[..]) + 1 < visited.Length
    modifies visited, dist, prev
    ensures IsSelection(old(visited[..]), old(dist[..]), u)
    ensures visited[..] == old(visited[..])[u := true]
    ensures Relaxed(m, u, visited[..], old(dist[..]), old(prev[..]), dist[..], prev[..])
    ensures Step(m, SearchState(old(visited[..]), old(dist[..]), old(prev[..])), u,
                 SearchState(visited[..], dist[..], prev[..]))
    ensures CountTrue(visited[..]) == old(CountTrue(visited[..])) + 1
    ensures Inv(m, visited[..], dist[..], prev[..])
  {
    var minIndex := SelectMin(visited, dist);
    if minIndex == -1 {
      // At least two points are still unvisited in every round.
      assert false;
    }
    u := minIndex;
    ghost var vis0, dist0, prev0 := visited[..], dist[..], prev[..];
    visited[u] := true;
    Relax(m, u, visited, dist, prev);
    assert visited[..] == vis0[u := true];
    RoundKeepsInv(m, vis0, dist0, prev0, u, dist[..], prev[..]);
    CountTrueMark(vis0, u);
  }

  /** `dijkstra(distances)`: returns the predecessor array (and, as ghosts, the
      distance array it filled, the point picked in each round and the arrays
      before each round). The rounds form the one run the table determines,
      and its result is a shortest-path tree rooted at point 0. */
  method Solve(m: Matrix)
    returns (prev: seq<Option<nat>>, ghost dist: seq<Dist>, ghost selected: seq<nat>, ghost trace: seq<SearchState>)
    requires Square(m) && |m| >= 1
    ensures IsRun(m, trace, selected) && trace[|m| - 1].prev == prev && trace[|m| - 1].dist == dist
    ensures SearchResult(m, prev)
    ensures |prev| == |m| && prev[0] == None
    ensures forall v :: 0 <= v < |m| && prev[v].Some? ==> prev[v].value < |m| && Edge(m, prev[v].value, v)
    ensures ShortestPathTree(m, prev, dist)
    ensures |selected| == |m| - 1
    ensures forall k :: 0 <= k < |selected| ==> selected[k] < |m|
    ensures forall a, b :: 0 <= a < b < |selected| ==> selected[a] != selected[b]
    ensures |selected| > 0 ==> selected[0] == 0
  {
    var n := |m|;
    var visited := new bool[n](_ => false);
    var distances := new Dist[n](_ => Inf);
    var previous := new Option<nat>[n](_ => None);
    distances[0] := Fin(0);
    selected := [];
    assert SearchState(visited[..], distances[..], previous[..]) == Initial(n);
    trace := [Initial(n)];
    for i := 0 to n - 1
      invariant Inv(m, visited[..], distances[..], previous[..])
      invariant Run(m, trace, selected)
      invariant CountTrue(visited[..]) == i == |selected|
      invariant trace[i] == SearchState(visited[..], distances[..], previous[..])
    {
      var u := Round(m, visited, distances, previous);
      RunExtend(m, trace, selected, u, SearchState(visited[..], distances[..], previous[..]));
      selected := selected + [u];
      trace := trace + [SearchState(visited[..], distances[..], previous[..])];
    }
    FinalTree(m, visited[..], distances[..], previous[..]);
    prev := previous[..];
    dist := distances[..];
    assert IsRun(m, trace, selected) && trace[n - 1].prev == prev;
    RunPicks(m, trace, selected);
    forall v | 0 <= v < n && prev[v].Some? ensures prev[v].value < n && Edge(m, prev[v].value, v) {
      assert LinkOk(m, prev, dist, v);
    }
  }
}
