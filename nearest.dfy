/** The nearest-neighbour ordering inside calculateRoute (script.js:154-181):
    from the start's row, repeatedly take the closest unvisited intermediate,
    then finish at the end point. Intermediate i is row and column i + 1 of
    the table; the start is row 0 and the end is the last row. */
module Nearest {
  import opened Common
  import opened Graph
  import opened Flags

  /** The number `distances[r][c] < nearestDistance` compares: JavaScript's
      relational comparison turns `null` into 0. */
  function Compared(e: Entry): nat
  {
    match e
    case None => 0
    case Some(w) => w
  }

  function Cost(m: Matrix, r: nat, c: nat): nat
  {
    if r < |m| && c < |m[r]| then Compared(m[r][c]) else 0
  }

  /** The `visited` array after visiting the intermediates listed in done. */
  function Marks(done: seq<nat>, count: nat): (r: seq<bool>)
    ensures |r| == count
    ensures forall i :: 0 <= i < count ==> (r[i] <==> i in done)
  {
    seq(count, i => i in done)
  }

  /** x is what one scan of script.js:159-167 picks from row `current`: an
      unvisited intermediate of least cost; strict `<` keeps the first of
      equal minima, so every earlier unvisited one is strictly farther. */
  predicate IsNearest(m: Matrix, current: nat, visited: seq<bool>, x: nat)
  {
    && x < |visited| && !visited[x]
    && (forall i :: 0 <= i < |visited| && !visited[i] ==> Cost(m, current, x + 1) <= Cost(m, current, i + 1))
    && (forall i :: 0 <= i < x && !visited[i] ==> Cost(m, current, x + 1) < Cost(m, current, i + 1))
  }

  /** The tie rule leaves no choice: one scan has one answer. */
  lemma NearestUnique(m: Matrix, current: nat, visited: seq<bool>, x: nat, y: nat)
    requires IsNearest(m, current, visited, x) && IsNearest(m, current, visited, y)
    ensures x == y
  {
  }

  /** `currentIndex`: row 0 before the first step, then the row of the
      intermediate visited last. */
  function CurrentRow(order: seq<nat>): nat
  {
    if order == [] then 0 else order[|order| - 1] + 1
  }

  /** Every step of order is the nearest pick from where the previous steps
      left off, among the intermediates they had not visited. */
  predicate IsGreedyOrder(m: Matrix, count: nat, order: seq<nat>)
  {
    order == [] ||
    var init := order[..|order| - 1];
    IsGreedyOrder(m, count, init) && IsNearest(m, CurrentRow(init), Marks(init, count), order[|order| - 1])
  }

  lemma GreedyExtend(m: Matrix, count: nat, order: seq<nat>, x: nat)
    requires IsGreedyOrder(m, count, order)
    requires IsNearest(m, CurrentRow(order), Marks(order, count), x)
    ensures IsGreedyOrder(m, count, order + [x])
  {
    assert (order + [x])[..|order|] == order;
  }

  /** A greedy order never repeats an intermediate and stays in range. */
  lemma {:induction false} GreedyDistinct(m: Matrix, count: nat, order: seq<nat>)
    requires IsGreedyOrder(m, count, order)
    ensures forall k :: 0 <= k < |order| ==> order[k] < count && order[k] !in order[..k]
  {
    if order != [] {
      var init := order[..|order| - 1];
      GreedyDistinct(m, count, init);
      forall k | 0 <= k < |order| ensures order[k] < count && order[k] !in order[..k] {
        if k < |init| {
          assert order[..k] == init[..k] && order[k] == init[k];
        } else {
          assert order[..k] == init;
        }
      }
    }
  }

  lemma MarksExtend(order: seq<nat>, count: nat, x: nat)
    requires x < count
    ensures Marks(order + [x], count) == Marks(order, count)[x := true]
  {
  }

  /** One step of the greedy loop: the pick extends the greedy order and
      marks one more intermediate. */
  lemma VisitStep(m: Matrix, count: nat, order: seq<nat>, x: nat)
    requires IsGreedyOrder(m, count, order) && CountTrue(Marks(order, count)) == |order|
    requires IsNearest(m, CurrentRow(order), Marks(order, count), x)
    ensures IsGreedyOrder(m, count, order + [x])
    ensures Marks(order + [x], count) == Marks(order, count)[x := true]
    ensures CountTrue(Marks(order + [x], count)) == |order| + 1
  {
    GreedyExtend(m, count, order, x);
    MarksExtend(order, count, x);
    CountTrueMark(Marks(order, count), x);
  }

  /** An order without repeats marks one cell per entry. */
  lemma {:induction false} CountMarks(order: seq<nat>, count: nat)
    requires forall k :: 0 <= k < |order| ==> order[k] < count && order[k] !in order[..k]
    ensures CountTrue(Marks(order, count)) == |order|
  {
    if order == [] {
      assert forall i :: 0 <= i < count ==> !Marks(order, count)[i];
    } else {
      var init := order[..|order| - 1];
      var x := order[|order| - 1];
      assert order == init + [x];
      forall k | 0 <= k < |init| ensures init[k] < count && init[k] !in init[..k] {
        assert init[..k] == order[..k];
      }
      CountMarks(init, count);
      MarksExtend(init, count, x);
      CountTrueMark(Marks(init, count), x);
    }
  }

  /** A greedy order as long as the intermediates visits every one of them,
      each exactly once. */
  lemma GreedyVisitsAll(m: Matrix, count: nat, order: seq<nat>)
    requires IsGreedyOrder(m, count, order) && |order| == count
    ensures forall i :: 0 <= i < count ==> i in order
    ensures forall a, b :: 0 <= a < b < |order| ==> order[a] != order[b]
  {
    GreedyDistinct(m, count, order);
    CountMarks(order, count);
    forall a, b | 0 <= a < b < |order| ensures order[a] != order[b] {
      assert order[a] in order[..b];
    }
  }

  /** The `for` scan of script.js:159-167 over the intermediates. */
  method NearestUnvisited(m: Matrix, current: nat, visited: array<bool>) returns (nearestIndex: int)
    requires Square(m) && |m| == visited.Length + 2 && current < |m|
    ensures nearestIndex == -1 <==> forall i :: 0 <= i < visited.Length ==> visited[i]
    ensures nearestIndex != -1 ==> 0 <= nearestIndex && IsNearest(m, current, visited[..], nearestIndex)
  {
    nearestIndex := -1;
    var nearestDistance := Inf;
    for i := 0 to visited.Length
      invariant nearestIndex == -1 <==> forall k :: 0 <= k < i ==> visited[k]
      invariant nearestIndex == -1 ==> nearestDistance == Inf
      invariant nearestIndex != -1 ==>
                  0 <= nearestIndex < i && !visited[nearestIndex] &&
                  nearestDistance == Fin(Cost(m, current, nearestIndex + 1))
      invariant forall k :: 0 <= k < i && !visited[k] ==> Le(nearestDistance, Fin(Cost(m, current, k + 1)))
      invariant forall k :: 0 <= k < nearestIndex && !visited[k] ==> Lt(nearestDistance, Fin(Cost(m, current, k + 1)))
    {
      if !visited[i] && Lt(Fin(Cost(m, current, i + 1)), nearestDistance) {
        nearestIndex := i;
        nearestDistance := Fin(Cost(m, current, i + 1));
      }
    }
  }

  /** The state of the greedy loop after the steps in order: `visited` marks
      exactly those intermediates, and `currentIndex` is the row of the last
      one (the start's row before the first step). */
  ghost predicate Walked(m: Matrix, count: nat, order: seq<nat>, visited: seq<bool>, currentIndex: nat)
  {
    && |order| <= count
    && visited == Marks(order, count)
    && CountTrue(visited) == |order|
    && currentIndex == CurrentRow(order) && currentIndex <= count
    && IsGreedyOrder(m, count, order)
  }

  /** Taking the nearest pick keeps the loop state consistent. */
  lemma WalkedStep(m: Matrix, count: nat, order: seq<nat>, visited: seq<bool>, currentIndex: nat, x: nat)
    requires Walked(m, count, order, visited, currentIndex)
    requires IsNearest(m, currentIndex, visited, x)
    ensures Walked(m, count, order + [x], visited[x := true], x + 1)
  {
    VisitStep(m, count, order, x);
  }

  /** The `while (waypoints.length < jsonData.length)` loop of
      script.js:158-179, with `waypoints.length` being one (the start) plus
      the intermediates visited so far. `count` is `intermediatePoints.length`
      and `total` is `jsonData.length`. */
  method NearestOrder(m: Matrix, count: nat, total: nat) returns (order: seq<nat>)
    requires Square(m) && |m| == count + 2
    ensures IsGreedyOrder(m, count, order)
    ensures |order| == if total == 0 then 0 else if total - 1 < count then total - 1 else count
  {
    var visited := new bool[count](_ => false);
    var currentIndex := 0;
    order := [];
    assert visited[..] == Marks(order, count);
    while |order| + 1 < total
      invariant Walked(m, count, order, visited[..], currentIndex)
      invariant |order| <= if total == 0 then 0 else total - 1
      decreases count - |order|
    {
      var nearestIndex := NearestUnvisited(m, currentIndex, visited);
      if nearestIndex == -1 {
        // Every intermediate is visited already.
        assert CountTrue(visited[..]) == count;
        break;
      }
      WalkedStep(m, count, order, visited[..], currentIndex, nearestIndex);
      visited[nearestIndex] := true;
      currentIndex := nearestIndex + 1;
      order := order + [nearestIndex];
    }
  }

  /** Point i sits strictly between the two ends of the route. */
  predicate InTour(route: seq<nat>, i: nat)
  {
    exists k :: 0 < k < |route| - 1 && route[k] == i
  }

  /** The point indices of the waypoint list: the start, the intermediates in
      visiting order (intermediate i is point i + 1), the end. */
  function Tour(order: seq<nat>, n: nat): (route: seq<nat>)
    requires n >= 1
    ensures |route| == |order| + 2 && route[0] == 0 && route[|route| - 1] == n - 1
    ensures forall k :: 0 <= k < |order| ==> route[k + 1] == order[k] + 1
  {
    [0] + seq(|order|, k requires 0 <= k < |order| => order[k] + 1) + [n - 1]
  }

  /** A tour over an order that lists every intermediate once passes through
      each of them exactly once between the start and the end. */
  lemma TourCoversAll(order: seq<nat>, count: nat, route: seq<nat>)
    requires |order| == count
    requires forall i :: 0 <= i < count ==> i in order
    requires forall a, b :: 0 <= a < b < |order| ==> order[a] != order[b]
    requires route == Tour(order, count + 2)
    ensures forall i :: 0 < i < count + 1 ==> InTour(route, i)
    ensures forall a, b :: 0 < a < b < count + 1 ==> route[a] != route[b]
  {
    forall i | 0 < i < count + 1 ensures InTour(route, i) {
      assert i - 1 in order;
      var k :| 0 <= k < |order| && order[k] == i - 1;
      assert route[k + 1] == i;
    }
    forall a, b | 0 < a < b < count + 1 ensures route[a] != route[b] {
      assert route[a] == order[a - 1] + 1 && route[b] == order[b - 1] + 1;
    }
  }
}
