/** The distance table the routing service returns, read as a directed graph,
    and the tentative distances the shortest-path search keeps. */
module Graph {
  import opened Common

  /** A tentative distance: a finite number of metres, or JavaScript's `Infinity`. */
  datatype Dist = Fin(cost: nat) | Inf

  /** JavaScript's `a <= b` on numbers that may be `Infinity`. */
  predicate Le(a: Dist, b: Dist)
  {
    b.Inf? || (a.Fin? && a.cost <= b.cost)
  }

  /** JavaScript's `a < b` on numbers that may be `Infinity`. */
  predicate Lt(a: Dist, b: Dist)
  {
    a.Fin? && (b.Inf? || a.cost < b.cost)
  }

  /** `a + w` for a reached distance `a`. */
  function Plus(a: Dist, w: nat): Dist
  {
    match a
    case Fin(c) => Fin(c + w)
    case Inf => Inf
  }

  /** One cell of the distance table: a number of metres, or `null` when the
      service found no route between the two points. */
  type Entry = Option<nat>

  /** `distances[i][j]`, the cost of driving from point i to point j. */
  type Matrix = seq<seq<Entry>>

  /** The table has one row and one column per point. */
  predicate Square(m: Matrix)
  {
    forall i :: 0 <= i < |m| ==> |m[i]| == |m|
  }

  /** The truthiness test `distances[u][v]`: a cell that is `null` or `0` is no edge. */
  predicate Edge(m: Matrix, u: nat, v: nat)
  {
    u < |m| && v < |m[u]| && m[u][v].Some? && m[u][v].value > 0
  }

  /** The cost of the edge u -> v (0 where there is no cell). */
  function Weight(m: Matrix, u: nat, v: nat): nat
  {
    if u < |m| && v < |m[u]| && m[u][v].Some? then m[u][v].value else 0
  }

  /** A walk through the table that only uses truthy cells. */
  predicate IsPath(m: Matrix, p: seq<nat>, s: nat, t: nat)
  {
    && |p| >= 1 && p[0] == s && p[|p| - 1] == t
    && (forall k :: 0 <= k < |p| ==> p[k] < |m|)
    && (forall k :: 0 <= k < |p| - 1 ==> Edge(m, p[k], p[k + 1]))
  }

  /** There is some walk from s to t over truthy cells. */
  ghost predicate Reachable(m: Matrix, s: nat, t: nat)
  {
    exists p :: IsPath(m, p, s, t)
  }

  /** The total cost of a walk, summed from its last edge backwards. */
  function PathWeight(m: Matrix, p: seq<nat>): nat
  {
    if |p| <= 1 then 0 else PathWeight(m, p[..|p| - 1]) + Weight(m, p[|p| - 2], p[|p| - 1])
  }

  /** p is a walk from s to t, and no walk from s to t costs less. */
  ghost predicate IsShortestPath(m: Matrix, p: seq<nat>, s: nat, t: nat)
  {
    IsPath(m, p, s, t) && forall q :: IsPath(m, q, s, t) ==> PathWeight(m, p) <= PathWeight(m, q)
  }
}
