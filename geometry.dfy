/**
 Node coordinates and the edge length an ant accumulates while it walks
 (`Ant::distance` in src/aco.rs).
 */
module Geometry {

  /** A node: integer window coordinates (x, y). */
  type Point = (nat, nat)

  /** Every index of `path` names a node of `nodes`. */
  predicate InRange(nodes: seq<Point>, path: seq<nat>)
  {
    forall i :: 0 <= i < |path| ==> path[i] < |nodes|
  }

  /**
   The length of the edge p1 -> p2: the squared Euclidean distance of the
   two nodes' integer coordinates. The source takes the square root of this
   value; the model keeps the square (see README, "Left out").
   */
  function Distance(nodes: seq<Point>, p1: nat, p2: nat): (d: real)
    requires p1 < |nodes| && p2 < |nodes|
    ensures d >= 0.0
    ensures d == 0.0 <==> nodes[p1] == nodes[p2]
  {
    var dx := nodes[p2].0 as int - nodes[p1].0 as int;
    var dy := nodes[p2].1 as int - nodes[p1].1 as int;
    SquaresVanish(dx, dy);
    (dx * dx + dy * dy) as real
  }

  /** A sum of two squares is non-negative and is zero only when both are. */
  lemma SquaresVanish(dx: int, dy: int)
    ensures dx * dx + dy * dy >= 0
    ensures dx * dx + dy * dy == 0 <==> dx == 0 && dy == 0
  {
    assert dx * dx >= 0 && dy * dy >= 0;
    if dx != 0 {
      assert dx * dx > 0;
    }
    if dy != 0 {
      assert dy * dy > 0;
    }
  }

  /** The edge length does not depend on the direction of travel. */
  lemma DistanceSymmetric(nodes: seq<Point>, p: nat, q: nat)
    requires p < |nodes| && q < |nodes|
    ensures Distance(nodes, p, q) == Distance(nodes, q, p)
  {
    var dx := nodes[q].0 as int - nodes[p].0 as int;
    var dy := nodes[q].1 as int - nodes[p].1 as int;
    assert (-dx) * (-dx) == dx * dx;
    assert (-dy) * (-dy) == dy * dy;
  }

  /** A node is at distance zero from itself. */
  lemma DistanceToSelf(nodes: seq<Point>, p: nat)
    requires p < |nodes|
    ensures Distance(nodes, p, p) == 0.0
  {
  }

  /** The node an ant stands on after walking `path` from `from`. */
  function Last(from: nat, path: seq<nat>): nat
  {
    if path == [] then from else path[|path| - 1]
  }

  /**
   The distance accumulated by walking `path` edge by edge, starting at the
   node `from` (the first edge leaves `from`; no edge returns to it).
   */
  function PathLength(nodes: seq<Point>, from: nat, path: seq<nat>): (len: real)
    requires from < |nodes| && InRange(nodes, path)
    ensures len >= 0.0
    decreases |path|
  {
    if path == [] then 0.0
    else Distance(nodes, from, path[0]) + PathLength(nodes, path[0], path[1..])
  }

  /** Walking one more node adds exactly the edge from the current end to it. */
  lemma {:induction false} PathLengthSnoc(nodes: seq<Point>, from: nat, path: seq<nat>, x: nat)
    requires from < |nodes| && InRange(nodes, path) && x < |nodes|
    ensures InRange(nodes, path + [x]) && Last(from, path) < |nodes|
    ensures PathLength(nodes, from, path + [x])
         == PathLength(nodes, from, path) + Distance(nodes, Last(from, path), x)
    decreases |path|
  {
    assert InRange(nodes, path + [x]);
    if path != [] {
      assert (path + [x])[0] == path[0];
      assert (path + [x])[1..] == path[1..] + [x];
      PathLengthSnoc(nodes, path[0], path[1..], x);
      assert Last(path[0], path[1..]) == Last(from, path);
    }
  }

  /**
   A walk that reaches a node lying elsewhere than its start has positive
   length: no tour through two separate points is free.
   */
  lemma {:induction false} PathLengthPositive(nodes: seq<Point>, from: nat, path: seq<nat>, i: nat)
    requires from < |nodes| && InRange(nodes, path)
    requires i < |path| && nodes[path[i]] != nodes[from]
    ensures PathLength(nodes, from, path) > 0.0
    decreases |path|
  {
    if nodes[path[0]] == nodes[from] {
      assert i > 0;
      assert path[1..][i - 1] == path[i];
      PathLengthPositive(nodes, path[0], path[1..], i - 1);
    }
  }
}
