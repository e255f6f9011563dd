/**
 Pheromone maps keyed by ordered node pairs (src/aco.rs, `Colony::
 populate_ant_pheromone` and `Colony::update_pheromone`). A missing entry
 reads as 0.
 */
module Pheromone {
  import Selection

  /** An ordered pair of node indices (from, to). */
  type Edge = (nat, nat)

  /** A pheromone map. */
  type Trail = map<Edge, real>

  /** The entry for `k`, with a missing entry counting as 0 (`get(..)` / `None => 0.0`). */
  function Get(m: Trail, k: Edge): real
  {
    if k in m then m[k] else 0.0
  }

  /** The same edge walked the other way. */
  function Flip(k: Edge): Edge
  {
    (k.1, k.0)
  }

  /** Both directions of every edge carry the same amount. */
  ghost predicate Symmetric(m: Trail)
  {
    forall u: nat, v: nat :: Get(m, (u, v)) == Get(m, (v, u))
  }

  /** `k` is the edge u -> v or the edge v -> u. */
  predicate Crosses(u: nat, v: nat, k: Edge)
  {
    k == (u, v) || k == (v, u)
  }

  /**
   One pass of the deposit loop (lines 166-174): read the entry for (u, v),
   and store it plus `a` under both (u, v) and (v, u).
   */
  function Step(m: Trail, u: nat, v: nat, a: real): Trail
  {
    var c := Get(m, (u, v));
    m[(u, v) := c + a][(v, u) := c + a]
  }

  /** The map after the first `n` passes of the deposit loop over `route`. */
  function DepositPrefix(m: Trail, route: seq<nat>, a: real, n: nat): Trail
    requires n == 0 || n < |route|
  {
    if n == 0 then m
    else Step(DepositPrefix(m, route, a, n - 1), route[n - 1], route[n], a)
  }

  /** How many of the first `n` edges of `route` cross `k` in either direction. */
  function Crossings(route: seq<nat>, n: nat, k: Edge): nat
    requires n == 0 || n < |route|
  {
    if n == 0 then 0
    else Crossings(route, n - 1, k) + (if Crosses(route[n - 1], route[n], k) then 1 else 0)
  }

  /**
   What `populate_ant_pheromone` leaves in `m` for one ant: every edge of its
   route receives `value / length`. A route of one node has no edge, so
   nothing is divided.
   */
  function AntDeposit(m: Trail, route: seq<nat>, length: real, value: real): Trail
    requires |route| >= 2 ==> length != 0.0
  {
    if |route| < 2 then m else DepositPrefix(m, route, value / length, |route| - 1)
  }

  /** One entry after evaporation at rate `e`: what is left of `v`. */
  function Decay(v: real, e: real): (r: real)
    ensures 0.0 <= v && e <= 1.0 ==> r >= 0.0
  {
    v * (1.0 - e)
  }

  /** Every entry multiplied by `1 - e` (lines 156-158). */
  function Evaporate(m: Trail, e: real): Trail
  {
    map k | k in m :: Decay(m[k], e)
  }

  /** `d` added into `m`, a missing entry on either side counting as 0 (lines 159-161). */
  function Merge(m: Trail, d: Trail): Trail
  {
    map k | k in m.Keys + d.Keys :: Get(m, k) + Get(d, k)
  }

  /** On a symmetric map, reading an edge either way gives the same amount. */
  lemma GetFlip(m: Trail, k: Edge)
    requires Symmetric(m)
    ensures Get(m, Flip(k)) == Get(m, k)
  {
    assert Get(m, (k.0, k.1)) == Get(m, (k.1, k.0));
  }

  /**
   On a symmetric map, a deposit pass adds `a` to the edge it crosses, in
   both directions, and leaves every other entry as it was.
   */
  lemma StepAdds(m: Trail, u: nat, v: nat, a: real, k: Edge)
    requires Symmetric(m)
    ensures Get(Step(m, u, v, a), k) == Get(m, k) + (if Crosses(u, v, k) then a else 0.0)
  {
    GetFlip(m, (u, v));
  }

  /** A deposit pass keeps a symmetric map symmetric. */
  lemma StepSymmetric(m: Trail, u: nat, v: nat, a: real)
    requires Symmetric(m)
    ensures Symmetric(Step(m, u, v, a))
  {
    var s := Step(m, u, v, a);
    forall x: nat, y: nat
      ensures Get(s, (x, y)) == Get(s, (y, x))
    {
      StepAdds(m, u, v, a, (x, y));
      StepAdds(m, u, v, a, (y, x));
      GetFlip(m, (x, y));
    }
  }

  /** The deposit loop keeps a symmetric map symmetric. */
  lemma {:induction false} DepositSymmetric(m: Trail, route: seq<nat>, a: real, n: nat)
    requires n == 0 || n < |route|
    requires Symmetric(m)
    ensures Symmetric(DepositPrefix(m, route, a, n))
  {
    if n > 0 {
      DepositSymmetric(m, route, a, n - 1);
      StepSymmetric(DepositPrefix(m, route, a, n - 1), route[n - 1], route[n], a);
    }
  }

  /** Non-negative deposits keep a non-negative map non-negative. */
  lemma {:induction false} DepositNonNegative(m: Trail, route: seq<nat>, a: real, n: nat)
    requires n == 0 || n < |route|
    requires Selection.NonNegative(m) && a >= 0.0
    ensures Selection.NonNegative(DepositPrefix(m, route, a, n))
  {
    if n > 0 {
      DepositNonNegative(m, route, a, n - 1);
      var p := DepositPrefix(m, route, a, n - 1);
      assert Get(p, (route[n - 1], route[n])) >= 0.0;
    }
  }

  /** `a` added to itself `c` times: what `c` deposits of `a` contribute. */
  function Times(a: real, c: nat): real
  {
    if c == 0 then 0.0 else Times(a, c - 1) + a
  }

  /**
   Deposits accumulate: on a symmetric map, after the first `n` passes every
   entry has grown by `a` once per edge of the route that crosses it, in
   either direction, and by nothing else.
   */
  lemma {:induction false} DepositCounts(m: Trail, route: seq<nat>, a: real, n: nat, k: Edge)
    requires n == 0 || n < |route|
    requires Symmetric(m)
    ensures Get(DepositPrefix(m, route, a, n), k) == Get(m, k) + Times(a, Crossings(route, n, k))
  {
    if n > 0 {
      DepositCounts(m, route, a, n - 1, k);
      DepositSymmetric(m, route, a, n - 1);
      StepAdds(DepositPrefix(m, route, a, n - 1), route[n - 1], route[n], a, k);
    }
  }

  /**
   One ant's deposit on a symmetric, non-negative map, with a positive tour
   length whenever the route has an edge and a non-negative deposit value,
   keeps the map symmetric and non-negative, and adds `value / length` to
   each entry once per crossing of that edge.
   */
  lemma AntDepositProperties(m: Trail, route: seq<nat>, length: real, value: real, k: Edge)
    requires Symmetric(m) && Selection.NonNegative(m)
    requires (|route| >= 2 ==> length > 0.0) && value >= 0.0
    ensures Symmetric(AntDeposit(m, route, length, value))
    ensures Selection.NonNegative(AntDeposit(m, route, length, value))
    ensures Get(AntDeposit(m, route, length, value), k)
         == Get(m, k) + (if |route| < 2 then 0.0 else Times(value / length, Crossings(route, |route| - 1, k)))
  {
    if |route| >= 2 {
      DepositSymmetric(m, route, value / length, |route| - 1);
      DepositNonNegative(m, route, value / length, |route| - 1);
      DepositCounts(m, route, value / length, |route| - 1, k);
    }
  }

  /**
   The round's update (`update_pheromone`): the new map's keys are those of
   the old map and of the deltas, and each entry is the old entry times
   `1 - e` plus the delta, a missing entry counting as 0.
   */
  lemma UpdateEntry(m: Trail, d: Trail, e: real, k: Edge)
    ensures Merge(Evaporate(m, e), d).Keys == m.Keys + d.Keys
    ensures Get(Merge(Evaporate(m, e), d), k) == Get(m, k) * (1.0 - e) + Get(d, k)
  {
  }

  /** With `0 <= e <= 1` and non-negative deltas no entry becomes negative. */
  lemma UpdateNonNegative(m: Trail, d: Trail, e: real)
    requires Selection.NonNegative(m) && Selection.NonNegative(d) && 0.0 <= e <= 1.0
    ensures Selection.NonNegative(Merge(Evaporate(m, e), d))
  {
    var u := Merge(Evaporate(m, e), d);
    forall k | k in u
      ensures u[k] >= 0.0
    {
      if k in m {
        assert m[k] * (1.0 - e) >= 0.0;
      }
    }
  }

  /** Evaporating a symmetric map and merging symmetric deltas keeps it symmetric. */
  lemma UpdateSymmetric(m: Trail, d: Trail, e: real)
    requires Symmetric(m) && Symmetric(d)
    ensures Symmetric(Merge(Evaporate(m, e), d))
  {
    var u := Merge(Evaporate(m, e), d);
    forall x: nat, y: nat
      ensures Get(u, (x, y)) == Get(u, (y, x))
    {
      UpdateEntry(m, d, e, (x, y));
      UpdateEntry(m, d, e, (y, x));
      GetFlip(m, (x, y));
      GetFlip(d, (x, y));
    }
  }
}
