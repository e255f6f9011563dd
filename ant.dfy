/**
 One ant of the colony (src/aco.rs, `struct Ant` and its methods): it stands
 on a node, keeps the list of nodes it may still visit, and builds its
 route one decision at a time until that list is empty.
 */
module AntAgent {
  import opened Geometry
  import opened Routes
  import opened Pheromone
  import Selection

  /** Removing a node from a list of in-range nodes leaves them in range. */
  lemma InRangeRemoveFirst(nodes: seq<Point>, s: seq<nat>, x: nat)
    requires x in s && InRange(nodes, s)
    ensures InRange(nodes, RemoveFirst(s, x))
  {
    var r := RemoveFirst(s, x);
    forall i | 0 <= i < |r|
      ensures r[i] < |nodes|
    {
      assert r[i] in multiset(r);
      var j :| 0 <= j < |s| && s[j] == r[i];
    }
  }

  class Ant {
    var location: nat
    var alpha: real
    var beta: real
    var distanceTravelled: real
    var firstRound: bool
    var allowed: seq<nat>
    var pheromone: Trail
    var route: seq<nat>

    /** `Ant::new`: an ant with an empty route that has travelled nothing yet. */
    constructor (location: nat, alpha: real, beta: real, firstRound: bool, allowed: seq<nat>, pheromone: Trail)
      ensures this.location == location && this.alpha == alpha && this.beta == beta
      ensures this.firstRound == firstRound && this.allowed == allowed && this.pheromone == pheromone
      ensures distanceTravelled == 0.0 && route == []
    {
      this.location := location;
      this.alpha := alpha;
      this.beta := beta;
      this.distanceTravelled := 0.0;
      this.firstRound := firstRound;
      this.allowed := allowed;
      this.pheromone := pheromone;
      this.route := [];
    }

    /**
     The attractiveness of every allowed node seen from the current location:
     `score(pheromone, distance)` stands for the source's
     `pheromone^alpha * (1 / distance)^beta`.
     */
    function Attractiveness(nodes: seq<Point>, score: (real, real) -> real): (attr: map<nat, real>)
      reads this
      requires location < |nodes| && InRange(nodes, allowed)
      ensures forall a :: a in attr <==> a in allowed
      ensures Selection.Covers(allowed, attr)
      ensures (forall p, d :: score(p, d) >= 0.0) ==> Selection.NonNegative(attr)
    {
      map a | a in allowed :: score(Get(pheromone, (location, a)), Distance(nodes, location, a))
    }

    /** The sum of the attractiveness of the allowed nodes (`total_sum`). */
    function TotalAttractiveness(nodes: seq<Point>, score: (real, real) -> real): (total: real)
      reads this
      requires location < |nodes| && InRange(nodes, allowed)
      ensures (forall p, d :: score(p, d) >= 0.0) ==> total >= 0.0
    {
      Selection.SumOver(allowed, Attractiveness(nodes, score))
    }

    /**
     Lines 45-57 of `Ant::decide`: score every allowed node and sum the
     scores in the order of the allowed list.
     */
    method ScoreAllowed(nodes: seq<Point>, score: (real, real) -> real)
      returns (attractiveness: map<nat, real>, totalSum: real)
      requires location < |nodes| && InRange(nodes, allowed)
      ensures attractiveness == Attractiveness(nodes, score)
      ensures totalSum == TotalAttractiveness(nodes, score)
    {
      ghost var spec := Attractiveness(nodes, score);
      attractiveness := map[];
      totalSum := 0.0;
      var i := 0;
      while i < |allowed|
        invariant 0 <= i <= |allowed|
        invariant forall a :: a in attractiveness <==> a in allowed[..i]
        invariant forall a :: a in attractiveness ==> attractiveness[a] == spec[a]
        invariant totalSum == Selection.SumOver(allowed[..i], spec)
      {
        var candidate := allowed[i];
        var pherAmount := Get(pheromone, (location, candidate));
        var distance := Distance(nodes, location, candidate);
        var edgeProb := score(pherAmount, distance);
        attractiveness := attractiveness[candidate := edgeProb];
        assert allowed[..i + 1] == allowed[..i] + [candidate];
        Selection.SumOverAppend(allowed[..i], [candidate], spec);
        totalSum := totalSum + edgeProb;
        i := i + 1;
      }
      assert allowed[..i] == allowed;
    }

    /**
     `Ant::decide`: the next node to visit. In the first round it is the
     allowed node at the drawn index `pick` (`choose`); later it is the
     roulette choice over the allowed nodes, listed in the score map's
     iteration order `keys`, with the draw `r` in [0, 1) (`rand::random`).
     With exact arithmetic the choice is always an allowed node.
     */
    method Decide(nodes: seq<Point>, score: (real, real) -> real, keys: seq<nat>, pick: nat, r: real)
      returns (next: nat)
      requires allowed != []
      requires location < |nodes| && InRange(nodes, allowed)
      requires multiset(keys) == multiset(allowed)
      requires forall p, d :: score(p, d) >= 0.0
      requires 0.0 <= r < 1.0
      ensures next in allowed
      ensures firstRound ==> next == allowed[pick % |allowed|]
      ensures !firstRound ==> Selection.Covers(keys, Attractiveness(nodes, score))
      ensures !firstRound ==>
        next == Selection.Select(keys, Attractiveness(nodes, score), TotalAttractiveness(nodes, score), r)
      ensures !firstRound && TotalAttractiveness(nodes, score) == 0.0 ==> next == keys[0]
    {
      if firstRound {
        next := allowed[pick % |allowed|];
        return;
      }
      var attractiveness, totalSum := ScoreAllowed(nodes, score);
      Selection.SumOverPermutation(allowed, keys, attractiveness);
      Selection.SelectChoosesCandidate(keys, attractiveness, totalSum, r);
      if totalSum == 0.0 {
        totalSum := Selection.MinPositive;
        attractiveness := Selection.FloorScores(attractiveness);
      }
      next := Selection.Roulette(keys, attractiveness, totalSum, r);
      assert next in multiset(allowed);
    }

    /**
     `Ant::move_`: remove the first occurrence of `end` from the allowed list
     (the source panics when there is none), append it to the route, add
     the edge from the current location, and stand on `end`. Nothing else
     changes.
     */
    method Move(nodes: seq<Point>, end: nat)
      requires end in allowed
      requires location < |nodes| && InRange(nodes, allowed)
      modifies this
      ensures allowed == RemoveFirst(old(allowed), end)
      ensures multiset(allowed) == multiset(old(allowed)) - multiset{end}
      ensures InRange(nodes, allowed)
      ensures route == old(route) + [end]
      ensures distanceTravelled == old(distanceTravelled) + Distance(nodes, old(location), end)
      ensures location == end
      ensures alpha == old(alpha) && beta == old(beta)
      ensures firstRound == old(firstRound) && pheromone == old(pheromone)
    {
      var val := Position(allowed, end);
      RemoveFirstAt(allowed, end, val);
      InRangeRemoveFirst(nodes, allowed, end);
      allowed := allowed[..val] + allowed[val + 1..];
      route := route + [end];
      distanceTravelled := distanceTravelled + Distance(nodes, location, end);
      location := end;
    }

    /** One pass of the loop in `Ant::run`: decide, then move there. */
    method Advance(nodes: seq<Point>, score: (real, real) -> real, keys: seq<nat>, pick: nat, r: real)
      returns (next: nat)
      requires allowed != []
      requires location < |nodes| && InRange(nodes, allowed)
      requires multiset(keys) == multiset(allowed)
      requires forall p, d :: score(p, d) >= 0.0
      requires 0.0 <= r < 1.0
      modifies this
      ensures next in old(allowed) && next < |nodes|
      ensures multiset(allowed) == multiset(old(allowed)) - multiset{next}
      ensures |allowed| == |old(allowed)| - 1 && InRange(nodes, allowed)
      ensures route == old(route) + [next]
      ensures distanceTravelled == old(distanceTravelled) + Distance(nodes, old(location), next)
      ensures location == next
      ensures alpha == old(alpha) && beta == old(beta)
      ensures firstRound == old(firstRound) && pheromone == old(pheromone)
    {
      next := Decide(nodes, score, keys, pick, r);
      Move(nodes, next);
    }

    /**
     `Ant::run`: decide and move until no node is left. Step `i` uses the
     draws `picks[i]` and `draws[i]` and the key order `arrange(i, allowed)`.
     Afterwards the allowed list is empty, the nodes it held have been
     appended to the route (each once, in some order), the distance has
     grown by the length of that walk from the starting location, and the
     ant stands on the last node of that walk.
     */
    method Run(nodes: seq<Point>, score: (real, real) -> real, arrange: (nat, seq<nat>) -> seq<nat>,
               picks: seq<nat>, draws: seq<real>)
      requires location < |nodes| && InRange(nodes, allowed)
      requires |picks| >= |allowed| && |draws| >= |allowed|
      requires forall i :: 0 <= i < |draws| ==> 0.0 <= draws[i] < 1.0
      requires forall p, d :: score(p, d) >= 0.0
      requires forall i: nat, s: seq<nat> :: multiset(arrange(i, s)) == multiset(s)
      modifies this
      ensures allowed == []
      ensures |route| == old(|route|) + old(|allowed|)
      ensures route[..old(|route|)] == old(route)
      ensures multiset(route[old(|route|)..]) == old(multiset(allowed))
      ensures InRange(nodes, route[old(|route|)..])
      ensures distanceTravelled == old(distanceTravelled) + PathLength(nodes, old(location), route[old(|route|)..])
      ensures location == Last(old(location), route[old(|route|)..])
      ensures alpha == old(alpha) && beta == old(beta)
      ensures firstRound == old(firstRound) && pheromone == old(pheromone)
    {
      ghost var r0 := |route|;
      ghost var start := location;
      ghost var initial := allowed;
      var step := 0;
      while allowed != []
        invariant step + |allowed| == |initial|
        invariant |route| == r0 + step
        invariant route[..r0] == old(route)
        invariant multiset(route[r0..]) + multiset(allowed) == multiset(initial)
        invariant location < |nodes| && InRange(nodes, allowed)
        invariant InRange(nodes, route[r0..]) && location == Last(start, route[r0..])
        invariant distanceTravelled == old(distanceTravelled) + PathLength(nodes, start, route[r0..])
        invariant alpha == old(alpha) && beta == old(beta)
        invariant firstRound == old(firstRound) && pheromone == old(pheromone)
        decreases |allowed|
      {
        ghost var before := allowed;
        ghost var walked := route[r0..];
        ghost var travelled := distanceTravelled;
        var keys := arrange(step, allowed);
        var next := Advance(nodes, score, keys, picks[step], draws[step]);
        PathLengthSnoc(nodes, start, walked, next);
        assert route[r0..] == walked + [next];
        step := step + 1;
      }
    }
  }
}
