/**
 The colony (src/aco.rs, `struct Colony`): it owns the nodes and the
 pheromone map, runs a batch of ants per round, folds their tours into a
 round's pheromone deposits and the best tour so far, evaporates and merges,
 and creates the next batch of ants.
 */
module ColonyEngine {
  import opened Geometry
  import opened Routes
  import opened Pheromone
  import opened AntAgent
  import Selection

  /** What one ant leaves behind at the end of a round. */
  datatype Tour = Tour(route: seq<nat>, length: real)

  /** The best tour so far; distance `0.0` and an empty path mean "none yet". */
  datatype Best = Best(distance: real, path: seq<nat>)

  /**
   Lines 137-146 for one ant: a zero distance and an empty path are
   "unset" and are filled from the ant first; then the ant replaces the
   best tour only if its distance is strictly smaller.
   */
  function UpdateBest(b: Best, t: Tour): Best
  {
    var d := if b.distance == 0.0 then t.length else b.distance;
    var p := if b.path == [] then t.route else b.path;
    if t.length < d then Best(t.length, t.route) else Best(d, p)
  }

  /** `UpdateBest` applied to the ants' tours in order. */
  function FoldBest(b: Best, tours: seq<Tour>): Best
  {
    if tours == [] then b else UpdateBest(FoldBest(b, tours[..|tours| - 1]), tours[|tours| - 1])
  }

  /** Every tour has a positive length. */
  predicate LengthsPositive(tours: seq<Tour>)
  {
    forall i :: 0 <= i < |tours| ==> tours[i].length > 0.0
  }

  /** Every tour has length zero (all nodes on one point). */
  predicate LengthsZero(tours: seq<Tour>)
  {
    forall i :: 0 <= i < |tours| ==> tours[i].length == 0.0
  }

  /** `path` is the earlier best path or the route of one of the tours. */
  ghost predicate PathFrom(path: seq<nat>, b: Best, tours: seq<Tour>)
  {
    path == b.path || exists i :: 0 <= i < |tours| && path == tours[i].route
  }

  /**
   The best tour after a round: once set, the best distance never grows,
   it is at most every ant's distance, it is never negative, and the best
   path is the earlier one or an ant's route. The tours of one colony are
   either all of positive length or all of length zero.
   */
  lemma {:induction false} FoldBestBounds(b: Best, tours: seq<Tour>)
    requires b.distance >= 0.0
    requires LengthsPositive(tours) || LengthsZero(tours)
    ensures FoldBest(b, tours).distance >= 0.0
    ensures b.distance != 0.0 ==> FoldBest(b, tours).distance <= b.distance
    ensures forall i :: 0 <= i < |tours| ==> FoldBest(b, tours).distance <= tours[i].length
    ensures LengthsPositive(tours) && tours != [] ==> FoldBest(b, tours).distance > 0.0
    ensures PathFrom(FoldBest(b, tours).path, b, tours)
  {
    if tours != [] {
      var init := tours[..|tours| - 1];
      var t := tours[|tours| - 1];
      assert LengthsPositive(init) || LengthsZero(init);
      FoldBestBounds(b, init);
      var prev := FoldBest(b, init);
      var r := FoldBest(b, tours);
      assert r == UpdateBest(prev, t);
      forall i | 0 <= i < |tours|
        ensures r.distance <= tours[i].length
      {
        if i < |tours| - 1 {
          assert tours[i] == init[i];
        }
      }
      if prev.path == b.path {
      } else {
        var j :| 0 <= j < |init| && prev.path == init[j].route;
        assert init[j] == tours[j];
      }
    }
  }

  /**
   The inputs that stand for the randomness of one round of `count` ants
   on `n` nodes: for every ant, a first-round pick and a roulette draw in
   [0, 1) per step and a HashMap key order that permutes what it is given,
   and a score function that is never negative.
   */
  ghost predicate RoundInputs(n: nat, count: nat, score: (real, real) -> real,
                              arranges: seq<(nat, seq<nat>) -> seq<nat>>, picks: seq<seq<nat>>, draws: seq<seq<real>>)
  {
    && |picks| >= count && |draws| >= count && |arranges| >= count
    && (forall i :: 0 <= i < count ==> |picks[i]| >= n && |draws[i]| >= n)
    && (forall i, j :: 0 <= i < |draws| && 0 <= j < |draws[i]| ==> 0.0 <= draws[i][j] < 1.0)
    && (forall p, d :: score(p, d) >= 0.0)
    && (forall a, i: nat, s: seq<nat> :: 0 <= a < |arranges| ==> multiset(arranges[a](i, s)) == multiset(s))
  }

  /** `r` is the earlier best `b`, or one ant's tour strictly shorter than `b`. */
  ghost predicate KeptOrBeaten(r: Best, b: Best, tours: seq<Tour>)
  {
    r == b || (r.distance < b.distance && exists i :: 0 <= i < |tours| && r == Best(tours[i].length, tours[i].route))
  }

  /**
   A best tour that is set is replaced only by a strictly shorter ant's
   tour (the `<` of line 143): a tie keeps the earlier best.
   */
  lemma {:induction false} FoldBestStrict(b: Best, tours: seq<Tour>)
    requires b.distance > 0.0 && b.path != []
    requires LengthsPositive(tours) || LengthsZero(tours)
    requires forall i :: 0 <= i < |tours| ==> tours[i].route != []
    ensures KeptOrBeaten(FoldBest(b, tours), b, tours)
  {
    if tours != [] {
      var init := tours[..|tours| - 1];
      var t := tours[|tours| - 1];
      assert forall i :: 0 <= i < |init| ==> init[i] == tours[i];
      assert LengthsPositive(init) || LengthsZero(init);
      FoldBestStrict(b, init);
      var prev := FoldBest(b, init);
      var r := FoldBest(b, tours);
      assert r == UpdateBest(prev, t);
      if r == Best(t.length, t.route) {
        assert tours[|tours| - 1] == t;
      } else if prev != b {
        var j :| 0 <= j < |init| && prev == Best(init[j].length, init[j].route);
        assert tours[j] == init[j];
        assert r == prev;
      }
    }
  }

  /** Every tour can be deposited: it has a node, and an edge only with a positive length. */
  predicate Depositable(tours: seq<Tour>)
  {
    forall i :: 0 <= i < |tours| ==> |tours[i].route| >= 1 && (|tours[i].route| >= 2 ==> tours[i].length > 0.0)
  }

  /** The round's deposit map: each ant's deposit added onto `m` in turn. */
  function Deposited(m: Trail, tours: seq<Tour>, value: real): Trail
    requires Depositable(tours)
  {
    if tours == [] then m
    else
      var t := tours[|tours| - 1];
      AntDeposit(Deposited(m, tours[..|tours| - 1], value), t.route, t.length, value)
  }

  /** The total every ant's tour contributes to the entry `k`. */
  function Contribution(tours: seq<Tour>, value: real, k: Edge): real
    requires Depositable(tours)
  {
    if tours == [] then 0.0
    else
      var t := tours[|tours| - 1];
      Contribution(tours[..|tours| - 1], value, k)
        + (if |t.route| < 2 then 0.0 else Times(value / t.length, Crossings(t.route, |t.route| - 1, k)))
  }

  /**
   Deposits from several ants add up: the round's map is symmetric and
   non-negative, and each entry is the sum over the ants of `value / length`
   per crossing of that edge, never just the largest or the last.
   */
  lemma {:induction false} DepositedProperties(m: Trail, tours: seq<Tour>, value: real, k: Edge)
    requires Symmetric(m) && Selection.NonNegative(m) && value >= 0.0
    requires Depositable(tours)
    ensures Symmetric(Deposited(m, tours, value)) && Selection.NonNegative(Deposited(m, tours, value))
    ensures Get(Deposited(m, tours, value), k) == Get(m, k) + Contribution(tours, value, k)
  {
    if tours != [] {
      var init := tours[..|tours| - 1];
      var t := tours[|tours| - 1];
      assert Depositable(init);
      DepositedProperties(m, init, value, k);
      AntDepositProperties(Deposited(m, init, value), t.route, t.length, value, k);
    }
  }

  /** There is a node lying elsewhere than node 0. */
  ghost predicate Separated(nodes: seq<Point>)
  {
    exists j :: 0 <= j < |nodes| && nodes[j] != nodes[0]
  }

  /**
   A walk from node 0 that holds every node once is a tour; its length is
   zero when there is a single node and positive when some node lies
   elsewhere than node 0.
   */
  lemma WalkLength(nodes: seq<Point>, route: seq<nat>)
    requires 0 < |nodes| && multiset(route) == multiset(Range(|nodes|))
    ensures IsTour(route, |nodes|) && InRange(nodes, route)
    ensures |nodes| == 1 ==> PathLength(nodes, 0, route) == 0.0
    ensures Separated(nodes) ==> PathLength(nodes, 0, route) > 0.0
  {
    PermutationOfRangeIsTour(route, |nodes|);
    if |nodes| == 1 {
      assert route == [0] && route[1..] == [];
    }
    if Separated(nodes) {
      var j :| 0 <= j < |nodes| && nodes[j] != nodes[0];
      var x: nat := j;
      assert x in route;
      var i :| 0 <= i < |route| && route[i] == x;
      PathLengthPositive(nodes, 0, route, i);
    }
  }

  /**
   `t` is a finished ant's tour: a tour of all nodes walked from node 0 and
   its length, zero for a single node and positive once it has an edge.
   */
  ghost predicate Walked(nodes: seq<Point>, t: Tour)
  {
    && 0 < |nodes|
    && IsTour(t.route, |nodes|) && InRange(nodes, t.route)
    && t.length == PathLength(nodes, 0, t.route)
    && (|nodes| == 1 ==> t.length == 0.0)
    && (|t.route| >= 2 ==> t.length > 0.0)
  }

  /** One more ant's tour extends the round's deposits and the best-tour fold by one step. */
  lemma RoundExtend(m: Trail, b: Best, tours: seq<Tour>, t: Tour, value: real)
    requires Depositable(tours) && |t.route| >= 1 && (|t.route| >= 2 ==> t.length > 0.0)
    ensures Depositable(tours + [t])
    ensures Deposited(m, tours + [t], value) == AntDeposit(Deposited(m, tours, value), t.route, t.length, value)
    ensures FoldBest(b, tours + [t]) == UpdateBest(FoldBest(b, tours), t)
  {
    assert (tours + [t])[..|tours|] == tours;
  }

  /**
   The recorded best tour is unset (distance 0 and no path) or is one of
   the walked tours: its distance is the length of its own path.
   */
  ghost predicate Recorded(nodes: seq<Point>, b: Best)
  {
    b == Best(0.0, []) || Walked(nodes, Tour(b.path, b.distance))
  }

  /** A recorded best tour has a non-negative distance and is unset or a tour. */
  lemma RecordedBounds(nodes: seq<Point>, b: Best)
    requires Recorded(nodes, b)
    ensures b.distance >= 0.0 && (b.path == [] || IsTour(b.path, |nodes|))
  {
  }

  /**
   The best distance and path are replaced together: starting from an
   unset or walked best tour, the fold over walked tours is again unset or
   one walked tour.
   */
  lemma {:induction false} FoldBestRecorded(nodes: seq<Point>, b: Best, tours: seq<Tour>)
    requires Recorded(nodes, b)
    requires forall i :: 0 <= i < |tours| ==> Walked(nodes, tours[i])
    ensures Recorded(nodes, FoldBest(b, tours))
  {
    if tours != [] {
      var init := tours[..|tours| - 1];
      var t := tours[|tours| - 1];
      assert forall i :: 0 <= i < |init| ==> init[i] == tours[i];
      FoldBestRecorded(nodes, b, init);
      assert Walked(nodes, t);
      var prev := FoldBest(b, init);
      if prev != Best(0.0, []) && |nodes| == 1 {
        assert prev.path != [] && prev.distance == 0.0 && t.length == 0.0;
      }
    }
  }

  /**
   The best tour after a round of finished ants: never negative, a tour or
   still unset, never longer than an earlier set best, no longer than any
   of the round's tours, and, when it was unset or walked before, unset or
   walked after. A best that was set is kept or beaten by a strictly
   shorter tour.
   */
  lemma BestAfterRound(nodes: seq<Point>, b: Best, tours: seq<Tour>)
    requires forall i :: 0 <= i < |tours| ==> Walked(nodes, tours[i])
    requires b.distance >= 0.0 && (b.path == [] || IsTour(b.path, |nodes|))
    ensures FoldBest(b, tours).distance >= 0.0
    ensures FoldBest(b, tours).path == [] || IsTour(FoldBest(b, tours).path, |nodes|)
    ensures b.distance != 0.0 ==> FoldBest(b, tours).distance <= b.distance
    ensures forall i :: 0 <= i < |tours| ==> FoldBest(b, tours).distance <= tours[i].length
    ensures Recorded(nodes, b) ==> Recorded(nodes, FoldBest(b, tours))
    ensures b.distance != 0.0 && b.path != [] ==> KeptOrBeaten(FoldBest(b, tours), b, tours)
  {
    if Recorded(nodes, b) {
      FoldBestRecorded(nodes, b, tours);
    }
    if |nodes| == 1 {
      assert LengthsZero(tours);
    } else {
      assert LengthsPositive(tours);
    }
    FoldBestBounds(b, tours);
    if b.distance != 0.0 && b.path != [] {
      FoldBestStrict(b, tours);
    }
    var r := FoldBest(b, tours);
    if r.path != b.path {
      var i :| 0 <= i < |tours| && r.path == tours[i].route;
    }
  }

  /** `m` with only the entries whose keys are in `ks` evaporated. */
  function EvaporatePart(m: Trail, e: real, ks: set<Edge>): Trail
  {
    map k | k in m :: if k in ks then Decay(m[k], e) else m[k]
  }

  /** With no key chosen nothing evaporates; with every key all of `m` does. */
  lemma EvaporateEnds(m: Trail, e: real)
    ensures EvaporatePart(m, e, {}) == m
    ensures EvaporatePart(m, e, m.Keys) == Evaporate(m, e)
  {
  }

  /** Evaporating one more entry. */
  lemma EvaporateOne(m: Trail, e: real, ks: set<Edge>, k: Edge)
    requires k in m && k !in ks
    ensures EvaporatePart(m, e, ks + {k}) == EvaporatePart(m, e, ks)[k := Decay(m[k], e)]
  {
    var l := EvaporatePart(m, e, ks + {k});
    var r := EvaporatePart(m, e, ks)[k := Decay(m[k], e)];
    assert l.Keys == r.Keys;
    forall j | j in l
      ensures l[j] == r[j]
    {
    }
  }

  /** The entries of `d` whose keys are in `ks`. */
  function Restrict(d: Trail, ks: set<Edge>): Trail
  {
    map k | k in d && k in ks :: d[k]
  }

  /** Merging one more delta entry adds it onto the merged entry, or inserts it. */
  lemma MergeOne(m: Trail, d: Trail, k: Edge, v: real)
    requires k !in d
    ensures Merge(m, d[k := v]) == Merge(m, d)[k := Get(Merge(m, d), k) + v]
  {
  }

  class Colony {
    const nodes: seq<Point>
    const start: nat
    const antCount: nat
    const alpha: real
    const beta: real
    const pheromoneEvaporation: real
    const pheromoneValue: real
    const iterations: nat
    var shortestDistance: real
    var shortestPath: seq<nat>
    var ants: seq<Ant>
    var pheromoneMap: Trail
    var antPheromoneMap: Trail
    var firstRound: bool

    /** The ant objects of the current batch. */
    ghost function AntSet(): set<Ant>
      reads this
    {
      set a | a in ants
    }

    /** `a` is as `init_ants` makes it for the colony's current state. */
    ghost predicate FreshAnt(a: Ant)
      reads this, a
    {
      && a.location == start && a.alpha == alpha && a.beta == beta
      && a.firstRound == firstRound
      && a.allowed == Range(|nodes|) && a.pheromone == pheromoneMap
      && a.route == [] && a.distanceTravelled == 0.0
    }

    /** `a` has run: its allowed list is empty and its tour is `Walked`. */
    ghost predicate Finished(a: Ant)
      reads a
    {
      a.allowed == [] && Walked(nodes, Tour(a.route, a.distanceTravelled))
    }

    /** The colony between rounds. */
    ghost predicate Valid()
      reads this, AntSet()
    {
      && start == 0
      && |ants| == antCount
      && (forall i, j :: 0 <= i < j < |ants| ==> ants[i] != ants[j])
      && (forall i :: 0 <= i < |ants| ==> FreshAnt(ants[i]))
      && Symmetric(pheromoneMap) && Selection.NonNegative(pheromoneMap)
      && 0.0 <= pheromoneEvaporation <= 1.0 && pheromoneValue >= 0.0
      && antPheromoneMap == map[]
      && Recorded(nodes, Best(shortestDistance, shortestPath))
    }

    /**
     `Colony::default`: the default hyperparameters, no best tour, empty
     pheromone maps, the first (exploration) round ahead and a first batch
     of `ant_count` ants.
     */
    constructor Default(nodes: seq<Point>)
      ensures this.nodes == nodes && start == 0 && antCount == 50
      ensures alpha == 0.5 && beta == 1.2 && pheromoneEvaporation == 0.4
      ensures pheromoneValue == 1000.0 && iterations == 80
      ensures shortestDistance == 0.0 && shortestPath == []
      ensures pheromoneMap == map[] && antPheromoneMap == map[] && firstRound
      ensures Valid() && fresh(AntSet())
    {
      this.nodes := nodes;
      start := 0;
      antCount := 50;
      alpha := 0.5;
      beta := 1.2;
      pheromoneEvaporation := 0.4;
      pheromoneValue := 1000.0;
      iterations := 80;
      shortestDistance := 0.0;
      shortestPath := [];
      ants := [];
      pheromoneMap := map[];
      antPheromoneMap := map[];
      firstRound := true;
      new;
      InitAnts();
    }

    /**
     `Colony::init_ants`: in the first round push `ant_count` new ants;
     later overwrite the first `ant_count` ants (the source panics if there
     are fewer). Every new ant starts at `start` with all nodes allowed, an
     empty route, no distance, the round flag and a copy of the pheromone map.
     */
    method InitAnts()
      requires !firstRound ==> |ants| >= antCount
      modifies this`ants
      ensures firstRound ==> |ants| == old(|ants|) + antCount && ants[..old(|ants|)] == old(ants)
      ensures !firstRound ==> |ants| == old(|ants|) && ants[antCount..] == old(ants)[antCount..]
      ensures var lo := if firstRound then old(|ants|) else 0;
        forall i :: lo <= i < lo + antCount ==> fresh(ants[i]) && FreshAnt(ants[i])
      ensures var lo := if firstRound then old(|ants|) else 0;
        forall i, j :: lo <= i < j < lo + antCount ==> ants[i] != ants[j]
    {
      var lo := if firstRound then |ants| else 0;
      var i := 0;
      while i < antCount
        invariant 0 <= i <= antCount
        invariant firstRound ==> |ants| == old(|ants|) + i && ants[..old(|ants|)] == old(ants)
        invariant !firstRound ==> |ants| == old(|ants|) && ants[i..] == old(ants)[i..]
        invariant forall j :: lo <= j < lo + i ==> fresh(ants[j]) && FreshAnt(ants[j])
        invariant forall j, k :: lo <= j < k < lo + i ==> ants[j] != ants[k]
      {
        var ant := new Ant(start, alpha, beta, firstRound, Range(|nodes|), pheromoneMap);
        if firstRound {
          ants := ants + [ant];
        } else {
          ants := ants[i := ant];
        }
        i := i + 1;
      }
    }

    /**
     `Colony::populate_ant_pheromone`: add `pheromone_value / distance` of
     the ant to both directions of every edge of its route in the round's
     deposit map. The source underflows on an empty route; a route with an
     edge needs a non-zero distance.
     */
    method PopulateAntPheromone(ant: nat)
      requires ant < |ants|
      requires |ants[ant].route| >= 1
      requires |ants[ant].route| >= 2 ==> ants[ant].distanceTravelled != 0.0
      modifies this`antPheromoneMap
      ensures antPheromoneMap
           == AntDeposit(old(antPheromoneMap), ants[ant].route, ants[ant].distanceTravelled, pheromoneValue)
    {
      var route := ants[ant].route;
      ghost var a := if |route| >= 2 then pheromoneValue / ants[ant].distanceTravelled else 0.0;
      for i := 0 to |route| - 1
        invariant antPheromoneMap == DepositPrefix(old(antPheromoneMap), route, a, i)
      {
        var currentPheromone := Get(antPheromoneMap, (route[i], route[i + 1]));
        var newPheromone := pheromoneValue / ants[ant].distanceTravelled;
        antPheromoneMap := antPheromoneMap[(route[i], route[i + 1]) := currentPheromone + newPheromone];
        antPheromoneMap := antPheromoneMap[(route[i + 1], route[i]) := currentPheromone + newPheromone];
      }
    }

    /**
     `Colony::update_pheromone`: multiply every entry by `1 - evaporation`,
     then add every entry of the round's deposit map, inserting the missing
     ones.
     */
    method UpdatePheromone()
      modifies this`pheromoneMap
      ensures pheromoneMap == Merge(Evaporate(old(pheromoneMap), pheromoneEvaporation), antPheromoneMap)
    {
      EvaporateAll();
      MergeDeposits();
    }

    /** The first loop of `update_pheromone` (lines 156-158). */
    method EvaporateAll()
      modifies this`pheromoneMap
      ensures pheromoneMap == Evaporate(old(pheromoneMap), pheromoneEvaporation)
    {
      ghost var before := pheromoneMap;
      var e := pheromoneEvaporation;
      var rest := pheromoneMap.Keys;
      ghost var scaled: set<Edge> := {};
      EvaporateEnds(before, e);
      while rest != {}
        invariant rest + scaled == before.Keys && rest !! scaled
        invariant pheromoneMap == EvaporatePart(before, e, scaled)
        decreases rest
      {
        var k :| k in rest;
        EvaporateOne(before, e, scaled, k);
        assert pheromoneMap[k] == before[k];
        pheromoneMap := pheromoneMap[k := Decay(pheromoneMap[k], e)];
        rest := rest - {k};
        scaled := scaled + {k};
      }
    }

    /** The second loop of `update_pheromone` (lines 159-161). */
    method MergeDeposits()
      modifies this`pheromoneMap
      ensures pheromoneMap == Merge(old(pheromoneMap), antPheromoneMap)
    {
      ghost var before := pheromoneMap;
      var pending := antPheromoneMap.Keys;
      ghost var done: set<Edge> := {};
      assert Restrict(antPheromoneMap, done) == map[];
      assert Merge(before, map[]) == before;
      while pending != {}
        invariant pending + done == antPheromoneMap.Keys && pending !! done
        invariant pheromoneMap == Merge(before, Restrict(antPheromoneMap, done))
        decreases pending
      {
        var k :| k in pending;
        var v := antPheromoneMap[k];
        MergeOne(before, Restrict(antPheromoneMap, done), k, v);
        assert Restrict(antPheromoneMap, done)[k := v] == Restrict(antPheromoneMap, done + {k});
        if k in pheromoneMap {
          pheromoneMap := pheromoneMap[k := pheromoneMap[k] + v];
        } else {
          pheromoneMap := pheromoneMap[k := v];
        }
        pending := pending - {k};
        done := done + {k};
      }
      assert Restrict(antPheromoneMap, done) == antPheromoneMap;
    }

    /** `ant.run(..)` for one fresh ant of the batch: afterwards it has `Finished`. */
    method RunAnt(ant: Ant, score: (real, real) -> real, arrange: (nat, seq<nat>) -> seq<nat>,
                  picks: seq<nat>, draws: seq<real>)
      requires FreshAnt(ant) && start == 0 && 0 < |nodes| && (|nodes| == 1 || Separated(nodes))
      requires |picks| >= |nodes| && |draws| >= |nodes|
      requires forall j :: 0 <= j < |draws| ==> 0.0 <= draws[j] < 1.0
      requires forall p, d :: score(p, d) >= 0.0
      requires forall i: nat, s: seq<nat> :: multiset(arrange(i, s)) == multiset(s)
      modifies ant
      ensures Finished(ant)
    {
      ant.Run(nodes, score, arrange, picks, draws);
      assert ant.route[0..] == ant.route;
      WalkLength(nodes, ant.route);
    }

    /**
     The first loop of `Colony::mainloop`: every ant runs until it has no
     node left. Ant `i` draws from `picks[i]` and `draws[i]`, and iterates
     its score maps in the key order `arranges[i]`, since every `decide`
     builds its own HashMap.
     */
    method RunAnts(score: (real, real) -> real, arranges: seq<(nat, seq<nat>) -> seq<nat>>,
                   picks: seq<seq<nat>>, draws: seq<seq<real>>)
      requires Valid() && 0 < |nodes| && (|nodes| == 1 || Separated(nodes))
      requires RoundInputs(|nodes|, antCount, score, arranges, picks, draws)
      modifies AntSet()
      ensures forall i :: 0 <= i < |ants| ==> Finished(ants[i])
    {
      var i := 0;
      while i < |ants|
        invariant 0 <= i <= |ants|
        invariant forall j :: 0 <= j < i ==> Finished(ants[j])
        invariant forall j :: i <= j < |ants| ==> FreshAnt(ants[j])
      {
        RunAnt(ants[i], score, arranges[i], picks[i], draws[i]);
        i := i + 1;
      }
    }

    /**
     Lines 137-146 of `Colony::mainloop`: fill an unset best distance or
     path from the ant, then keep the ant's tour if it is strictly shorter.
     */
    method OfferTour(anti: nat)
      requires anti < |ants|
      modifies this`shortestDistance, this`shortestPath
      ensures Best(shortestDistance, shortestPath)
           == UpdateBest(Best(old(shortestDistance), old(shortestPath)),
                         Tour(ants[anti].route, ants[anti].distanceTravelled))
    {
      if shortestDistance == 0.0 {
        shortestDistance := ants[anti].distanceTravelled;
      }
      if shortestPath == [] {
        shortestPath := ants[anti].route;
      }
      if ants[anti].distanceTravelled < shortestDistance {
        shortestDistance := ants[anti].distanceTravelled;
        shortestPath := ants[anti].route;
      }
    }

    /**
     The second loop of `Colony::mainloop`: for each ant in order, add its
     deposit to the round's map and offer its tour as the best one
     (lines 137-146). Returns the ants' tours in that order.
     */
    method CollectTours() returns (ghost tours: seq<Tour>)
      requires forall i :: 0 <= i < |ants| ==> Finished(ants[i])
      modifies this`antPheromoneMap, this`shortestDistance, this`shortestPath
      ensures |tours| == |ants|
      ensures forall i :: 0 <= i < |ants| ==> tours[i] == Tour(ants[i].route, ants[i].distanceTravelled)
      ensures forall i :: 0 <= i < |tours| ==> Walked(nodes, tours[i])
      ensures Depositable(tours)
      ensures antPheromoneMap == Deposited(old(antPheromoneMap), tours, pheromoneValue)
      ensures Best(shortestDistance, shortestPath) == FoldBest(Best(old(shortestDistance), old(shortestPath)), tours)
    {
      tours := [];
      for anti := 0 to |ants|
        invariant |tours| == anti
        invariant forall i :: 0 <= i < anti ==> tours[i] == old(Tour(ants[i].route, ants[i].distanceTravelled))
        invariant Depositable(tours)
        invariant antPheromoneMap == Deposited(old(antPheromoneMap), tours, pheromoneValue)
        invariant Best(shortestDistance, shortestPath) == FoldBest(Best(old(shortestDistance), old(shortestPath)), tours)
      {
        ghost var t := old(Tour(ants[anti].route, ants[anti].distanceTravelled));
        assert old(Finished(ants[anti]));
        PopulateAntPheromone(anti);
        OfferTour(anti);
        RoundExtend(old(antPheromoneMap), Best(old(shortestDistance), old(shortestPath)), tours, t, pheromoneValue);
        tours := tours + [t];
      }
      forall i | 0 <= i < |tours|
        ensures Walked(nodes, tours[i])
      {
        assert old(Finished(ants[i]));
      }
    }

    /**
     `Colony::mainloop`, one round: run every ant, deposit and track the
     best tour, evaporate and merge, leave the exploration round, and start
     a fresh batch of ants on the new map. Returns the round's tours.
     */
    method Mainloop(score: (real, real) -> real, arranges: seq<(nat, seq<nat>) -> seq<nat>>,
                    picks: seq<seq<nat>>, draws: seq<seq<real>>) returns (ghost tours: seq<Tour>)
      requires Valid() && 0 < |nodes| && (|nodes| == 1 || Separated(nodes))
      requires RoundInputs(|nodes|, antCount, score, arranges, picks, draws)
      modifies this, AntSet()
      ensures Valid() && fresh(AntSet()) && !firstRound
      ensures |tours| == antCount
      ensures forall i :: 0 <= i < |tours| ==> Walked(nodes, tours[i])
      ensures Best(shortestDistance, shortestPath) == FoldBest(Best(old(shortestDistance), old(shortestPath)), tours)
      ensures old(shortestDistance) != 0.0 ==> shortestDistance <= old(shortestDistance)
      ensures old(shortestDistance) != 0.0 && old(shortestPath) != []
           ==> KeptOrBeaten(Best(shortestDistance, shortestPath), Best(old(shortestDistance), old(shortestPath)), tours)
      ensures forall i :: 0 <= i < |tours| ==> shortestDistance <= tours[i].length
      ensures Depositable(tours)
      ensures pheromoneMap
           == Merge(Evaporate(old(pheromoneMap), pheromoneEvaporation), Deposited(map[], tours, pheromoneValue))
    {
      RecordedBounds(nodes, Best(shortestDistance, shortestPath));
      tours := WalkRound(score, arranges, picks, draws);
      BestAfterRound(nodes, Best(old(shortestDistance), old(shortestPath)), tours);
      DepositedProperties(map[], tours, pheromoneValue, (0, 0));
      EndRound();
    }

    /**
     The two loops of `Colony::mainloop`: every ant walks a tour, then the
     tours are deposited and offered as the best, in order.
     */
    method WalkRound(score: (real, real) -> real, arranges: seq<(nat, seq<nat>) -> seq<nat>>,
                     picks: seq<seq<nat>>, draws: seq<seq<real>>) returns (ghost tours: seq<Tour>)
      requires Valid() && 0 < |nodes| && (|nodes| == 1 || Separated(nodes))
      requires RoundInputs(|nodes|, antCount, score, arranges, picks, draws)
      modifies AntSet(), this`antPheromoneMap, this`shortestDistance, this`shortestPath
      ensures |tours| == antCount
      ensures forall i :: 0 <= i < |tours| ==> Walked(nodes, tours[i])
      ensures Depositable(tours)
      ensures antPheromoneMap == Deposited(map[], tours, pheromoneValue)
      ensures Best(shortestDistance, shortestPath) == FoldBest(Best(old(shortestDistance), old(shortestPath)), tours)
    {
      RunAnts(score, arranges, picks, draws);
      tours := CollectTours();
    }

    /**
     The last lines of `Colony::mainloop`: fold the round's deposits into
     the evaporated map, then start the next round. The map stays symmetric
     and non-negative, so the colony is `Valid` again.
     */
    method EndRound()
      requires start == 0 && |ants| == antCount
      requires Symmetric(pheromoneMap) && Selection.NonNegative(pheromoneMap)
      requires Symmetric(antPheromoneMap) && Selection.NonNegative(antPheromoneMap)
      requires 0.0 <= pheromoneEvaporation <= 1.0 && pheromoneValue >= 0.0
      requires Recorded(nodes, Best(shortestDistance, shortestPath))
      modifies this`pheromoneMap, this`firstRound, this`ants, this`antPheromoneMap
      ensures Valid() && fresh(AntSet()) && !firstRound
      ensures pheromoneMap == Merge(Evaporate(old(pheromoneMap), pheromoneEvaporation), old(antPheromoneMap))
    {
      UpdateSymmetric(pheromoneMap, antPheromoneMap, pheromoneEvaporation);
      UpdateNonNegative(pheromoneMap, antPheromoneMap, pheromoneEvaporation);
      UpdatePheromone();
      NextRound();
    }

    /**
     The end of `Colony::mainloop`: leave the exploration round, replace
     the ants by a fresh batch on the updated map, and clear the round's
     deposit map.
     */
    method NextRound()
      requires start == 0 && |ants| == antCount
      requires Symmetric(pheromoneMap) && Selection.NonNegative(pheromoneMap)
      requires 0.0 <= pheromoneEvaporation <= 1.0 && pheromoneValue >= 0.0
      requires Recorded(nodes, Best(shortestDistance, shortestPath))
      modifies this`firstRound, this`ants, this`antPheromoneMap
      ensures Valid() && fresh(AntSet()) && !firstRound
    {
      if firstRound {
        firstRound := false;
      }
      InitAnts();
      antPheromoneMap := map[];
    }
  }
}
