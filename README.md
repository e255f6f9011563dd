# Ant colony TSP engine, modelled in Dafny

This project models the ant-colony engine of a small travelling-salesman
visualiser written in Rust (`src/aco.rs`).

- **Nodes.** A node is a pair of window pixel coordinates.
- **Ants.** An `Ant` starts on node 0 with every node index `0..N` allowed, node 0 included. It repeatedly decides on an allowed node, moves there, and adds the edge length to the distance it has travelled, until nothing is left.
- **Decisions.** In the first (exploration) round an ant picks an allowed node at random. In later rounds it spins a roulette wheel whose shares are attractiveness scores computed from the pheromone on the edge and the edge's length.
- **The colony.** A `Colony` runs a batch of ants per round. Every ant deposits `pheromone_value / distance_travelled` on both directions of each edge of its route. The colony tracks the best tour so far, evaporates the pheromone map by `1 - evaporation`, merges the round's deposits in, leaves the exploration round, and re-creates its ants.

## Modules

- `geometry.dfy` (`Geometry`): `Ant::distance`, and the length of a walk as the ant accumulates it.
- `routes.dfy` (`Routes`): the initial allowed list `0..N`, removing a visited node, and what a finished tour is.
- `selection.dfy` (`Selection`): the roulette wheel of a later-round decision, including the all-zero fallback to `f32::MIN_POSITIVE` and the hard-coded fallback index 0.
- `pheromone.dfy` (`Pheromone`): pheromone maps keyed by ordered node pairs, one ant's symmetric deposit, and evaporate-then-merge.
- `ant.dfy` (`AntAgent`): the `Ant` class with `new`, `decide`, `move_` and `run`.
- `colony.dfy` (`ColonyEngine`): the `Colony` class with `default`, `init_ants`, `populate_ant_pheromone`, `update_pheromone` and `mainloop`, plus the specification functions for a round.

The model keeps the source's imperative form:

- **Classes.** Ants and the colony are classes whose methods update their fields. The pheromone maps are `map` fields that the loops update entry by entry.
- **Randomness.** The random inputs are parameters:
  - a first-round index `pick`, used as `allowed[pick % |allowed|]`;
  - a roulette draw `r` in [0, 1);
  - the HashMap key order, given as a function `arrange` that permutes the allowed list, one per ant (`arranges`).
- **Scoring.** The `powf` score is a caller-supplied non-negative function `score(pheromone, distance)`.
- **Arithmetic.** All arithmetic is on `real`.

## Model

| member | source | states |
|---|---|---|
| Geometry.Distance | src/aco.rs:83-89 | The edge length is non-negative, and it is zero exactly when the two nodes have the same coordinates. |
| Geometry.DistanceSymmetric | src/aco.rs:83-89 | The edge length is the same in both directions. |
| Geometry.DistanceToSelf | src/aco.rs:83-89 | The distance from a node to itself is zero. |
| Geometry.PathLength | src/aco.rs:80 | The length of a walk, summed edge by edge from the start node, is never negative. |
| Geometry.PathLengthSnoc | src/aco.rs:79-80 | Appending a node to a walk adds exactly the edge from the walk's current end to that node. |
| Geometry.PathLengthPositive | src/aco.rs:35-40 | A walk that reaches a node lying elsewhere than its start has positive length. |
| Routes.Range | src/aco.rs:185 | `(0..n).collect()` has length `n`, holds `i` at index `i`, and contains exactly the indices below `n`. |
| Routes.PermutationOfRangeIsTour | src/aco.rs:35-40 | Any permutation of `0..n` is a tour: length `n`, every index below `n`, no repeats, every node present. |
| Routes.RemoveFirst | src/aco.rs:77-78 | Removing the first occurrence of `x` shortens the list by one, removes exactly one `x` from its multiset, and adds nothing. |
| Routes.RemoveFirstAt | src/aco.rs:77-78 | Removing the first occurrence is the same as cutting the list at the index that `position` finds. |
| Routes.Position | src/aco.rs:77 | For `x` in `s`, the result is an index holding `x`, and no earlier index holds `x`. |
| Selection.SumOver | src/aco.rs:48-57 | The sum of non-negative scores is non-negative. |
| Selection.SumOverPermutation | src/aco.rs:48-57 | The total does not depend on the order of the candidates, so the sum in allowed-list order equals the sum in map-key order. |
| Selection.ZeroSumMeansZeroScores | src/aco.rs:58-63 | When non-negative scores sum to zero, every score is zero, so the flattening branch loses nothing. |
| Selection.FloorScores | src/aco.rs:58-63 | Every score is overwritten by `MinPositive`; the keys are kept and every value is positive. |
| Selection.Roulette | src/aco.rs:64-74 | The loop returns the first key whose running share reaches `r` (`Spin`), and otherwise the fallback 0. |
| Selection.SpinFinds | src/aco.rs:67-73 | While the running share is at most `r` and the remaining shares would carry it past `r`, the wheel stops on a candidate. |
| Selection.SpinShortfall | src/aco.rs:67-74 | If all the shares together fall short of `r`, the wheel returns 0 whether or not 0 is a candidate. |
| Selection.SelectChoosesCandidate | src/aco.rs:58-74 | For exact arithmetic, non-negative scores, a non-empty candidate list and `r` in [0, 1), the choice is always a candidate. When the total is zero it is the first candidate in iteration order. |
| Pheromone.Decay | src/aco.rs:157 | One evaporated entry stays non-negative when the entry is non-negative and the rate is at most 1. |
| Pheromone.StepAdds | src/aco.rs:166-174 | On a symmetric map, one deposit pass adds `a` to both directions of the crossed edge and changes no other entry. |
| Pheromone.StepSymmetric | src/aco.rs:166-174 | One deposit pass keeps a symmetric map symmetric. |
| Pheromone.DepositSymmetric | src/aco.rs:165-175 | The deposit loop keeps a symmetric map symmetric. |
| Pheromone.DepositNonNegative | src/aco.rs:165-175 | Non-negative deposits keep a non-negative map non-negative. |
| Pheromone.DepositCounts | src/aco.rs:165-175 | On a symmetric map, each entry grows by `a` once for every edge of the route that crosses it, in either direction, and by nothing else. |
| Pheromone.AntDepositProperties | src/aco.rs:163-176 | One ant's deposit keeps the map symmetric and non-negative, and adds `value / length` per crossing of each edge. |
| Pheromone.UpdateEntry | src/aco.rs:155-162 | The keys after the update are the union of the old and delta keys, and each entry is `old * (1 - e) + delta`, a missing entry counting as 0. |
| Pheromone.UpdateNonNegative | src/aco.rs:155-162 | With `0 <= e <= 1` and non-negative deltas, no entry becomes negative. |
| Pheromone.UpdateSymmetric | src/aco.rs:155-162 | A symmetric map updated with symmetric deltas stays symmetric. |
| AntAgent.Ant.constructor | src/aco.rs:16-34 | `Ant::new` stores its arguments, with distance 0 and an empty route. |
| AntAgent.Ant.Attractiveness | src/aco.rs:48-55 | The score map has exactly the allowed nodes as keys, and its scores are non-negative when the score function is. |
| AntAgent.Ant.TotalAttractiveness | src/aco.rs:48-56 | The total score is non-negative when the score function is. |
| AntAgent.Ant.ScoreAllowed | src/aco.rs:45-57 | The scoring loop builds exactly the score map and its sum in allowed-list order. |
| AntAgent.Ant.Decide | src/aco.rs:41-75 | The result is always an allowed node. In the first round it is the drawn element. Later it is the roulette choice over the scores in key order. When the total is zero it is the first key. |
| AntAgent.Ant.Move | src/aco.rs:76-82 | Exactly one occurrence of `end` leaves `allowed`, `end` is appended to the route, the edge from the old location is added to the distance, and the ant stands on `end`. Nothing else changes. |
| AntAgent.Ant.Advance | src/aco.rs:37-38 | One pass of the `run` loop: the chosen node was allowed and is moved to the route, and the distance grows by that edge. |
| AntAgent.Ant.Run | src/aco.rs:35-40 | Afterwards `allowed` is empty. The route gained exactly the nodes that were allowed, each once (as a multiset). The distance grew by the length of that walk from the start location. The ant stands on the walk's last node. Nothing else changes. |
| ColonyEngine.FoldBestBounds | src/aco.rs:135-147 | Once set, the best distance never grows. It is at most every ant's distance and never negative. The best path is the earlier one or one of the ants' routes. |
| ColonyEngine.FoldBestStrict | src/aco.rs:143-146 | A best tour that is set is either kept or replaced by one ant's tour that is strictly shorter; an ant whose distance ties the best does not replace it. |
| ColonyEngine.RecordedBounds | src/aco.rs:137-146 | A recorded best tour has a non-negative distance and its path is unset or a tour of all nodes. |
| ColonyEngine.FoldBestRecorded | src/aco.rs:137-146 | The best distance and path are replaced together. If the best tour was unset or a walked tour, then after the round it is unset or one walked tour, whose distance is the length of its own path. |
| ColonyEngine.BestAfterRound | src/aco.rs:135-147 | After a round of finished ants, the best distance is non-negative, monotone once set and at most every tour's length. The best path is unset or a tour. An unset or walked best tour stays unset or walked. A set best tour is kept or beaten by a strictly shorter tour. |
| ColonyEngine.DepositedProperties | src/aco.rs:135-136 | The round's deposit map is symmetric and non-negative, and each entry is the sum over all ants of their per-crossing deposits. |
| ColonyEngine.WalkLength | src/aco.rs:35-40 | A walk from node 0 through a permutation of `0..N` is a tour. Its length is 0 for a single node and positive when some node lies elsewhere than node 0. |
| ColonyEngine.RoundExtend | src/aco.rs:135-147 | One more ant's tour extends the round's deposits and the best-tour fold by exactly one step. |
| ColonyEngine.EvaporateOne | src/aco.rs:156-158 | Evaporating one more key changes exactly that key's entry. |
| ColonyEngine.MergeOne | src/aco.rs:159-161 | Merging one more delta entry adds it onto the existing entry, or inserts it. |
| ColonyEngine.Colony.Default | src/aco.rs:110-129 | The default parameters are 50 ants, alpha 0.5, beta 1.2, evaporation 0.4, value 1000 and 80 iterations. Nothing is recorded as best, both maps are empty, the first round is ahead, and the colony is `Valid` with a fresh batch of ants. |
| ColonyEngine.Colony.InitAnts | src/aco.rs:177-201 | In the first round it appends `ant_count` fresh, distinct ants. Later it overwrites `ants[0..ant_count]` and keeps the rest. Every new ant is on `start`, has all nodes allowed, an empty route, distance 0, the round flag and a copy of the pheromone map. |
| ColonyEngine.Colony.PopulateAntPheromone | src/aco.rs:163-176 | The deposit map becomes exactly that ant's deposit (`AntDeposit`) added onto the old deposit map. |
| ColonyEngine.Colony.UpdatePheromone | src/aco.rs:155-162 | The pheromone map becomes the old map evaporated and merged with the round's deposits. |
| ColonyEngine.Colony.EvaporateAll | src/aco.rs:156-158 | Every entry is multiplied by `1 - evaporation`. |
| ColonyEngine.Colony.MergeDeposits | src/aco.rs:159-161 | Every deposit entry is added in, and missing entries are inserted. |
| ColonyEngine.Colony.RunAnt | src/aco.rs:132-134 | A fresh ant that has run holds a tour walked from node 0, with its length as the distance. |
| ColonyEngine.Colony.RunAnts | src/aco.rs:132-134 | After the first loop of `mainloop`, every ant has finished its tour. |
| ColonyEngine.Colony.OfferTour | src/aco.rs:137-146 | An unset best distance or path is filled from the ant, then replaced if the ant is strictly shorter (`UpdateBest`). |
| ColonyEngine.Colony.CollectTours | src/aco.rs:135-147 | The round's deposit map and the best tour are the folds of `AntDeposit` and `UpdateBest` over the ants' tours, taken in order. |
| ColonyEngine.Colony.WalkRound | src/aco.rs:132-147 | Every ant walks a tour of all nodes from node 0 with its walked length; the round's deposit map and the best tour are the folds of `AntDeposit` and `UpdateBest` over those tours, in order. |
| ColonyEngine.Colony.EndRound | src/aco.rs:148-153 | The pheromone map becomes the old map evaporated and merged with the round's deposits, stays symmetric and non-negative, and the colony is `Valid` again with fresh ants. |
| ColonyEngine.Colony.NextRound | src/aco.rs:149-153 | `first_round` becomes false, the ants are re-created, the deposit map is cleared, and the colony is `Valid` again. |
| ColonyEngine.Colony.Mainloop | src/aco.rs:130-154 | One round keeps the colony `Valid`, including that the recorded best distance is the length of the recorded best path. `first_round` is false afterwards. Every tour is a tour of all nodes from node 0 with its walked length. The best distance is monotone once set and at most every tour's length. A set best tour changes only to one of the round's tours that is strictly shorter. The new pheromone map is the old one evaporated and merged with every ant's deposit. |

## Left out

- The square root in `distance` is left out: the model uses the squared Euclidean distance of the integer coordinates. Symmetry, zero-on-self and positivity are the same either way. Tour lengths, however, are sums of squared edges, and such sums can rank tours differently from Euclidean lengths.
  - This affects the deposit `value / length` and the choice of the best tour.
  - Example: nodes (1,4), (6,6), (6,0), (2,0). The source measures 16.60 for route [0,1,3,2] and 18.89 for [1,0,3,2], so it keeps [0,1,3,2]. The model measures 97 and 91, so it keeps [1,0,3,2].
  - The model's best-tour and deposit results are therefore stated for squared lengths, not the source's Euclidean ones.
- `f32` rounding is left out; arithmetic is exact `real`. With `f32`, the shares can fall short of the draw, and the roulette then returns the hard-coded 0 even when 0 is no longer allowed. `move_` would then panic on its `unwrap`. `SpinShortfall` states what the wheel returns in that case. With exact arithmetic `SelectChoosesCandidate` rules it out.
- `powf`, `alpha` and `beta` are left out: the score is an abstract non-negative function of pheromone and distance, always a finite real. The `NaN` and `inf` scores of `f32` are therefore not modelled.
  - Any allowed node at distance 0 from the ant gets `(1 / 0)^beta = inf`. Its score is `0^alpha * inf = NaN` without pheromone and `inf` with it. This happens for node 0 seen from the start, and for any two nodes clicked at the same coordinates (`src/main.rs` does not de-duplicate clicks).
  - A `NaN` or `inf` total sends `decide` to the fallback 0. At the start of a later round 0 is still allowed. Later in the walk 0 has already been visited, so `move_` then panics on its `unwrap`.
- AntAgent.Ant.Decide: its `ensures next in allowed` relies on the score being a finite non-negative real. The `NaN`/`inf` path above, where the source returns a node that is not allowed, is outside the model.
- `thread_rng`, `choose`, `rand::random` and HashMap iteration order are left out; they become the parameters `pick`, `r` and `arrange`. Each ant gets its own key order (`arranges[i]` in `Mainloop`), since each `decide` builds a fresh HashMap.
- Integer overflow (`i32` coordinate differences, `u32` node indices) is left out; window coordinates are small.
- `src/main.rs` (window, events, drawing) is not part of this model.
- Division by a zero tour length in `populate_ant_pheromone` is excluded by a precondition. It happens when all nodes share one point and there are at least two of them, and `f32` would store `inf`. An empty route, which underflows `len() - 1`, is excluded the same way.
- `distance_travelled` is the length of the walk from node 0 through the route. The closing edge back to node 0 is not part of it, as in the source.
- Node 0 is in the allowed list, so an ant makes N decisions, not N - 1. Node 0 appears somewhere in its route, and the edge from node 0 to itself has length 0. The model follows the code here.
- `iterations` is a constant of the colony: the engine stores it but never reads it, and only one round is modelled per `mainloop` call.
- `Decide` requires the key order to be a permutation of `allowed`. A HashMap's keys are that only when `allowed` has no duplicates, which holds for every ant `init_ants` creates.
