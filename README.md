# Ant colony route search, modelled in Dafny

This project models the ant colony optimisation engine of `aco.py`. The
engine searches a weighted undirected graph of bus stops for a cheap route
from a source stop to a destination stop:

- `calculate_probabilities` scores every neighbour of the current stop:
  pheromone^alpha times (1/distance)^beta times normalised population^gamma.
  It then divides each score by their total.
- `choose_next_node` walks the cumulative probabilities and picks the first
  neighbour whose running total reaches a random draw.
- `ant_move` repeats that choice from the source until the destination is
  reached.
- `calculate_path_distance` sums the edge weights along a path.
- `update_pheromone` scales every edge's pheromone by (1 - rate). Each ant
  then adds `Q / cost` under the `(min, max)` key of every pair of its path.
- `ant_colony_optimisation` runs `iterations` rounds of `num_ants` walks. It
  updates the pheromone once per round and keeps the cheapest path it has
  seen, replacing it only on a strictly smaller cost.
- `find_node` returns a stop when it is in the graph.

Each loop of the source is a method with loop invariants, proved equal to a
recursive specification function:

| method | specification function |
|---|---|
| `CalculateProbabilities` | `Probabilities` |
| `ChooseNextNode` | `Choose` |
| `AntMove` | `Walk` |
| `CalculatePathDistance` | `PathCost` |
| `UpdateBest` | `Track` |
| `AntColonyOptimisation` | `Colony` |

The pheromone dictionary, which the source changes in place, is the class
`PheromoneField`. Its method `UpdatePheromone` is proved to leave the field at
`Update` of the old field. The properties the source relies on are lemmas
about these functions.

Modules, one file each:

| module | file | models |
|---|---|---|
| `Graphs` | `graphs.dfy` | the graph, the runs, the exceptions |
| `Scoring` | `scoring.dfy` | `calculate_probabilities` |
| `Roulette` | `roulette.dfy` | `choose_next_node` |
| `PathCosts` | `path_costs.dfy` | `calculate_path_distance` |
| `Walks` | `walks.dfy` | `ant_move` |
| `Pheromones` | `pheromones.dfy` | `update_pheromone` and the field |
| `Colony` | `colony.dfy` | `ant_colony_optimisation` and `find_node` |

Randomness is a parameter. Every `random.uniform(0, 1)` is a draw taken from
a sequence the caller supplies. Ant `a` of round `i` reads `draws[i][a]`, one
draw per move. Each exception that escapes the engine is a value of the
`Error` datatype returned in a `Result`.

Behaviours of the code that the model keeps and proves as written:

- A draw can exceed every cumulative probability. The choice is then `None`.
  The walk appends it, and the next round of the walk asks the graph for the
  neighbours of `None`, which raises. The walk therefore fails with
  `NodeNotInGraph`. In exact arithmetic this needs a stop without neighbours
  (`Walks.NoneOnlyWithoutNeighbours`).
- The deposit can be lost. When only the `(max, min)` orientation of a pair
  is stored, the `KeyError` handler just reads that entry, so the deposit is
  dropped (`Pheromones.LostDeposit`).
- A run whose source is its destination raises. Every path is the source
  alone, with cost 0, so the first update divides `Q` by zero
  (`Colony.SourceIsDestinationRaises`).
- With no iteration or no ant, the best solution stays `None` and the final
  conversion fails (`Colony.NoAntsNoSolution`).
- There is no visited set, no uniform fallback when all scores are zero, no
  distance-improvement factor, no cancellation and no parallel ants. The code
  has none of these.

## Model

| member | source | states |
|---|---|---|
| `Scoring.CalculateProbabilities` | aco.py:72-103 | The loop computes `Probabilities`. That is `NodeNotInGraph` for a stop outside the graph, `ZeroDivision` at a zero-distance neighbour or at a zero total over a non-empty list, and otherwise every score divided by the total. |
| `Scoring.RawScoresExact` | aco.py:79-94 | The scores exist exactly when no neighbour is at distance zero. There is then one `(neighbour, score)` pair per neighbour, in `graph.neighbors` order. |
| `Scoring.ProbabilitiesExact` | aco.py:72-103 | Succeeds exactly when the stop is in the graph, no neighbour is at distance zero, and there are no neighbours or the scores do not total zero. Gives one pair per neighbour, in order, each its raw score over the total. The probabilities sum to 1 whenever there is a neighbour. |
| `Scoring.NormalisedSumsToOne` | aco.py:96-101 | The normalising comprehension yields probabilities that sum to exactly 1 over a non-empty list. |
| `Scoring.MassScaled` | aco.py:97-101 | Dividing every score by a non-zero `t` divides their sum by `t`. |
| `Scoring.PopulationIgnoredWhenGammaZero` | aco.py:73-93 | With the default gamma of 0, the score of a neighbour at non-zero distance is pheromone^alpha times (1/distance)^beta, whatever its population. At distance zero, `1 / distance` raises. |
| `Roulette.ChooseNextNode` | aco.py:106-118 | The cumulative loop with its early `break` returns `Choose`. |
| `Roulette.ChooseIsFirstReaching` | aco.py:110-118 | The choice is `None` exactly when the draw exceeds every cumulative probability. Otherwise it is the neighbour at the first index whose cumulative probability reaches the draw. |
| `Roulette.ChooseFromFirstReaching` | aco.py:112-116 | The same, from any starting running total. |
| `Roulette.ChosenIsListed` | aco.py:112-116 | A chosen stop is one of the listed neighbours. |
| `Roulette.CumulativeMonotone` | aco.py:112-113 | With non-negative probabilities the running total never decreases. |
| `Roulette.NoneIffBeyondMass` | aco.py:108-118 | With non-negative probabilities, nothing is chosen exactly when the list is empty or the draw exceeds the total. |
| `Roulette.UnitMassAlwaysChooses` | aco.py:109-116 | A draw of at most 1 over probabilities summing to 1 always chooses a neighbour. |
| `PathCosts.CalculatePathDistance` | aco.py:121-136 | The accumulator loop returns `PathCost`: the sum of the weights over consecutive pairs (default 1.0), or `NoSuchEdge` when `graph[u][v]` meets two stops that are not adjacent. |
| `PathCosts.ShortPathIsFree` | aco.py:123-126 | A path of at most one stop costs 0. |
| `PathCosts.PathCostJoin` | aco.py:126-134 | Two paths joined at a shared stop have a cost exactly when both do, and it is the sum of their costs. |
| `PathCosts.PathCostPositive` | aco.py:126-134 | With non-negative weights and no zero-weight step, a costed path costs more than 0 exactly when it has at least two stops. |
| `Walks.AntMove` | aco.py:52-69 | The walking loop returns `Walk` on the draws supplied. |
| `Walks.WalkShape` | aco.py:53-69 | A successful walk starts at the source and ends at the destination, which it meets nowhere earlier. It makes at most one move per draw, and each next stop is the one that move's draw selects. |
| `Walks.StepFollowsEdge` | aco.py:63-66 | A stop the roulette selects is adjacent to the current stop, at a non-zero distance. |
| `Walks.EdgesGiveCost` | aco.py:121-136 | A path along edges always has a cost. |
| `Walks.WalkFollowsEdges` | aco.py:52-69 | Every move of a successful walk follows an edge of non-zero weight, so the walked path always has a cost. |
| `Walks.ZeroCostWalkStaysPut` | aco.py:52-69 | With non-negative weights, a successful walk costs 0 exactly when the source is the destination. |
| `Walks.NoneOnlyWithoutNeighbours` | aco.py:106-118 | For a draw in [0, 1] at a stop with probabilities, the `None` choice happens exactly when the stop has no neighbours. |
| `Pheromones.InitialLevels` | aco.py:12 | The field's keys are exactly the edges `graph.edges()` lists, each at level 1.0. |
| `Pheromones.PheromoneField.constructor` | aco.py:12 | The new field holds `InitialLevels` of the graph. |
| `Pheromones.PheromoneField.UpdatePheromone` | aco.py:139-161 | The two loops succeed exactly when `Update` of the old levels does, and fail with its error. On success the field holds its result. |
| `Pheromones.EvaporateExact` | aco.py:141-142 | Evaporation succeeds exactly when every listed edge is stored. It keeps the key set. With each edge listed once, every listed key is multiplied by (1 - rate) and every other key is untouched. |
| `Pheromones.DepositPairExact` | aco.py:150-161 | A pair's deposit succeeds exactly when its `(min, max)` or `(max, min)` key is stored. It keeps the key set and adds the amount only under the `(min, max)` key. |
| `Pheromones.DepositPathExact` | aco.py:149-161 | A path's deposits succeed exactly when each of its pairs is stored in some orientation. They keep the key set, and each key gains the amount once per pair whose `(min, max)` key it is. |
| `Pheromones.DepositedOnPathCounts` | aco.py:149-155 | What a path deposits under a key is the amount times the number of its pairs with that `(min, max)` key. |
| `Pheromones.DepositAllExact` | aco.py:145-161 | All ants' deposits succeed exactly when no cost is zero and every pair is stored in some orientation. They keep the key set, and every key gains the sum over the ants of `Q / cost` per pair deposited under it. |
| `Pheromones.UpdateExact` | aco.py:139-161 | The update succeeds exactly when every graph edge is stored, no cost is zero and every walked pair is stored. The key set is unchanged. With each edge listed once, every key ends at its level times (1 - rate) if it is an edge, plus all that was deposited under it. |
| `Pheromones.UntouchedEdgeOnlyEvaporates` | aco.py:141-155 | An edge on no ant's path only evaporates. |
| `Pheromones.NoRateNoAntsIsIdentity` | aco.py:139-142 | Rate 0 with no ants leaves the field exactly as it was whenever every listed edge has a level, even when edges repeat or other keys are stored. |
| `Pheromones.NoRateIsIdentity` | aco.py:141-142 | Evaporation at rate 0 succeeds and leaves the field unchanged whenever every listed edge has a level. |
| `Pheromones.UpdateKeepsLevelsPositive` | aco.py:139-155 | With rate below 1, `Q` at least 0 and positive costs, positive levels stay positive. |
| `Pheromones.LostDeposit` | aco.py:156-161 | When only the `(max, min)` key of a pair is stored, its deposit leaves the field unchanged. |
| `Pheromones.ZeroCostRaises` | aco.py:146-148 | Once evaporation succeeds, a first ant of cost 0 makes the update raise `ZeroDivision`. |
| `Colony.FindNode` | aco.py:205-208 | Returns the target exactly when it is a node of the graph, and `None` otherwise. |
| `Colony.UpdateBest` | aco.py:37-40 | The best-solution loop computes `Track`: replacement only on a strictly smaller cost. |
| `Colony.TrackAppend` | aco.py:18-40 | Tracking round after round is tracking over all the runs at once. |
| `Colony.TrackNonIncreasing` | aco.py:15-40 | A best exists once any run has been seen. Its cost never exceeds the starting best's or that of any run seen. |
| `Colony.TrackCharacterised` | aco.py:37-40 | Tracking keeps the starting best when no run is strictly cheaper. Otherwise it ends at the first run of least cost, which is strictly cheaper than the starting best. |
| `Colony.TrackFirstMinimum` | aco.py:14-40 | From +infinity, tracking a non-empty list ends at the first run of least cost: ties keep the earliest. |
| `Colony.AntColonyOptimisation` | aco.py:8-48 | The nested loops, with the field created, updated in place once per round, and the best tracked, return `Colony`. |
| `Colony.RoundRunsExact` | aco.py:23-31 | A round succeeds exactly when every ant's walk does. There is then one run per ant, in order, holding that ant's walk. |
| `Colony.RoundRunsValid` | aco.py:23-31 | Every run of a successful round goes from the source to the destination, and its recorded cost is its path's cost. |
| `Colony.RoundsValid` | aco.py:18-34 | Successful rounds give `iterations * num_ants` runs, each valid. |
| `Colony.ColonyIsFirstCheapest` | aco.py:8-48 | A returned run is the first run of least cost among all the ants of all the rounds. It goes from the source to the destination at its recorded cost. |
| `Colony.AntlessRoundsSucceed` | aco.py:18-34 | Rounds without ants never fail while the field stores every graph edge. |
| `Colony.NoAntsNoSolution` | aco.py:14-43 | With no iteration or no ant, the engine fails for want of a solution, whatever the graph. |
| `Colony.NoSolutionOnlyWithoutRuns` | aco.py:14-43 | When every round runs, the solution is missing exactly when there was no run at all. |
| `Colony.SourceIsDestinationRaises` | aco.py:18-34 | With the source equal to the destination and at least one ant, the engine raises `ZeroDivision`. |
| `Colony.WalkedPairsStored` | aco.py:149-161 | On a well-formed graph, every pair of a path along edges is stored in the field in some orientation. |
| `Colony.RoundUpdateSucceeds` | aco.py:33-34 | On a well-formed graph with the field keyed by its edges, the update after a successful round succeeds exactly when the source differs from the destination or there are no ants, and then it keeps the key set. |

## Left out

- Graph construction (`create_graph_with_distances`) and the other files of the repository (`app.py`, `commute_info.py`, `plot_nodes.py`, `generate_line.py`, `create_display.py`, the scripts under `static/`) are not part of this model. The graph is a value given to the engine.
- The conversion of the best path to shapely `Point`s (aco.py:43) is not modelled: the result is the best run's stops and cost. The progress `print` (aco.py:25) and the `print` in `find_node` (aco.py:208) are output only.
- `random.uniform` is replaced by draws the caller supplies. The model does not restrict them to [0, 1]; only the lemmas that need that range require it. Splitting one random stream into per-ant sequences loses nothing, because each ant consumes its draws in order.
- Floating point is modelled as exact real arithmetic: rounding, overflow and `float("inf")` are not modelled. The initial `best_distance` of +infinity is the absent best (`None`).
- Exponents are natural numbers. The source accepts any numeric `alpha`, `beta` and `gamma`, but `**` with a fractional or negative exponent is not modelled.
- Walks.AntMove: the source loop need not terminate. The model bounds it by the draws supplied and reports `DrawsExhausted` when they run out; the source has no such error.
- Walks.Walk: the source appends a `None` choice to the path and fails on the next iteration. The model fails at the choice itself with the same error, so no path holding `None` is ever returned.
- Pheromones.PheromoneField.UpdatePheromone: when the update raises, the levels it has already changed are not described. The exception leaves the engine, and the field is never read again.
- Stop labels are integers compared numerically by `min` and `max`. The repository's labels are reference strings, which `min` and `max` compare lexicographically. No property here depends on which total order is used.
- Python's exception types (`ZeroDivisionError`, `KeyError`, `networkx` errors) are collapsed into the `Error` datatype.
- Colony.AntColonyOptimisation: the draws must hold one sequence per ant per round. The source draws as many numbers as it needs.
