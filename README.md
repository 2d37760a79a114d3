# Steepest-ascent hill climbing for the open-path TSP

A Dafny model of the search core of `steepest_ascent_tsp.py`: a tour is an
ordering of the city indices 0 .. N-1, its cost is the sum of the table
distances between consecutive cities (no edge back to the start), a
neighbour of a tour is the tour with one segment `i .. j` reversed
(an *inversion*), and the climber repeatedly generates N neighbours at
distinct index pairs, evaluates all of them, and moves to the first
cheapest one while that is strictly cheaper than the current tour. Every
evaluation is counted.

Files and modules:

- `tours.dfy`, module `Tours`: tours as `seq<int>` (`IsTour`: length N,
  entries in 0 .. N-1, no repeats), the specification `Inverted` of the
  inversion move and the method `Inversion` that performs it on an array
  copy of the tour.
- `costs.dfy`, module `Costs`: the distance table as `seq<seq<nat>>` and
  the open-path cost `PathCost`, with lemmas on how cost behaves under
  concatenation, reversal and inversion.
- `neighbourhood.dfy`, module `Neighbourhood`: `Mutants`, the generation of
  N neighbours at distinct index pairs, and the pigeonhole argument that an
  untried pair always remains.
- `hill_climbing.dfy`, module `HillClimbing`: `RandomInit` and the class
  `Climber`, which holds the problem (number of cities and table, constant)
  and the evaluation counter `numEval` (the source's global `NumEval`),
  with methods `Evaluate`, `BestOf` and `SteepestAscent`.

Modelling decisions:

- Distances are natural numbers in tenths of a unit. The source rounds each
  distance to one decimal place, so every table entry is a non-negative
  multiple of 0.1; the model keeps them as exact integers. This makes cost
  a `nat`, and the climb terminates because each adopted move lowers it.
- `inversion` copies the tour, takes the slice `i .. j`, reverses it and
  writes it back. `Inversion` reverses that slice of an array copy in place,
  with swaps from both ends inwards. The result is the same tour.
- The random shuffle of `randomInit` and the random pair draws of
  `mutants` are nondeterministic choices (`:|`). Nothing depends on the
  probability distribution.
- `mutants` and `steepestAscent` require at least three cities. With zero
  cities `mutants` returns no neighbours and `bestOf` fails on the empty
  list; with one city the draw `randint(0, -1)` fails; with two cities only the pair
  (0, 1) exists, so the rejection loop never collects a second neighbour
  (`TwoCitiesOnePair`). A one-city run that returns `[0]` at cost 0
  without searching would be a natural degenerate case, but the code does
  not have it, and the model follows the code.

## Model

| member | source | states |
|---|---|---|
| `Tours.Iota` | AIP_09_SearchAlgorithms/steepest_ascent_tsp.py:96 | `list(range(n))` visits each of the n cities exactly once |
| `Tours.ShuffledIsTour` | AIP_09_SearchAlgorithms/steepest_ascent_tsp.py:96-97 | any rearrangement of 0 .. n-1 has length n, entries in 0 .. n-1 and no repeats |
| `Tours.Reversed` | AIP_09_SearchAlgorithms/steepest_ascent_tsp.py:169-170 | reversing a segment keeps its length |
| `Tours.ReversedAt` | AIP_09_SearchAlgorithms/steepest_ascent_tsp.py:169-170 | position k of the reversed segment holds the element at position len-1-k |
| `Tours.ReversedMultiset` | AIP_09_SearchAlgorithms/steepest_ascent_tsp.py:169-170 | reversing a segment keeps its elements with their multiplicities |
| `Tours.Inverted` | AIP_09_SearchAlgorithms/steepest_ascent_tsp.py:169-171 | the tour with the slice i .. j replaced by its reverse; same length as the tour (its contents are given by `InvertedAt`) |
| `Tours.InvertedAt` | AIP_09_SearchAlgorithms/steepest_ascent_tsp.py:158-178 | the inverted tour has the same length; position k holds `current[i+j-k]` for i <= k <= j and `current[k]` elsewhere |
| `Tours.InvertedMultiset` | AIP_09_SearchAlgorithms/steepest_ascent_tsp.py:160-171 | inversion keeps the multiset of cities |
| `Tours.InvertedIsTour` | AIP_09_SearchAlgorithms/steepest_ascent_tsp.py:158-178 | inverting a permutation of 0 .. n-1 yields a permutation of 0 .. n-1 |
| `Tours.InvertedInvolution` | AIP_09_SearchAlgorithms/steepest_ascent_tsp.py:169-171 | applying the same inversion twice gives back the original tour (the move is its own inverse) |
| `Tours.Inversion` | AIP_09_SearchAlgorithms/steepest_ascent_tsp.py:158-178 | reversing the slice i .. j of the copy in place yields exactly `Inverted(current, i, j)`; the argument, a value, is unchanged |
| `Costs.PathCost` | AIP_09_SearchAlgorithms/steepest_ascent_tsp.py:114-115 | the sum of `table[t[k]][t[k+1]]` over consecutive positions, with no return edge; the definition that `Evaluate`'s loop is proved to compute |
| `Costs.PathCostAppend` | AIP_09_SearchAlgorithms/steepest_ascent_tsp.py:114-115 | the cost of a concatenation is the cost of each part plus the one edge that joins them |
| `Costs.PathCostReversed` | AIP_09_SearchAlgorithms/steepest_ascent_tsp.py:114-115 | with a symmetric table a tour and its reverse have the same open-path cost |
| `Costs.SegmentReversedCost` | AIP_09_SearchAlgorithms/steepest_ascent_tsp.py:114-115 | with a symmetric table, reversing the middle part of a + m + b changes only the two joining edges |
| `Costs.InvertedCost` | AIP_09_SearchAlgorithms/steepest_ascent_tsp.py:158-178 | with a symmetric table, the cost of `inversion(t, i, j)` is the cost of t minus the edges t[i-1]–t[i] and t[j]–t[j+1] plus the edges t[i-1]–t[j] and t[i]–t[j+1] (each only where it exists) |
| `Neighbourhood.Pigeonhole` | AIP_09_SearchAlgorithms/steepest_ascent_tsp.py:142-148 | if there are more distinct candidates than tried pairs, some candidate is untried |
| `Neighbourhood.UntriedPairExists` | AIP_09_SearchAlgorithms/steepest_ascent_tsp.py:142-148 | with n >= 3 and fewer than n pairs tried, a pair 0 <= i < j <= n-1 not yet tried exists, so the rejection loop can always accept a draw |
| `Neighbourhood.TwoCitiesOnePair` | AIP_09_SearchAlgorithms/steepest_ascent_tsp.py:142-145 | with two cities, once (0, 1) is tried every draw is rejected |
| `Neighbourhood.Mutants` | AIP_09_SearchAlgorithms/steepest_ascent_tsp.py:120-155 | returns exactly numCities neighbours; neighbour k is `inversion(current, i, j)` for the k-th pair, every pair satisfies 0 <= i < j <= numCities-1, and no pair is used twice |
| `Neighbourhood.MutantsAreTours` | AIP_09_SearchAlgorithms/steepest_ascent_tsp.py:142-149 | every neighbour of a tour is a tour and is one inversion away from it |
| `HillClimbing.RandomInit` | AIP_09_SearchAlgorithms/steepest_ascent_tsp.py:91-98 | the initial tour is a rearrangement of `list(range(numCities))` and hence a tour |
| `HillClimbing.ClimbStep` | AIP_09_SearchAlgorithms/steepest_ascent_tsp.py:78-84 | adopting the first cheapest, strictly cheaper neighbour of the last tour extends a climb by one round |
| `HillClimbing.ClimbBound` | AIP_09_SearchAlgorithms/steepest_ascent_tsp.py:76-86 | along a chain of improving moves the final cost plus the number of moves is at most the initial cost, so the climb stops |
| `HillClimbing.GeneratedStep` | AIP_09_SearchAlgorithms/steepest_ascent_tsp.py:78 | recording the neighbourhood `mutants` builds from the last adopted tour, with its pairs, keeps every recorded neighbourhood tied to the tour and pairs it came from |
| `HillClimbing.GeneratedExtend` | AIP_09_SearchAlgorithms/steepest_ascent_tsp.py:82-84 | adopting a new tour leaves the recorded neighbourhoods of earlier rounds tied to their tours and pairs |
| `HillClimbing.Climber.constructor` | AIP_09_SearchAlgorithms/steepest_ascent_tsp.py:4 | the evaluation counter starts at 0 and the problem is stored unchanged |
| `HillClimbing.Climber.Evaluate` | AIP_09_SearchAlgorithms/steepest_ascent_tsp.py:101-117 | the result is the sum of `table[current[k]][current[k+1]]` for k in 0 .. numCities-2, with no return edge (0 for numCities <= 1), and `numEval` grows by exactly 1 |
| `HillClimbing.Climber.BestOf` | AIP_09_SearchAlgorithms/steepest_ascent_tsp.py:181-201 | the returned neighbour is in the list and `bestValue` is its cost, no neighbour is cheaper, every earlier neighbour is strictly dearer (ties go to the first), and `numEval` grows by exactly the number of neighbours |
| `HillClimbing.Climber.SteepestAscent` | AIP_09_SearchAlgorithms/steepest_ascent_tsp.py:69-88 | the result is a tour and `valueC` its cost; the adopted tours form a `Climb`: in every round m the tour adopted is one inversion from `path[m]`, strictly cheaper, and the first cheapest member of the neighbourhood `hoods[m]` that round generated, i.e. the `best` of `bestOf`; every round's neighbourhood, the final one `lastNeighbors` included, is `Generated`: `hoods[m][k]` is `inversion(path[m], i, j)` for the k-th of numCities pairwise distinct pairs 0 <= i < j <= numCities-1 in `hoodPairs[m]`; the final cost is at most the initial cost; every neighbour in the final round costs at least `valueC`; the number of rounds is at most the initial cost plus one; `numEval` grows by 1 + numCities × (number of neighbourhoods generated) |

## Left out

- `createProblem` (reading the file name from the console, reading and `eval`-ing the problem file): I/O.
- `calcDistanceTable`: floating-point square roots and rounding. The table is an input: an N × N matrix of distances in tenths, `Square` and, for the cost lemmas, `Symmetric`.
- Floating-point addition in `evaluate`: costs are exact sums of integers in tenths, so rounding error of summing decimal floats is not modelled.
- `describeProblem`, `displaySetting`, `displayResult`, `tenPerRow`, `main`: console output.
- The probability distributions of `random.shuffle` and `random.randint`: the model admits every outcome the code can produce, with no weights.
- Neighbourhood.Mutants: a draw of a pair already tried is rejected and redrawn in the source; the model chooses among the untried pairs directly, which is the pair the redrawing finally accepts. The number of rejected draws is not modelled.
- HillClimbing.Climber.BestOf: requires a non-empty list; the source raises an IndexError on `neighbors[0]` for an empty list, a case its only caller never reaches because `mutants` always returns numCities >= 3 neighbours.
- HillClimbing.Climber.Evaluate: requires the list to have exactly numCities entries, all valid city indices; the source would also accept a longer list (reading only its first numCities entries) and Python's negative indices.
- `mutants` and `steepestAscent` for fewer than three cities: with zero cities the loop of `mutants` never runs, it returns an empty list and `bestOf` fails with an IndexError at `neighbors[0]`; with one city the draw `randint(0, -1)` fails; with two cities the rejection loop never terminates. The model requires at least three.
- The commented-out alternative implementations of `mutants`, `inversion` and `bestOf`: dead code.
