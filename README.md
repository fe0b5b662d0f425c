# Simulated annealing for a cyclic ordering, modelled in Dafny

This project models the optimisation engine of a small travelling-salesman
solver (`src/utils.py`). The engine searches for an ordering of items that has
a low cyclic cost. It is simulated annealing: a geometric cooling schedule, a
neighbour generator that picks the best of three perturbations, and the
Metropolis acceptance rule. It can also record a convergence trace and print
progress lines.

Modules, one file each:

- `Outcomes` (`outcomes.dfy`): the `Result` and `Option` types and the two Python
  exceptions the model keeps (`IndexError`, `UnboundLocalError`).
- `Neighbours` (`neighbours.dfy`): `inverse_neighbour` reverses a segment (a 2-opt
  move). `insert_neighbour` rotates a segment by one place. `swap_neighbour`
  exchanges two positions. The first two are single comprehensions in the source
  and are functions here. `swap_neighbour` copies the list and assigns two
  positions, so it is a method over a fresh array, proved against the
  specification function `Swapped`.
- `Cost` (`cost.dfy`): `distance_between_cities_in_order` is a method with a
  loop. It is proved equal to the reference definition `TourCost`, which is the
  sum of exactly |p| legs. The pairwise cost `City.distance_to` is a
  function parameter over an opaque item type.
- `Selector` (`selector.dfy`): `greedy_hybrid_neighbour` is a method. It loops
  over the three candidates, starting the running minimum at the sentinel `1e12`.
- `Cooling` (`cooling.dfy`): the schedule `temp *= 1 - cooling_rate`, its closed
  form, and `Passes`, the number of passes of `while temp > 1`.
- `Annealing` (`annealing.dfy`): `find_approximately_optimal_permutation` is a
  method. It is proved against specification functions of the pass number: the
  current permutation, the report counter, the progress lines and the two
  convergence lists.

Randomness is injected. The two positions that `random.sample` draws are
parameters of the selector. The caller passes `neighbour_fn` and the Metropolis
draw as oracles indexed by the pass number (`Annealing.Oracles`). Energies,
costs and temperatures are exact `real`s.

Behaviour of the code that the model keeps, though a reader might expect otherwise:
- Returned energy: the code returns `current_energy` as computed at the top of
  the last pass. It does not recompute it for the permutation it returns.
- Empty ordering: the tour cost fails with `IndexError` only on an empty ordering.
  A one-item ordering costs `cost(p[0], p[0])`.
- Progress lines: without visualisation and with `log_interval >= 0`, a line is
  printed on pass k exactly when k is a multiple of `log_interval + 2`. It is not
  every `log_interval` passes (`Annealing.ReportPeriod`).
- Configuration: the code does not check its parameters. With a cooling rate of
  at most 0 and `initial_temp > 1` the loop runs forever; with `initial_temp <= 1`
  it makes no pass, whatever the rate, and fails with `UnboundLocalError`.

## Model

| member | source | states |
|---|---|---|
| `Neighbours.InverseNeighbour` | src/utils.py:42-44 | the result has the input's length; its body is the comprehension: position t in [lo, hi] takes p[lo + hi - t], other positions are unchanged |
| `Neighbours.InsertNeighbour` | src/utils.py:47-49 | the result has the input's length; its body is the comprehension: position lo takes p[hi], lo < t <= hi takes p[t - 1], other positions are unchanged |
| `Neighbours.Swapped` | src/utils.py:52-56 | the ordering swap_neighbour builds has the input's length |
| `Neighbours.SwapNeighbour` | src/utils.py:52-56 | the result has the input's length, holds p[j] at i and p[i] at j, every other position is unchanged, and it equals `Swapped` |
| `Neighbours.InverseIsBlockReversal` | src/utils.py:42-44 | the result is the prefix before lo, the block [lo, hi] reversed, then the suffix after hi |
| `Neighbours.InsertIsBlockRotation` | src/utils.py:47-49 | the result is the prefix before lo, then p[hi], then p[lo..hi-1], then the suffix after hi |
| `Neighbours.InversePreservesItems` | src/utils.py:42-44 | the 2-opt move returns a permutation of its input (same multiset) |
| `Neighbours.InsertPreservesItems` | src/utils.py:47-49 | the rotation returns a permutation of its input |
| `Neighbours.SwapPreservesItems` | src/utils.py:52-56 | the swap returns a permutation of its input |
| `Neighbours.InverseSymmetric` | src/utils.py:43-44 | swapping the two positions gives the same reversal |
| `Neighbours.InsertSymmetric` | src/utils.py:48-49 | swapping the two positions gives the same rotation |
| `Neighbours.SwapSymmetric` | src/utils.py:52-56 | swapping the two positions gives the same exchange |
| `Neighbours.InverseInvolution` | src/utils.py:42-44 | reversing the same block twice gives back the input |
| `Neighbours.SwapInvolution` | src/utils.py:52-56 | exchanging the same two positions twice gives back the input |
| `Neighbours.NeighboursDiffer` | src/utils.py:42-56 | on distinct items and distinct positions, each of the three operators changes the ordering |
| `Cost.Legs` | src/utils.py:36-38 | the tour has exactly one leg per item |
| `Cost.DistanceBetweenCitiesInOrder` | src/utils.py:34-39 | an empty ordering fails with IndexError (the read of p[-1]); otherwise the accumulated distance equals `TourCost`, the sum of the |p| legs |
| `Cost.LegsPrefixIsPath` | src/utils.py:36-37 | the first n - 1 legs add up to the open-path cost of the first n items (what the loop has accumulated) |
| `Cost.TourCostIsPathPlusWrap` | src/utils.py:34-39 | tour cost = sum of cost(p[k-1], p[k]) for k in 1..N-1, plus cost(p[N-1], p[0]) |
| `Cost.TourCostNonNegative` | src/utils.py:34-39 | non-negative pairwise costs give a non-negative tour cost |
| `Cost.TourCostRotation` | src/utils.py:34-39 | the cost is cyclic: rotating the ordering by one does not change it |
| `Selector.Candidates` | src/utils.py:61-64 | there are three candidates, in the order inverse, insert, swap |
| `Selector.GreedyHybridNeighbour` | src/utils.py:59-71 | the result is one of the three candidates of the shared pair, so a permutation of the input. The returned energy is at most the sentinel 1e12 and at most every candidate's energy. Below the sentinel it is the energy of the returned candidate, and that candidate is the first to reach it (strict `<`). At the sentinel the first candidate is returned. On distinct items the result differs from the input |
| `Cooling.TemperatureClosedForm` | src/utils.py:96-124 | after k passes the temperature is initial_temp * (1 - cooling_rate)^k |
| `Cooling.TemperatureDecreases` | src/utils.py:124 | for a rate in (0, 1) each pass keeps the temperature positive and strictly lowers it |
| `Cooling.TemperatureShift` | src/utils.py:124 | running the schedule one pass later equals starting it from the cooled temperature |
| `Cooling.CoolingStepShrinksBudget` | src/utils.py:107-124 | while temp > 1, one pass lowers the termination measure floor(temp / rate), which stays non-negative |
| `Cooling.PassesIsExit` | src/utils.py:107-124 | after Passes passes the temperature is at most 1, and before each of them it is above 1 |
| `Cooling.ColdStartMakesNoPass` | src/utils.py:107 | starting at temp <= 1 the loop makes no pass, for any cooling rate |
| `Cooling.PassesUnique` | src/utils.py:107-124 | the exit point of `while temp > 1` is unique |
| `Annealing.TemperaturesUpTo` | src/utils.py:116-117 | the temperature list after n passes has n entries, entry k being the temperature at the start of pass k |
| `Annealing.EnergiesUpTo` | src/utils.py:108-118 | the energy list after n passes has n entries, entry k being the energy of the permutation at the start of pass k |
| `Annealing.FindApproximatelyOptimalPermutation` | src/utils.py:84-139 | for callbacks that return (they are total functions here), fails with UnboundLocalError exactly when initial_temp <= 1, for any cooling rate. Otherwise: the permutation is the one after the last pass; the energy is the one computed at the top of the last pass; the progress lines are those of passes where the counter exceeds log_interval (and no visualisation), with temperature and energy. Without convergence info both lists are empty. With it, their lengths are passes + 1, the temperatures are the schedule, and the energies are the per-pass energies plus the returned energy. The last temperature is at most 1 and all earlier ones are above 1 |
| `Annealing.PermutationAfterOrigin` | src/utils.py:120-123 | the current permutation is the input or a candidate returned by neighbour_fn on an earlier pass |
| `Annealing.PermutationAfterPreservesItems` | src/utils.py:120-123 | if every candidate is a permutation of its ordering, every current permutation is a permutation of the input |
| `Annealing.CounterClosedForm` | src/utils.py:97-114 | closed form of iterations_since_last_report at the start of each pass |
| `Annealing.ReportPeriod` | src/utils.py:97-114 | a progress line is printed on pass k exactly when k mod (log_interval + 2) = 0 (every pass if log_interval < 0) |
| `Annealing.NoReportsWhenVisualizing` | src/utils.py:110 | in visualisation mode no progress line is printed |
| `Annealing.ReturnedEnergyCanBeStale` | src/utils.py:107-139 | a run with one pass, where the pass accepts a strictly better candidate, returns the energy of the previous permutation |
| `Annealing.FindApproximatelyOptimalPermutationFixed` | src/utils.py:107-139 | with the energy recomputed after the loop: the returned energy is that of the returned permutation, including when no pass runs, and the energy list is the energies of the permutations after 0..n passes |

## Left out

- `City` and `City.distance_to` (src/utils.py:11-31): geodesic distance through geopy, including `NotImplementedError` for units other than km. The pairwise cost is a function parameter.
- `random.sample` (src/utils.py:60): the two positions are parameters. Its `ValueError` for orderings shorter than 2 becomes the requirement of two distinct positions in range.
- `random.uniform` and `math.exp` (src/utils.py:122): the oracle `lucky(k, delta, temp)` stands for "the uniform draw of pass k is below exp(delta / temp)". The probabilities are not modelled. The draw is skipped when the candidate is strictly better, as in the source.
- Randomness state: the oracles are indexed by the pass number, not by the state of a random generator. Any fixed seed corresponds to some choice of oracles.
- `neighbour_fn` receives `energy_fn` in the source. The oracle does not, because it is abstract anyway. `GreedyHybridNeighbour` is a method, so it cannot be passed in as the oracle. Its permutation guarantee connects to the loop through the hypothesis of `PermutationAfterPreservesItems`.
- Floating point: costs, energies and temperatures are exact reals. Rounding in the sum and in the repeated product of temperatures is not modelled. One consequence: in double precision `1 - cooling_rate` rounds to 1.0 for 0 < cooling_rate <= 2^-54, so `temp *= 1 - cooling_rate` (src/utils.py:124) never lowers `temp` and the source loops forever, while the model's exact-real termination proof covers every positive rate.
- Displays: visualisation (src/utils.py:103-105, 126-130), `build_route`, the plotting of `src/run.py`, and the print texts are not modelled. The `reports` output records the temperature and energy that the print at line 111 shows. The final print at line 132 is modelled only through its failure when no pass ran.
- Geometry and data loading: `shift_geom`, `get_cities_geodataframe`, `get_list_of_cities` and `get_russia_geodataframe` (src/utils.py:142-184), and all of `src/run.py`. These are pandas, geopandas and shapely glue.
- Keyword defaults (src/utils.py:88-92): they are `Annealing.Defaults`; the model always takes a full `Config`.
- Python's negative indexing: positions are naturals below the length, which is what `random.sample` supplies.
- `Neighbours.InverseNeighbour`: the contract states only the length. The positional property is the body, which follows the comprehension at line 44. The block form is stated by `InverseIsBlockReversal`.
- `Neighbours.InsertNeighbour`: the contract states only the length. The positional property is the body, which follows the comprehension at line 49. The block form is stated by `InsertIsBlockRotation`.
- `Annealing.FindApproximatelyOptimalPermutation`: `energy_fn` and `neighbour_fn` are total functions (the energy and the neighbour oracle), so their exceptions are not passed on. With the program's own callbacks, an ordering shorter than 2 raises `ValueError` in `random.sample` (src/utils.py:60) on the first pass, and `[]` raises `IndexError` in the tour cost (src/utils.py:38) at :108. The model returns `Ok` for these inputs when initial_temp > 1.
- `Annealing.FindApproximatelyOptimalPermutation`: requires cooling_rate > 0 or initial_temp <= 1 (`Cooling.Ends`). The excluded inputs, a rate of at most 0 with initial_temp > 1, make the source loop run forever, and the model proves termination.

## Findings

| source | as written | input that shows it | evidently intended | confidence | as-written member | corrected member |
|---|---|---|---|---|---|---|
| src/utils.py:108-139 | the returned energy (and the last energy-list entry) is `current_energy` from the top of the last pass, before that pass may accept a new permutation | initial_temp 2, cooling_rate 0.5, ordering [0, 1] with energy 1, a candidate [1, 0] with energy 0: one pass accepts [1, 0], and 1 is returned | the energy of the returned permutation, which line 132 prints as the found solution's total distance | medium, not executed | `Annealing.ReturnedEnergyCanBeStale` | `Annealing.FindApproximatelyOptimalPermutationFixed` |
| src/utils.py:107-132 | with initial_temp <= 1 the loop never runs and line 132 reads the unbound `current_energy` | initial_temp 1 | return the input ordering with its energy | high, not executed | `Annealing.FindApproximatelyOptimalPermutation` | `Annealing.FindApproximatelyOptimalPermutationFixed` |
