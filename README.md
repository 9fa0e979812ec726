# Ising-model denoising samplers, modelled in Dafny

This project models the sampling engine of a binary image denoiser. The engine
treats a black-and-white image as an Ising Markov random field and runs one
of four lattice samplers over it:

- `Gibbs`: heat-bath updates, four nearest neighbours, one coupling `Beta`.
- `Metropolis`: single-spin flip proposals, same neighbourhood.
- `AGibbs` and `AMetropolis`: the same two rules with eight neighbours and
  one coupling per direction (`Beta_h`, `Beta_v`, `Beta_d1`, `Beta_d2`).

All four work on a flat spin array with a one-cell border. The padded cell
`(i, j)` is at index `i * W + j`, with `W = width + 2`. Each sampler:

1. builds the list of interior indices;
2. fixes the annealing schedule (defaults `T0 = T`, `Tf = 0.1 * T0`);
3. runs `ITERA` sweeps. Each sweep shuffles the list in place, then updates
   `Sample[k]` in place site by site. Each site reads its neighbours from the
   live lattice.
4. copies the interior into a `height x width` result.

Layout:

- `lattice.dfy` (`Lattice`): the padded grid, its interior, the index-list
  builder `ComputeIndices` and the `Crop` copy.
- `shuffle.dfy` (`Shuffling`): the in-place Fisher-Yates shuffle.
- `anneal.dfy` (`Anneal`): the annealing schedule and the `exp`/`**`
  functions.
- `energy.dfy` (`Energy`): local fields and site energies.
- `sampling.dfy` (`Sampling`): the specification of one site step
  (`Step`), one sweep (`Sweep`) and a whole call (`Run`), with the lemmas
  about them.
- `isotropic.dfy` and `anisotropic.dfy`: the four samplers as imperative
  methods over `array<int>`. Each is proved to leave `Sample` equal to `Run`
  of its rule and topology, and to return the crop of that lattice.

Randomness and transcendental functions are inputs:

- The shuffle's choices are `shuffles`: for each sweep, the index `j <= i`
  swapped with position `i` at each Fisher-Yates step.
- The uniform draws of `random.random()` are a stream `draws` read at a
  cursor. Gibbs uses one draw per site. Metropolis uses a draw only when it
  does not accept outright.
- `exp` and `**` form the `Transcendentals` value. The model assumes only
  facts that hold of the real functions: `exp > 0`, `exp(x) <= 1` for
  `x <= 0`, `exp(0) = 1`, `b ** e > 0`, `b ** 0 = 1` and `b ** 1 = b` for
  `b > 0`.

Notes on behaviour:

- When `Yobs` is omitted it aliases `Sample`. The fidelity term then reads
  the site's current, live spin, not the initial lattice. This is modelled as
  the observation `Live`; passing `Sample` itself as `Yobs` gives the same
  result. `FidelityOffRun` proves that this fallback is the prior-only sampler
  when `lam = 0`. With `lam != 0`, `FidelityOnField` shows that the local field
  read through the fallback differs from the one read against a fixed
  observation wherever the site's spin and the observed pixel differ.
- The isotropic Metropolis sampler accepts outright when `dE <= 0`. The
  anisotropic one does so only when `Delta_E < 0`; at `Delta_E == 0` it
  draws. The model keeps both rules, as the code has them (see
  `AcceptsOutright`). `TieBreakFlips` shows that at equality the draw always
  flips the site, so the two rules give the same lattice. They differ only in
  the extra draw consumed.

## Model

| member | source | states |
|---|---|---|
| Lattice.Grid.Cell | Isotropic/Gibbs.py:85-88 | the index `i * W + j` of an interior row/column is an interior cell whose quotient and remainder by `W` give back `i` and `j` |
| Lattice.NeighboursInBounds | Anisotropic/AGibbs.py:114-117 | all eight neighbour offsets `±1`, `±W`, `±(W+1)`, `±(W-1)` of an interior site lie inside the `(height+2) * (width+2)` array |
| Lattice.Interior | Isotropic/Gibbs.py:83-89 | the index list has exactly `height * width` entries, and a number is in it exactly when it is an interior cell |
| Lattice.InteriorDistinct | Isotropic/Metropolis.py:80-86 | no interior index appears twice in the list |
| Lattice.ComputeIndices | Anisotropic/AGibbs.py:85-90 | the counter-driven nested loops fill a fresh array with exactly the interior list, in row-major order |
| Lattice.CropAt | Isotropic/Gibbs.py:125-132 | the crop is `height x width` and output pixel `(r, c)` is padded cell `(r+1) * W + (c+1)` |
| Lattice.CropDeterminesInterior | Anisotropic/AGibbs.py:128-133 | two lattices have the same crop if and only if they agree on every interior cell; the border plays no part |
| Lattice.Crop | Anisotropic/AMetropolis.py:154-160 | copying the interior into a zero-filled `H x W` array and slicing off the border yields exactly the crop of the lattice |
| Shuffling.SwapDownPermutes | Isotropic/Gibbs.py:100 | the Fisher-Yates swaps of steps `i` down to `1` keep the length and the multiset of the list |
| Shuffling.FisherYatesPermutes | Anisotropic/AGibbs.py:101 | a full shuffle pass is a permutation of the index list |
| Shuffling.Shuffle | Isotropic/Metropolis.py:98 | shuffling the array in place leaves it equal to the Fisher-Yates pass over its old contents, and a permutation of them |
| Anneal.SetupDefaults | Isotropic/Gibbs.py:76-80 | without annealing the schedule is the constant `T`; with annealing an omitted `T0` becomes `T` and an omitted `Tf` becomes `0.1 * T0`, and given values are kept |
| Anneal.Span | Isotropic/Gibbs.py:97 | the exponent's denominator `max(1, ITERA - 1)` is at least `1`, and `ITERA - 1` from two sweeps on |
| Anneal.Exponent | Isotropic/Metropolis.py:94 | the annealing exponent lies in `[0, 1]`, is `0` exactly on sweep `0`, and is `1` on the last of two or more sweeps |
| Anneal.Temperature | Anisotropic/AMetropolis.py:103-107 | every effective temperature is strictly positive when `T`, or `T0` and `Tf`, are |
| Anneal.ConstantTemperature | Isotropic/Metropolis.py:92-96 | without annealing every sweep runs at `T_eff = T` |
| Anneal.GeometricEnds | Anisotropic/AGibbs.py:96-97 | annealing runs at `T0` on sweep `0` and at `Tf` on the last sweep when there are two or more |
| Energy.EnergyIsSpinTimesField | Anisotropic/AMetropolis.py:123-131 | the Metropolis site energy is the spin times the Gibbs local field, in both topologies |
| Energy.FlipDelta | Isotropic/Metropolis.py:113-117 | `dE = E_new - E_cur = -2 * s * field`, and `E_new = -E_cur`, so `dE = -2 * E_cur` |
| Energy.AnisoExtendsIso | Anisotropic/AGibbs.py:112-119 | with `Beta_h = Beta_v = Beta` and no diagonal coupling, the anisotropic field and energies equal the isotropic ones of Isotropic/Gibbs.py:115 |
| Energy.ReversalSymmetry | Isotropic/Metropolis.py:113 | without bias, reversing every spin and the observation reverses the field and keeps every site energy |
| Energy.PPlus | Isotropic/Gibbs.py:119 | `p_plus` is a probability strictly between `0` and `1`, and exactly `1/2` at zero field |
| Energy.AcceptanceInUnit | Isotropic/Metropolis.py:123 | for `dE >= 0` the acceptance value `exp(-dE / T)` lies in `(0, 1]`, and is `1` at `dE = 0` |
| Lattice.CropOf | Isotropic/Gibbs.py:125-131 | the `height x width` image whose pixel `(r, c)` is padded cell `(r+1, c+1)` of the lattice |
| Shuffling.FisherYates | Isotropic/Gibbs.py:100 | the list after one Fisher-Yates pass: for `i` from `n-1` down to `1`, positions `i` and the chosen `j <= i` are swapped |
| Anneal.Setup | Isotropic/Gibbs.py:76-80 | the schedule of a call: constant `T` without annealing; with annealing geometric from `T0` (default `T`) to `Tf` (default `0.1 * T0`) |
| Energy.NeighboursAt | Anisotropic/AGibbs.py:114-117 | the eight live neighbour reads `k-1`, `k+1`, `k-W`, `k+W`, `k-W-1`, `k+W+1`, `k-W+1`, `k+W-1` |
| Energy.Field | Anisotropic/AGibbs.py:112-119 | the Gibbs local field: `alpha + Beta*nb_sum - lam*yk` (Isotropic/Gibbs.py:115), or `alpha` plus the four direction couplings times their neighbour pairs minus `lam*yk` |
| Energy.SiteEnergy | Anisotropic/AMetropolis.py:123-142 | the Metropolis site energy with spin `x`: `alpha*x + Beta*x*nb_sum - lam*yk*x` (Isotropic/Metropolis.py:113-115), or the anisotropic sum of `x` times each neighbour per direction |
| Lattice.Grid.IsInterior | Isotropic/Gibbs.py:85-87 | a cell is interior when it lies in the array with padded row in `range(1, H-1)` and padded column in `range(1, W-1)`; `Lattice.Interior` and `Lattice.Grid.Cell` tie it to the index list |
| Energy.Neighbours.Sum4 | Isotropic/Gibbs.py:106-111 | `nb_sum`, the sum of the left, right, up and down neighbours |
| Energy.Acceptance | Isotropic/Metropolis.py:123 | the acceptance value `exp(-dE / T_eff)`, also `exp(-Delta_E / T_eff)` at Anisotropic/AMetropolis.py:150; its range is stated by `Energy.AcceptanceInUnit` |
| Sampling.ObsOf | Isotropic/Gibbs.py:72-73 | the observation a call reads: live (`Yobs` omitted or the lattice itself) or the fixed contents of `Yobs` |
| Sampling.ObsAt | Isotropic/Gibbs.py:103 | `yk`: the site's current spin under the live fallback, otherwise the fixed observed pixel |
| Sampling.AcceptsOutright | Isotropic/Metropolis.py:120 | the energy changes accepted without a draw: `dE <= 0` for the isotropic sampler, only `Delta_E < 0` (Anisotropic/AMetropolis.py:147) for the anisotropic one |
| Sampling.Step | Isotropic/Gibbs.py:102-122 | one site update writes cell `k` and no other, and consumes at most one draw |
| Sampling.Sweep | Isotropic/Metropolis.py:100-124 | a sweep changes only the sites it visits and consumes at most one draw per site |
| Sampling.Run | Anisotropic/AGibbs.py:93-125 | a whole call never writes the border and keeps the lattice size |
| Sampling.RunUnfold | Anisotropic/AMetropolis.py:100-111 | each sweep shuffles the list left by the previous sweep, keeps it interior, and then visits it at that sweep's temperature |
| Sampling.ZeroSweeps | Isotropic/Gibbs.py:92 | with `ITERA = 0` the lattice is returned untouched and no draw is used |
| Sampling.GibbsStepValue | Anisotropic/AGibbs.py:103-125 | a Gibbs step sets the site to `+1` when the draw is below `p_plus` of the live field and to `-1` otherwise, consuming one draw |
| Sampling.MetropolisFlipOrKeep | Isotropic/Metropolis.py:120-124 | a Metropolis step either flips the site or leaves the lattice unchanged |
| Sampling.MetropolisDecision | Anisotropic/AMetropolis.py:142-151 | outright acceptance holds exactly when `E >= 0` (isotropic) or `E > 0` (anisotropic), and then flips without a draw; otherwise one draw is used and the site flips exactly when it is below `exp(-dE / T)` |
| Sampling.TieBreakFlips | Anisotropic/AMetropolis.py:147-151 | at `Delta_E = 0` the anisotropic sampler flips the site after one draw in `[0, 1)`, as the isotropic rule does without one |
| Sampling.FidelityOffStep | Isotropic/Gibbs.py:72-73 | with `lam = 0` a step against the live fallback equals a step against any fixed observation |
| Sampling.FidelityOffSweep | Isotropic/Metropolis.py:69-70 | the same for a whole sweep in any order |
| Sampling.FidelityOnField | Isotropic/Gibbs.py:103-115 | with `lam != 0`, the field read through the `Yobs = Sample` fallback differs from the field against a fixed observation wherever the site's spin and the observed pixel differ |
| Sampling.FidelityOffRun | Anisotropic/AGibbs.py:74-75 | the same for a whole sampler call |
| Sampling.StepKeepsUnit | Isotropic/Metropolis.py:101-124 | a site step keeps every interior cell in `{-1, +1}` |
| Sampling.SweepKeepsUnit | Anisotropic/AMetropolis.py:111-151 | a sweep keeps every interior cell in `{-1, +1}` |
| Sampling.RunKeepsUnit | Anisotropic/AMetropolis.py:100-151 | a whole call keeps an interior of spins an interior of spins, under either rule |
| Sampling.GibbsSweepSetsVisited | Isotropic/Gibbs.py:102-122 | after a Gibbs sweep every visited site holds `-1` or `+1`, whatever it held before |
| Sampling.GibbsRunSetsAll | Anisotropic/AGibbs.py:93-125 | after at least one Gibbs sweep every interior cell holds `-1` or `+1` |
| Sampling.CropOfUnit | Isotropic/Gibbs.py:131 | the crop of a lattice of spins is an image of spins |
| Sampling.RunCropUnit | Anisotropic/AMetropolis.py:100-160 | when every interior input cell is `-1` or `+1`, every pixel of the cropped result of a whole call is too, under either rule |
| Isotropic.Gibbs | Isotropic/Gibbs.py:67-132 | leaves `Sample` equal to `Run` of the isotropic Gibbs sampler and returns its crop; the border is never written; `ITERA = 0` returns the crop of the untouched input; after a sweep every output pixel is `±1` |
| Isotropic.Metropolis | Isotropic/Metropolis.py:64-134 | leaves `Sample` equal to `Run` of the isotropic Metropolis sampler and returns its crop; the border is never written; `ITERA = 0` returns the crop of the untouched input; a `±1` input gives a `±1` output |
| Isotropic.GibbsSite | Isotropic/Gibbs.py:103-122 | the in-place update of one site equals `Step` of the isotropic Gibbs rule on the old lattice |
| Isotropic.MetropolisSite | Isotropic/Metropolis.py:101-124 | the in-place update of one site equals `Step` of the isotropic Metropolis rule on the old lattice |
| Isotropic.GibbsSweep | Isotropic/Gibbs.py:102-122 | the loop over the shuffled indices equals `Sweep` of the isotropic Gibbs rule |
| Isotropic.MetropolisSweep | Isotropic/Metropolis.py:100-124 | the loop over the shuffled indices equals `Sweep` of the isotropic Metropolis rule |
| Isotropic.GibbsSweeps | Isotropic/Gibbs.py:92-122 | the `ITERA` sweeps leave `Sample` equal to `Run` of the isotropic Gibbs sampler from sweep 0 |
| Isotropic.GibbsPass | Isotropic/Gibbs.py:92-122 | one sweep (its temperature, the in-place shuffle of `indices`, the site loop) advances `Run` by exactly one sweep and keeps `indices` interior |
| Isotropic.MetropolisSweeps | Isotropic/Metropolis.py:89-124 | the `ITERA` sweeps leave `Sample` equal to `Run` of the isotropic Metropolis sampler from sweep 0 |
| Isotropic.MetropolisPass | Isotropic/Metropolis.py:89-124 | one sweep (its temperature, the in-place shuffle of `indices`, the site loop) advances `Run` by exactly one sweep and keeps `indices` interior |
| Anisotropic.AGibbs | Anisotropic/AGibbs.py:69-133 | leaves `Sample` equal to `Run` of the anisotropic Gibbs sampler and returns its crop; the border is never written; `ITERA = 0` returns the crop of the untouched input; after a sweep every output pixel is `±1` |
| Anisotropic.AMetropolis | Anisotropic/AMetropolis.py:76-160 | leaves `Sample` equal to `Run` of the anisotropic Metropolis sampler and returns its crop; the border is never written; `ITERA = 0` returns the crop of the untouched input; a `±1` input gives a `±1` output |
| Anisotropic.AGibbsSite | Anisotropic/AGibbs.py:105-125 | the in-place update of one site equals `Step` of the anisotropic Gibbs rule on the old lattice |
| Anisotropic.AMetropolisSite | Anisotropic/AMetropolis.py:113-151 | the in-place update of one site equals `Step` of the anisotropic Metropolis rule, with its strict `Delta_E < 0` test |
| Anisotropic.AGibbsSweep | Anisotropic/AGibbs.py:103-125 | the loop over the shuffled indices equals `Sweep` of the anisotropic Gibbs rule |
| Anisotropic.AMetropolisSweep | Anisotropic/AMetropolis.py:111-151 | the loop over the shuffled indices equals `Sweep` of the anisotropic Metropolis rule |
| Anisotropic.AGibbsSweeps | Anisotropic/AGibbs.py:93-125 | the `ITERA` sweeps leave `Sample` equal to `Run` of the anisotropic Gibbs sampler from sweep 0 |
| Anisotropic.AGibbsPass | Anisotropic/AGibbs.py:93-125 | one sweep (its temperature, the in-place shuffle of `indices`, the site loop) advances `Run` by exactly one sweep and keeps `indices` interior |
| Anisotropic.AMetropolisSweeps | Anisotropic/AMetropolis.py:100-151 | the `ITERA` sweeps leave `Sample` equal to `Run` of the anisotropic Metropolis sampler from sweep 0 |
| Anisotropic.AMetropolisPass | Anisotropic/AMetropolis.py:100-151 | one sweep (its temperature, the in-place shuffle of `indices`, the site loop) advances `Run` by exactly one sweep and keeps `indices` interior |

## Left out

- `main.py` and `phasetransition.py` are left out: image loading, noise injection with numpy's generator, plotting, the interactive loop and figure saving are I/O around the samplers.
- Floating point is not modelled. Fields and energies are exact `real` polynomials. `exp` and `**` are abstract functions that satisfy only the facts listed above, so rounding of `T_eff`, `p_plus` and the acceptance value is not captured.
- Overflow and underflow of `exp` are not captured. Only the Gibbs calls can overflow. Anisotropic/AGibbs.py:122 uses `math.exp`, which raises `OverflowError` once `2 * energy / T_eff` exceeds about 709.78, leaving `Sample` partly updated. Isotropic/Gibbs.py:119 uses `np.exp`, which returns infinity, so `p_plus` is `0` and the site is set to `-1`. The Metropolis acceptance calls (Isotropic/Metropolis.py:123, Anisotropic/AMetropolis.py:150) run only when `dE >= 0`, so at a positive temperature their argument is at most `0` (`AcceptanceInUnit`) and they can only underflow to `0.0`. The source then rejects a draw of exactly `0.0`, while the model's `exp` is always positive, so the model accepts it.
- The pseudo-random generators are not modelled. The shuffle choices and the uniform draws are inputs. The model does not state that a shuffle is uniformly distributed, or that every permutation is reachable.
- Anisotropic.AGibbs: `random.shuffle` and `random.random` share one Python generator stream. The model feeds the shuffle choices and the draws as separate inputs, so it does not capture how the two interleave in that stream.
- Anisotropic.AMetropolis: the same shared-stream interleaving is not captured.
- Statistical properties are not stated: the stationary distribution, low-temperature behaviour, and how well `lam` pulls the result toward the observation.
- The result is a float numpy array built with `np.zeros`. The model returns a sequence of integer spins.
- A `Yobs` that is a numpy view sharing memory with part of `Sample` (other than `Sample` itself) is not modelled. Such an observation is treated as a fixed copy.
- Arguments of the wrong type or shape are not modelled. The methods require `Sample` and `Yobs` to have `(height+2) * (width+2)` cells.
- Non-positive temperatures are excluded by precondition once at least one sweep runs: a non-positive `T` without annealing, or a non-positive effective `T0` or `Tf` with annealing (an explicit `T0` leaves the sign of `T` free). What the source does outside this domain is not modelled. With annealing, `T0 = 0` stops the first sweep with `ZeroDivisionError` at `Tf / T0` (Isotropic/Gibbs.py:97, Isotropic/Metropolis.py:94, Anisotropic/AGibbs.py:97, Anisotropic/AMetropolis.py:105). `T0` and `Tf` of opposite signs make `(Tf / T0) ** e` a complex number once `0 < e < 1`, and `math.exp` in the anisotropic samplers then raises `TypeError`. A negative `T_eff` makes the acceptance argument at Anisotropic/AMetropolis.py:150 non-negative, so that call can overflow.
