# Metropolis Monte Carlo kernel for a 1-D Ising ring

This project models the core of `mc.py`, a Metropolis Monte Carlo simulation of a
one-dimensional Ising chain of 100 spins with periodic boundary conditions in an
external field, and proves properties of that model in Dafny.

- `energy.dfy`, module `EnergyModel`: the spin configuration (a sequence of integers
  that should be -1 or +1), its magnetization (the sum of the spins, as `numpy.sum`
  gives it), the ring Hamiltonian
  `H = -J * sum_k s_k s_(k+1) - h * sum_k s_k`, and `EneDiff`, the model of
  `get_ene_diff`. The contract of `EneDiff` says that the closed form the source uses,
  `2 s_i h + 2 s_i s_(i-1) J + 2 s_i s_(i+1) J` with indices reduced `% 100`, is
  exactly the change of that Hamiltonian when the spin at `i mod 100` is reversed. The
  source never writes the Hamiltonian down. It serves here as the independent
  reference definition against which the closed form is checked.
- `sweep.dfy`, module `SweepEngine`: the sweep loop `kernel`. `Kernel` is a method over
  an `array<int>` that flips spins in place. Its outer `while` loop counts sweeps. The
  inner `for` loop, which visits sites 0..99 in order, is the method `RunSweep`, and
  its body, one trial, is the method `Trial`. After each sweep `Kernel` appends the
  magnetization to the returned list. `Kernel` is proved against specification
  functions:
  - `Accepts` is the Metropolis decision of one trial;
  - `Step` is one trial;
  - `Sweep` is one whole sweep;
  - `SweepPrefix` is the first `n` trials of a sweep;
  - `Sweeps` is a number of whole sweeps run one after another;
  - `Series` is the list of magnetizations.

  Lemmas about these functions state the properties of a run.

The random acceptance test `numpy.random.rand() < numpy.exp(-beta * ene_diff)` is an
oracle `accept(sweep, site, beta, ene_diff)`. It is consulted only when
`ene_diff > 0`, as in the source. For each actual run, the outcomes of that run's
draws form such an oracle, and every contract holds for all oracles. So each contract
holds for every sequence of random numbers. Field, coupling and inverse temperature are
exact `real`s.

Where the documentation and the code disagree, the model follows the code:
- `kernel` returns the magnetization list `m_list`, not the configuration its
  docstring names. The configuration is still updated in place, and `Kernel` states
  its final contents.
- A negative `max_sweep` is not rejected. The `while isweep < max_sweep` loop simply
  runs no sweep, so `Kernel` returns an empty list and leaves the array unchanged.
- The magnetization entries are integers, because `numpy.sum` runs over an integer
  array. They are not reals.

## Model

| member | source | states |
|---|---|---|
| EnergyModel.EneDiff | mc.py:8-23 | for any integer index `i`, the result equals the ring Hamiltonian after reversing spin `i mod 100` minus the Hamiltonian before; the configuration is only read |
| EnergyModel.EneDiffIsEnergyChange | mc.py:20-23 | the three-term closed form with indices `i % 100`, `(i-1) % 100`, `(i+1) % 100` equals that change of the Hamiltonian |
| EnergyModel.EneDiffPeriodic | mc.py:20-22 | the energy difference at `i + k*100` equals the one at `i`, for every integer `k` |
| EnergyModel.EneDiffBoundary | mc.py:20-22 | index -1 gives the same energy difference as index 99, and index 100 the same as index 0 |
| EnergyModel.EneDiffFlipNegates | mc.py:20-22 | after reversing spin `i mod 100`, the energy difference at `i` is the negation of the one before |
| EnergyModel.Flip | mc.py:52 | `config[i] *= -1` negates entry `i` and leaves every other entry as it was |
| EnergyModel.FlipSums | mc.py:20-22 | reversing site `p` lowers the magnetization by `2 s_p` and the bond sum by twice the two bonds at `p` |
| EnergyModel.NeighbourIndices | mc.py:20-22 | the indices `(i-1) % 100` and `(i+1) % 100` are the left and right ring neighbours of site `i % 100`, for any integer `i` |
| EnergyModel.Magnetization | mc.py:59 | for a configuration of `n` spins, the recorded `numpy.sum(config)` lies in `[-n, n]` and has the parity of `n` |
| EnergyModel.SpinSumBounds | mc.py:59 | the sum of `n` spins lies in `[-n, n]` and has the parity of `n` |
| SweepEngine.MetropolisRule | mc.py:51-53 | the trial flips whenever the flip does not raise the Hamiltonian (`ene_diff <= 0`); when it would raise it, the trial flips exactly when the draw, given that rise, accepts, so the draw is consulted only for `ene_diff > 0` |
| SweepEngine.Step | mc.py:50-54 | one trial changes only the visited site; that spin is reversed exactly when `ene_diff <= 0` or the draw accepts; spins stay in {-1, +1} |
| SweepEngine.StepEnergy | mc.py:50-54 | a trial moves the Hamiltonian by exactly `ene_diff` when it flips, and leaves it unchanged otherwise |
| SweepEngine.Trial | mc.py:50-54 | the in-place trial leaves the array equal to `Step` of its old contents |
| SweepEngine.SweepPrefix | mc.py:49-54 | after the first `n` trials of a sweep, sites `n..99` are untouched; spins stay in {-1, +1} |
| SweepEngine.Sweep | mc.py:49-54 | a whole sweep keeps a ring of 100 spins in {-1, +1} |
| SweepEngine.RunSweep | mc.py:49-54 | the in-place `for` loop leaves the array equal to `Sweep` of its old contents |
| SweepEngine.Sweeps | mc.py:48-60 | whole sweeps applied one after another keep a ring of 100 spins in {-1, +1} |
| SweepEngine.Series | mc.py:59 | the list has one entry per sweep, and entry `k` is the magnetization of the configuration left by sweep `k` |
| SweepEngine.Kernel | mc.py:25-62 | the array ends as `max(max_sweep, 0)` sweeps of the old configuration leave it, and the result is their magnetization series; the result has length `max_sweep` if positive, and otherwise it is empty and the array is unchanged; spins stay in {-1, +1}, and every entry lies in `[-100, 100]` and is even |
| SweepEngine.SeriesBounds | mc.py:59 | from a ring of spins, every recorded magnetization lies in `[-100, 100]` and is even |
| SweepEngine.SweepsSplit | mc.py:48-60 | `a` sweeps followed by `b` sweeps, numbered on from `a`, equal one run of `a + b` sweeps |
| SweepEngine.SweepPrefixNeverUphill | mc.py:50-54 | when every draw rejects, no prefix of a sweep raises the Hamiltonian |
| SweepEngine.QuenchNeverUphill | mc.py:48-60 | when every draw rejects, any number of sweeps never raises the Hamiltonian |
| SweepEngine.AlwaysAcceptPrefix | mc.py:49-54 | when every draw accepts, the first `n` trials of a sweep reverse exactly the first `n` spins |
| SweepEngine.AlwaysAcceptNegates | mc.py:49-59 | when every draw accepts, a sweep negates the magnetization |

## Left out

- The `__main__` driver (mc.py:64-79) is not modelled: argument parsing, the field grid, the random initial configuration and the CSV output. So are the constants `NUM_STEP` and `NUM_FIELD` and the unused `k_B` import, which only the driver needs.
- The console output of `kernel` (mc.py:41-47, mc.py:56-57) is not modelled, including the floating-point progress test. It does not affect the configuration or the result.
- `numpy.random.rand()` and `numpy.exp` are replaced by the acceptance oracle. Acceptance probabilities, detailed balance and statistical claims are not modelled. Examples are the zero-field mean tending to 0 and reproducibility from a seed; with a fixed oracle, the model is deterministic.
- EnergyModel.EneDiff: computes in exact real arithmetic, not IEEE doubles. Rounding, overflow, NaN and infinities of the source's floats are not modelled.
- SweepEngine.Step, SweepEngine.Trial: the branch a trial takes is decided on the exact `EneDiff`, so it can differ from the source's double-precision one. For example, with `h = 1e-20`, `J = 1`, a spin of +1 and neighbours +1 and -1, doubles round `ene_diff` to `0.0` and the spin flips unconditionally, while the model gets `2e-20 > 0` and consults the draw.
- Arrays whose length is not 100 are not modelled. The source hard-codes 100 in `% 100` and `range(NUM_SPIN)`. On a shorter array `get_ene_diff` raises `IndexError`. On a longer one the trials touch only sites 0..99, but `numpy.sum(config)` at mc.py:59 sums every entry. `EneDiff` and `Kernel` require length 100.
- SweepEngine.Kernel: entries are unbounded integers. numpy's `int64` wrap-around when negating (mc.py:52, mc.py:54) or summing (mc.py:59) huge entries is not modelled. It cannot happen for spins of -1 and +1.
- Entries outside {-1, +1} are not rejected. The model accepts any integer entries, as the source does. Being a spin is a property that `Kernel` preserves, not a precondition.
