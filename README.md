# Stochastic SIR engine in Dafny

This project models the single-run stochastic SIR engine, class `SIR` in
`SSIR.py`. It is a Gillespie-style simulation over integer compartment
counts:

- S is the number of susceptible individuals.
- I is the number of infected individuals.
- R is the number of recovered individuals.

A run keeps its history in four parallel lists, `S`, `I`, `R` and `t`. It
starts from the sample `(population_size - 1, 1, 0)` at time 0. Each
iteration of the simulation loop does three things:

1. It computes the infection and recovery propensities.
2. It lets one event fire, which moves exactly one individual.
3. It appends the new sample at the previous time plus the drawn waiting
   time.

The loop stops at the time horizon `t_end`, or when the population is
empty, or when S or I reaches 0, or when the waiting time is 0.

The project has three modules:

- `SirStep` (`sir_step.dfy`) holds one step: the propensities and the
  event picker. Both are pure functions of the state, the rates and the
  random draw.
- `SirRun` (`sir_run.dfy`) holds the run at the level of values:
  - `Sample` is one sample.
  - `History` is the four parallel lists.
  - `IsStep` and `Chained` form the transition relation that a recorded
    history must follow.
  - `Next` is one pass of the loop body from the last sample: it either
    stops or gives the sample to append.
  - `Simulate` is a tail-recursive function that appends exactly what the
    loop appends, one `Next` at a time.
  - The lemmas prove conservation of S + I + R, non-negativity, strictly
    increasing times, append-only growth, the stop conditions, and
    termination with its bound.
- `SirEngine` (`sir_engine.dfy`) holds the class `SIR`:
  - constant parameter fields and the four sequence fields;
  - the constructor;
  - `SimulationLoop`, a `while` loop proved against `Simulate`;
  - `FinalState`.

The two random sources of a step, the exponential waiting time and the
uniform selector, come in as a `Draw`. The loop takes a stream
`draws: nat -> Draw`, and the step that would append the sample at index
n of the lists uses `draws(n)`.
`ValidDraws` asks what the samplers guarantee: a waiting time `>= 0` and a
selector in `[0, 1]`.

Termination uses the measure 2 * S + I, which susceptibles count twice
because each can still be infected and then recover. While S > 0 and
I > 0, every event lowers the measure by exactly one. A run from the
initial sample of N >= 1 individuals therefore appends at most
2 * (N - 1) + 1 samples.

## Model

| member | source | states |
|---|---|---|
| SirStep.Propensities | SSIR.py:92-98 | Both propensities are 0 when I = 0, and the infection propensity is 0 when S = 0 or beta is 0. Both are non-negative for non-negative rates and counts with a positive total. The recovery propensity is positive when gamma > 0 and I > 0. The total must be non-zero, because the division by it fails otherwise. |
| SirStep.PopulationUpdate | SSIR.py:100-120 | With zero total propensity the counts come back unchanged with waiting time 0; otherwise the drawn waiting time is returned. S + I + R is conserved and no count turns negative. The result is exactly one infection, one recovery, or no change. Infection fires iff the total is non-zero, u * total <= infection propensity and S > 0. Recovery fires iff the total is non-zero, infection is not chosen and I > 0. With S > 0, I > 0 and a non-zero total propensity an event always fires and 2 * S + I drops by exactly one. |
| SirStep.NoTransmissionNoInfection | SSIR.py:112-118 | When beta is 0 and gamma >= 0, a selector u > 0 never picks infection. A selector u = 0 still picks infection when S > 0, I > 0 and gamma > 0. |
| SirRun.Next | SSIR.py:123-140 | One pass of the loop body from the last sample: it stops on a failed guard, on S = 0 or I = 0, or on a zero waiting time; otherwise it gives the updated counts at the previous time plus the waiting time. An appended sample has no negative S or I and has 2 * S + I exactly one lower. |
| SirRun.NextHalts | SSIR.py:123-134 | The loop body appends nothing if and only if a stop condition holds: the horizon is reached, the population is empty, S = 0, I = 0, the total propensity is 0, or the waiting time is 0. |
| SirRun.NextStep | SSIR.py:112-140 | With an in-range draw, an appended sample is one step from the last one: the loop was running, exactly one individual moved, and time strictly advanced. |
| SirRun.Simulate | SSIR.py:122-140 | The run's result is a non-empty parallel history that is at least as long as the one it started from. Its last sample has no negative S or I, or a non-positive total. |
| SirRun.SimulateExtends | SSIR.py:137-140 | The loop only appends: each of the four lists of the old history is a prefix of the new one. |
| SirRun.SimulateStep | SSIR.py:123-140 | Proof step for `SimulationLoop`, one branch of `Simulate`: suppose the guard holds, S > 0, I > 0 and the waiting time is non-zero. Then one iteration appends exactly the updated counts at the previous time plus the waiting time. The measure 2 * S + I decreases, and the run continues from the longer history with the next draw. |
| SirRun.SimulateStopsAtGuard | SSIR.py:123 | Proof step for `SimulationLoop`, one branch of `Simulate`: when the time horizon is reached or the population is empty, the loop appends nothing. |
| SirRun.SimulateStopsAtExhaustion | SSIR.py:126-127 | Proof step for `SimulationLoop`, one branch of `Simulate`: when S = 0 or I = 0, the loop appends nothing. |
| SirRun.SimulateStopsAtZeroStep | SSIR.py:131-134 | Proof step for `SimulationLoop`, one branch of `Simulate`: when a step returns waiting time 0, the loop appends nothing. |
| SirRun.SimulateChained | SSIR.py:122-140 | If every draw is in range, each appended sample is one step from the sample before it. The step satisfies: the loop was running, exactly one individual moved, and time strictly advanced. A chained history stays chained. |
| SirRun.SimulateMeasure | SSIR.py:122-140 | The number of appended samples equals the drop of 2 * S + I over the run. Hence the loop terminates and appends at most the initial measure. |
| SirRun.SimulateStops | SSIR.py:123-134 | The run ends at a history from which the loop body, given the next unused draw, appends nothing. |
| SirRun.SimulateHalts | SSIR.py:123-134 | At the end of the run a stop condition holds for the draw the next step would have used. The conditions are: the horizon is reached, the population is empty, S = 0, I = 0, the total propensity is 0, or the waiting time is 0. |
| SirRun.SimulateWithoutTransmission | SSIR.py:112-140 | Suppose beta is 0, gamma >= 0 and no selector is 0. Then the susceptible count at the end of the run equals the one at its start. |
| SirRun.InitialRunBound | SSIR.py:87-90 | A run from the initial sample of N >= 1 individuals holds at most 2 * (N - 1) + 2 samples, so it appends at most 2 * (N - 1) + 1. |
| SirRun.ChainedConserves | SSIR.py:112-120 | Every sample of a chained history has the total population of its first sample. |
| SirRun.ChainedNonNegative | SSIR.py:112-120 | A chained history whose first sample has no negative count never has one. |
| SirRun.ChainedTimesIncrease | SSIR.py:140 | Times strictly increase along a chained history. |
| SirRun.ValidRunProperties | SSIR.py:87-140 | A valid run history conserves population_size in every sample. It has no negative count when population_size >= 1. Its times start at 0, are never negative, and strictly increase. |
| SirRun.SimulateFromValid | SSIR.py:122-140 | From a valid history and in-range draws, the loop's result is again valid and extends the old history. The number of appended samples is the drop of 2 * S + I. A stop condition holds at the end. |
| SirEngine.SIR.constructor | SSIR.py:74-90 | It stores R0, tau_i, population_size and t_end. It sets beta = R0 / tau_i, gamma = 1 / tau_i and scaled_beta = beta * 0.01. The four lists each hold the single sample (population_size - 1, 1, 0) at time 0, so S + I + R = population_size at index 0, and the run is valid. tau_i must be non-zero, because the division by it fails otherwise. |
| SirEngine.SIR.SimulationLoop | SSIR.py:122-140 | The new lists are exactly what `Simulate` makes of the old ones. The run stays valid and the old lists are prefixes of the new ones. The number of appended samples equals the drop of 2 * S + I. |
| SirEngine.SIR.FinalState | SSIR.py:148-149 | It returns the last entry of each of the four lists. That sample holds population_size individuals, has no negative count when population_size >= 1, and has a time >= 0. |

## Left out

- `main`, `plot_results` and every matplotlib and console call are outside the model. They repeat runs, aggregate results and draw plots, and leave the engine's state alone.
- The distributions of `np.random.exponential` and `random.uniform` are not modelled. Their outputs are the caller-supplied `Draw` values, and `ValidDraws` states only their ranges. The scale `1 / Propensity_Sum` of the exponential affects only the distribution, so it does not appear.
- IEEE floating point is not modelled. Rates, propensities and times are exact `real`s, so rounding in `beta`, `gamma`, `scaled_beta` and the propensity products is not captured. The event test `u * total <= infection` is therefore exact.
- The ValueError that numpy raises for a negative scale is not modelled. This can happen only when a negative R0 or tau_i makes the total propensity negative. `PopulationUpdate` then simply uses the given draw.
- The ZeroDivisionErrors of the source appear as preconditions:
  - `tau_i == 0` in `__init__` (`SIR.constructor` requires `tauI != 0.0`);
  - `N_pop == 0` in `propensities` (`Propensities` requires a non-zero total).

  The loop never calls `Propensities` with a zero total, because its guard demands a positive total.
- SirEngine.SIR.SimulationLoop: collects the appended samples in a local `History` and stores it into the four list fields once, after the loop. The source appends to the fields inside the loop. The loop reads the fields at the guard and the current counts (SSIR.py:123-124), at the new time (:140), and through `self.R[-1]` inside `propensities` (:94). The model takes every one of these reads from `h.Last()`, which equals the last entry of each field at every iteration, so the final state is the same.
- SirRun.Simulate: requires `Runnable`, i.e. no negative S or I unless the total is not positive. The source would also run from a state such as S = -1, I = 2, R = 0 and make two recoveries there. No such state is reachable from the initial sample, so no reachable behaviour is lost.
- SirEngine.SIR.SimulationLoop: its own contract does not state the stop condition at the end. `SirRun.SimulateFromValid` proves it of the `Simulate` result that the method's postcondition equates the lists with.
- Python's dynamic typing is replaced by fixed types: integer counts, and real parameters and times. Calls with other argument types are outside the model.
