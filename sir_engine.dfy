/**
 The single-run engine: an object holding the run's parameters and the
 four lists S, I, R and t, which the simulation loop extends in place.
 */
module SirEngine {
  import opened SirStep
  import opened SirRun

  class SIR {
    const r0: real
    const tauI: real
    const beta: real
    const gamma: real
    const scaledBeta: real
    const populationSize: int
    const tEnd: real

    var S: seq<int>
    var I: seq<int>
    var R: seq<int>
    var t: seq<real>

    /** The four lists as one history value. */
    function Trajectory(): History
      reads this
    {
      History(S, I, R, t)
    }

    /** The rates the propensities are computed from. */
    function StepParams(): Params {
      Params(scaledBeta, gamma)
    }

    /** The lists are parallel and non-empty, start with the initial sample,
        and each later sample is one step of the loop from the one before. */
    ghost predicate Valid()
      reads this
    {
      ValidRun(Trajectory(), tEnd, populationSize)
    }

    /** A fresh run: the derived rates, and the single initial sample
        (population_size - 1, 1, 0) at time 0. */
    constructor (r0: real, tauI: real, populationSize: int, tEnd: real)
      requires tauI != 0.0
      ensures this.r0 == r0 && this.tauI == tauI
      ensures this.populationSize == populationSize && this.tEnd == tEnd
      ensures beta == r0 / tauI && gamma == 1.0 / tauI && scaledBeta == beta * 0.01
      ensures S == [populationSize - 1] && I == [1] && R == [0] && t == [0.0]
      ensures S[0] + I[0] + R[0] == populationSize
      ensures Valid()
    {
      this.r0 := r0;
      this.tauI := tauI;
      beta := r0 / tauI;
      gamma := 1.0 / tauI;
      scaledBeta := (r0 / tauI) * 0.01;
      this.populationSize := populationSize;
      this.tEnd := tEnd;
      S := [populationSize - 1];
      I := [1];
      R := [0];
      t := [0.0];
    }

    /** Run the loop to a stop, drawing `draws(n)` for the sample appended
        at index n. The new lists are exactly what `Simulate` makes of the
        old ones: earlier samples never change, the history stays valid,
        and every appended sample lowers 2 * S + I by one. The samples are
        collected in a local history and stored in the four fields when the
        loop ends. */
    method SimulationLoop(draws: nat -> Draw)
      requires Valid() && ValidDraws(draws)
      modifies this
      ensures Valid()
      ensures Trajectory() == Simulate(StepParams(), tEnd, old(Trajectory()), draws)
      ensures Extends(old(Trajectory()), Trajectory())
      ensures |S| - old(|S|) + Measure(Trajectory().Last()) == Measure(old(Trajectory()).Last())
    {
      var p := StepParams();
      var h := Trajectory();
      ghost var target := Simulate(p, tEnd, h, draws);
      while h.Last().t < tEnd && h.Last().Total() > 0
        invariant Started(h) && Runnable(h.Last())
        invariant Simulate(p, tEnd, h, draws) == target
        decreases Measure(h.Last())
      {
        var c := h.Last();
        if c.s == 0 || c.i == 0 {
          SimulateStopsAtExhaustion(p, tEnd, h, draws);
          break;
        }
        var rates := Propensities(p, c.s, c.i, c.r);
        var update := PopulationUpdate(c.s, c.i, c.r, rates, draws(|h.S|));
        if update.timeStep == 0.0 {
          SimulateStopsAtZeroStep(p, tEnd, h, draws, c, update);
          break;
        }
        var next := Sample(update.s, update.i, update.r, c.t + update.timeStep);
        SimulateStep(p, tEnd, h, draws, c, update, next);
        h := h.Append(next);
      }
      SimulateStopsAtGuard(p, tEnd, h, draws);
      S, I, R, t := h.S, h.I, h.R, h.t;
      SimulateFromValid(p, tEnd, old(Trajectory()), draws, populationSize);
    }

    /** The last sample (S, I, R, t): it holds the whole population, has no
        negative count when the population is not empty, and its time is
        not before the start of the run. */
    function FinalState(): (f: Sample)
      reads this
      requires Valid()
      ensures f == Trajectory().Last()
      ensures f.Total() == populationSize
      ensures populationSize >= 1 ==> f.NonNegative()
      ensures f.t >= 0.0
    {
      ValidRunProperties(Trajectory(), tEnd, populationSize);
      Sample(S[|S| - 1], I[|I| - 1], R[|R| - 1], t[|t| - 1])
    }
  }
}
