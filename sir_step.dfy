/**
 One step of the stochastic SIR engine: the two event propensities of a
 state and the single event (infection, recovery or none) that the step
 fires. The random draws of a step are not generated here; they are given
 as a `Draw`, so every function in this module is deterministic.
 */
module SirStep {

  /** The rates a run uses: `scaledBeta` is beta already multiplied by the
      calibration factor 0.01, `gamma` is the recovery rate 1 / tau_i. */
  datatype Params = Params(scaledBeta: real, gamma: real)

  /** The propensities of the two competing events. */
  datatype Rates = Rates(infection: real, recovery: real) {
    function Sum(): real { infection + recovery }
  }

  /** What the two random sources of one step returned: the exponential
      waiting time and the uniform selector. */
  datatype Draw = Draw(timeStep: real, u: real)

  /** The range of the two samplers: a waiting time is never negative and
      the selector lies in [0, 1]. */
  predicate InRange(d: Draw) {
    d.timeStep >= 0.0 && 0.0 <= d.u <= 1.0
  }

  /** The counts a step hands back, with the waiting time it drew (0 when
      no event was possible). */
  datatype Update = Update(s: int, i: int, r: int, timeStep: real)

  /** One susceptible became infected. */
  predicate IsInfection(s: int, i: int, r: int, u: Update) {
    u.s == s - 1 && u.i == i + 1 && u.r == r
  }

  /** One infected recovered. */
  predicate IsRecovery(s: int, i: int, r: int, u: Update) {
    u.s == s && u.i == i - 1 && u.r == r + 1
  }

  /** No individual moved. */
  predicate IsUnchanged(s: int, i: int, r: int, u: Update) {
    u.s == s && u.i == i && u.r == r
  }

  /** The infection propensity is density dependent, scaledBeta * S / N
      times the mass-action term S * I, with N the current total; the
      recovery propensity is gamma * I. The division fails when N is 0. */
  function Propensities(p: Params, s: int, i: int, r: int): (rates: Rates)
    requires s + i + r != 0
    ensures i == 0 ==> rates.infection == 0.0 && rates.recovery == 0.0
    ensures s == 0 ==> rates.infection == 0.0
    ensures p.scaledBeta >= 0.0 && p.gamma >= 0.0 && s >= 0 && i >= 0 && s + i + r > 0 ==>
              rates.infection >= 0.0 && rates.recovery >= 0.0
    ensures p.scaledBeta == 0.0 ==> rates.infection == 0.0
    ensures p.gamma > 0.0 && i > 0 ==> rates.recovery > 0.0
  {
    var n := (s + i + r) as real;
    var effectiveBeta := p.scaledBeta * s as real / n;
    NonNegativeProduct(p.scaledBeta, s as real, n, i as real);
    Rates(effectiveBeta * s as real * i as real, p.gamma * i as real)
  }

  /** The sign fact behind the non-negative infection propensity. */
  lemma NonNegativeProduct(b: real, s: real, n: real, i: real)
    ensures b >= 0.0 && s >= 0.0 && n > 0.0 && i >= 0.0 ==> b * s / n * s * i >= 0.0
  {
  }

  /** The event picker. With zero total propensity nothing happens and the
      waiting time is 0. Otherwise the selector chooses infection when
      u * total <= infection propensity and a susceptible is left (at most
      one per step), else recovery when an infected is left, else nothing. */
  function PopulationUpdate(s: int, i: int, r: int, rates: Rates, d: Draw): (res: Update)
    ensures rates.Sum() == 0.0 ==> res == Update(s, i, r, 0.0)
    ensures rates.Sum() != 0.0 ==> res.timeStep == d.timeStep
    // the population is closed
    ensures res.s + res.i + res.r == s + i + r
    ensures (s >= 0 ==> res.s >= 0) && (i >= 0 ==> res.i >= 0) && (r >= 0 ==> res.r >= 0)
    // exactly one individual moves, or none
    ensures IsInfection(s, i, r, res) || IsRecovery(s, i, r, res) || IsUnchanged(s, i, r, res)
    // the competing-event choice
    ensures IsInfection(s, i, r, res) <==>
              rates.Sum() != 0.0 && d.u * rates.Sum() <= rates.infection && s > 0
    ensures IsRecovery(s, i, r, res) <==>
              rates.Sum() != 0.0 && !(d.u * rates.Sum() <= rates.infection && s > 0) && i > 0
    // while both compartments are occupied some event always fires,
    // and 2 * S + I drops by exactly one
    ensures s > 0 && i > 0 && rates.Sum() != 0.0 ==> 2 * res.s + res.i == 2 * s + i - 1
  {
    var total := rates.infection + rates.recovery;
    if total == 0.0 then
      Update(s, i, r, 0.0)
    else if d.u * total <= rates.infection && s > 0 then
      var newInfected := if s < 1 then s else 1;
      Update(s - newInfected, i + newInfected, r, d.timeStep)
    else if i > 0 then
      Update(s, i - 1, r + 1, d.timeStep)
    else
      Update(s, i, r, d.timeStep)
  }

  /** Without transmission (scaledBeta = 0) and with a non-negative recovery
      rate, a selector u > 0 never picks an infection. With u = 0 the test
      `u * total <= infection` still holds and an infection fires even though
      its propensity is zero. */
  lemma NoTransmissionNoInfection(p: Params, s: int, i: int, r: int, d: Draw)
    requires s + i + r != 0 && p.scaledBeta == 0.0 && p.gamma >= 0.0 && i >= 0
    ensures d.u > 0.0 ==> !IsInfection(s, i, r, PopulationUpdate(s, i, r, Propensities(p, s, i, r), d))
    ensures d.u == 0.0 && s > 0 && i > 0 && p.gamma > 0.0 ==>
              IsInfection(s, i, r, PopulationUpdate(s, i, r, Propensities(p, s, i, r), d))
  {
  }
}
