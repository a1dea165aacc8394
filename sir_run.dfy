/**
 The trajectory of one run: the four parallel lists of samples, the
 transition relation a recorded trajectory must follow, and `Simulate`, the
 value-level statement of what the simulation loop appends. The lemmas
 prove conservation, non-negativity, strictly increasing times, the
 append-only discipline, termination with its bound, and the stop
 conditions.
 */
module SirRun {
  import opened SirStep

  /** One recorded sample (S, I, R, t). */
  datatype Sample = Sample(s: int, i: int, r: int, t: real) {
    function Total(): int { s + i + r }
    predicate NonNegative() { s >= 0 && i >= 0 && r >= 0 }
  }

  /** The run's history as four parallel lists, index k holding sample k. */
  datatype History = History(S: seq<int>, I: seq<int>, R: seq<int>, t: seq<real>) {
    predicate Parallel() { |S| == |I| == |R| == |t| }

    function At(k: nat): Sample
      requires Parallel() && k < |S|
    {
      Sample(S[k], I[k], R[k], t[k])
    }

    function Last(): Sample
      requires Parallel() && |S| > 0
    {
      At(|S| - 1)
    }

    function Append(c: Sample): History {
      History(S + [c.s], I + [c.i], R + [c.r], t + [c.t])
    }
  }

  /** The first sample of every run: one infected, everybody else susceptible. */
  function Initial(populationSize: int): Sample {
    Sample(populationSize - 1, 1, 0, 0.0)
  }

  /** `h` is a history holding at least one sample. */
  predicate Started(h: History) {
    h.Parallel() && |h.S| > 0
  }

  /** `h'` only adds samples to the end of each of the four lists of `h`. */
  predicate Extends(h: History, h': History) {
    h.Parallel() && h'.Parallel() && |h.S| <= |h'.S| &&
    h.S == h'.S[..|h.S|] && h.I == h'.I[..|h.I|] && h.R == h'.R[..|h.R|] && h.t == h'.t[..|h.t|]
  }

  /** `b` is recorded after `a` by one step of the loop: the loop was still
      running at `a`, exactly one individual moved, and time advanced. */
  predicate IsStep(a: Sample, b: Sample, tEnd: real) {
    a.t < tEnd && a.Total() > 0 && a.s > 0 && a.i > 0 && a.t < b.t &&
    ((b.s == a.s - 1 && b.i == a.i + 1 && b.r == a.r) ||
     (b.s == a.s && b.i == a.i - 1 && b.r == a.r + 1))
  }

  /** Every consecutive pair of samples of `h` is one step. */
  ghost predicate Chained(h: History, tEnd: real)
    requires h.Parallel()
  {
    forall j, k :: 0 <= j < k < |h.S| && k == j + 1 ==> IsStep(h.At(j), h.At(k), tEnd)
  }

  /** Every random draw is in the samplers' range. */
  ghost predicate ValidDraws(draws: nat -> Draw) {
    forall k: nat :: InRange(draws(k))
  }

  /** The states `Simulate` starts from: no negative S or I, unless the total
      is not positive (then the loop guard fails at once). The source itself
      would also run from, say, S = -1, I = 2, R = 0, but no such state is
      reachable from the initial sample, where S >= 0 whenever the
      population is not empty. */
  predicate Runnable(c: Sample) {
    c.Total() <= 0 || (c.s >= 0 && c.i >= 0)
  }

  /** The termination measure: susceptibles count twice, because each can
      still be infected and then recover. */
  function Measure(c: Sample): nat {
    if c.s >= 0 && c.i >= 0 then 2 * c.s + c.i else 0
  }

  /** The loop's stopping conditions at state `c`, with `d` the draw the
      next step would use: the horizon is reached, the population is empty,
      S or I is exhausted, or the step's waiting time is zero (either no
      event is possible or the sampler returned 0). */
  predicate Halts(p: Params, tEnd: real, c: Sample, d: Draw) {
    c.t >= tEnd || c.Total() <= 0 || c.s == 0 || c.i == 0 ||
    Propensities(p, c.s, c.i, c.r).Sum() == 0.0 || d.timeStep == 0.0
  }

  datatype Option<T> = None | Some(value: T)

  /** One iteration of the loop body from the last sample `c`, with draw
      `d`: `None` when the loop stops there (its guard fails, S or I is
      exhausted, or the step's waiting time is 0), else the sample it
      appends. Each appended sample lowers 2 * S + I by one. */
  function Next(p: Params, tEnd: real, c: Sample, d: Draw): (o: Option<Sample>)
    requires Runnable(c)
    ensures o.Some? ==> Runnable(o.value) && Measure(o.value) == Measure(c) - 1
  {
    if !(c.t < tEnd && c.Total() > 0) then None
    else if c.s == 0 || c.i == 0 then None
    else
      var u := PopulationUpdate(c.s, c.i, c.r, Propensities(p, c.s, c.i, c.r), d);
      if u.timeStep == 0.0 then None
      else Some(Sample(u.s, u.i, u.r, c.t + u.timeStep))
  }

  /** The loop body appends nothing exactly when a stop condition holds. */
  lemma NextHalts(p: Params, tEnd: real, c: Sample, d: Draw)
    requires Runnable(c)
    ensures Next(p, tEnd, c, d).None? <==> Halts(p, tEnd, c, d)
  {
  }

  /** With an in-range draw, the sample the loop body appends is one step
      from `c`. */
  lemma NextStep(p: Params, tEnd: real, c: Sample, d: Draw)
    requires Runnable(c) && InRange(d)
    ensures var o := Next(p, tEnd, c, d); o.Some? ==> IsStep(c, o.value, tEnd)
  {
  }

  /** The samples the simulation loop appends to `h`. The draw `draws(n)`
      is the one used to append sample number n, so the next step of `h`
      uses `draws(|h.S|)`. Recursion follows the loop's iterations. */
  function Simulate(p: Params, tEnd: real, h: History, draws: nat -> Draw): (h': History)
    requires Started(h) && Runnable(h.Last())
    ensures Started(h') && |h.S| <= |h'.S| && Runnable(h'.Last())
    decreases Measure(h.Last())
  {
    match Next(p, tEnd, h.Last(), draws(|h.S|))
    case None => h
    case Some(c) =>
      assert h.Append(c).Last() == c;
      Simulate(p, tEnd, h.Append(c), draws)
  }

  /** The loop only appends: every earlier sample stays where it was. */
  lemma {:induction false} SimulateExtends(p: Params, tEnd: real, h: History, draws: nat -> Draw)
    requires Started(h) && Runnable(h.Last())
    ensures Extends(h, Simulate(p, tEnd, h, draws))
    decreases Measure(h.Last())
  {
    match Next(p, tEnd, h.Last(), draws(|h.S|))
    case None =>
    case Some(c) =>
      var h1 := h.Append(c);
      assert h1.Last() == c;
      SimulateExtends(p, tEnd, h1, draws);
      ExtendsAppend(h, c);
      ExtendsTransitive(h, h1, Simulate(p, tEnd, h1, draws));
  }

  /** Appending a sample extends a history. */
  lemma ExtendsAppend(h: History, c: Sample)
    requires h.Parallel()
    ensures Extends(h, h.Append(c))
  {
  }

  /** Extension is transitive. */
  lemma ExtendsTransitive(a: History, b: History, c: History)
    requires Extends(a, b) && Extends(b, c)
    ensures Extends(a, c)
  {
  }

  /** One iteration of the loop: from a state `c` where the loop goes on and
      the step `u` has a non-zero waiting time, the run continues from the
      history with the next sample appended, whose measure is smaller. */
  lemma SimulateStep(p: Params, tEnd: real, h: History, draws: nat -> Draw, c: Sample, u: Update, next: Sample)
    requires Started(h) && c == h.Last()
    requires c.t < tEnd && c.Total() > 0 && c.s > 0 && c.i > 0
    requires u == PopulationUpdate(c.s, c.i, c.r, Propensities(p, c.s, c.i, c.r), draws(|h.S|))
    requires u.timeStep != 0.0 && next == Sample(u.s, u.i, u.r, c.t + u.timeStep)
    ensures Started(h.Append(next)) && h.Append(next).Last() == next
    ensures Runnable(next) && Measure(next) < Measure(c)
    ensures Simulate(p, tEnd, h, draws) == Simulate(p, tEnd, h.Append(next), draws)
  {
    // not needed for validity, but naming the step keeps the proof cheap
    assert h.Append(next).Last() == next;
    assert Next(p, tEnd, c, draws(|h.S|)) == Some(next);
  }

  /** The loop appends nothing once its guard fails (the horizon is reached
      or the population is empty) ... */
  lemma SimulateStopsAtGuard(p: Params, tEnd: real, h: History, draws: nat -> Draw)
    requires Started(h) && Runnable(h.Last())
    ensures !(h.Last().t < tEnd && h.Last().Total() > 0) ==> Simulate(p, tEnd, h, draws) == h
  {
  }

  /** ... or once S or I is exhausted ... */
  lemma SimulateStopsAtExhaustion(p: Params, tEnd: real, h: History, draws: nat -> Draw)
    requires Started(h) && Runnable(h.Last())
    requires h.Last().s == 0 || h.Last().i == 0
    ensures Simulate(p, tEnd, h, draws) == h
  {
  }

  /** ... or once a step draws a zero waiting time. */
  lemma SimulateStopsAtZeroStep(p: Params, tEnd: real, h: History, draws: nat -> Draw, c: Sample, u: Update)
    requires Started(h) && Runnable(h.Last()) && c == h.Last() && c.Total() != 0
    requires u == PopulationUpdate(c.s, c.i, c.r, Propensities(p, c.s, c.i, c.r), draws(|h.S|))
    requires u.timeStep == 0.0
    ensures Simulate(p, tEnd, h, draws) == h
  {
  }

  /** Appending a step keeps a history chained. */
  lemma AppendStep(h: History, c: Sample, tEnd: real)
    requires Started(h) && Chained(h, tEnd) && IsStep(h.Last(), c, tEnd)
    ensures h.Append(c).Parallel() && Chained(h.Append(c), tEnd) && h.Append(c).Last() == c
  {
    var h' := h.Append(c);
    forall k | 0 <= k < |h'.S| - 1
      ensures IsStep(h'.At(k), h'.At(k + 1), tEnd)
    {
      if k < |h.S| - 1 {
        assert h'.At(k) == h.At(k) && h'.At(k + 1) == h.At(k + 1);
      } else {
        assert h'.At(k) == h.Last() && h'.At(k + 1) == c;
      }
    }
  }

  /** Each appended sample is one step of the chain, so the loop keeps the
      history chained. */
  lemma {:induction false} SimulateChained(p: Params, tEnd: real, h: History, draws: nat -> Draw)
    requires Started(h) && Runnable(h.Last()) && Chained(h, tEnd) && ValidDraws(draws)
    ensures Chained(Simulate(p, tEnd, h, draws), tEnd)
    decreases Measure(h.Last())
  {
    match Next(p, tEnd, h.Last(), draws(|h.S|))
    case None =>
    case Some(c) =>
      assert InRange(draws(|h.S|));
      NextStep(p, tEnd, h.Last(), draws(|h.S|));
      AppendStep(h, c, tEnd);
      SimulateChained(p, tEnd, h.Append(c), draws);
  }

  /** Every appended sample lowers 2 * S + I by exactly one, so the number of
      appended samples is the drop of the measure, and at most its start. */
  lemma {:induction false} SimulateMeasure(p: Params, tEnd: real, h: History, draws: nat -> Draw)
    requires Started(h) && Runnable(h.Last())
    ensures var h' := Simulate(p, tEnd, h, draws);
      Measure(h'.Last()) + (|h'.S| - |h.S|) == Measure(h.Last())
    decreases Measure(h.Last())
  {
    match Next(p, tEnd, h.Last(), draws(|h.S|))
    case None =>
    case Some(c) =>
      assert h.Append(c).Last() == c;
      SimulateMeasure(p, tEnd, h.Append(c), draws);
  }

  /** The run ends where the loop body, given the next unused draw, appends
      nothing. */
  lemma {:induction false} SimulateStops(p: Params, tEnd: real, h: History, draws: nat -> Draw)
    requires Started(h) && Runnable(h.Last())
    ensures var h' := Simulate(p, tEnd, h, draws);
      Next(p, tEnd, h'.Last(), draws(|h'.S|)).None?
    decreases Measure(h.Last())
  {
    match Next(p, tEnd, h.Last(), draws(|h.S|))
    case None =>
    case Some(c) =>
      assert h.Append(c).Last() == c;
      SimulateStops(p, tEnd, h.Append(c), draws);
  }

  /** The loop stops exactly at a state where a stop condition holds, with
      the draw the next step would have used. */
  lemma SimulateHalts(p: Params, tEnd: real, h: History, draws: nat -> Draw)
    requires Started(h) && Runnable(h.Last())
    ensures var h' := Simulate(p, tEnd, h, draws);
      Halts(p, tEnd, h'.Last(), draws(|h'.S|))
  {
    var h' := Simulate(p, tEnd, h, draws);
    SimulateStops(p, tEnd, h, draws);
    NextHalts(p, tEnd, h'.Last(), draws(|h'.S|));
  }

  /** Without transmission and with selectors that are never 0, the loop
      never infects: the susceptible count at the end is the one at the
      start. */
  lemma {:induction false} SimulateWithoutTransmission(p: Params, tEnd: real, h: History, draws: nat -> Draw)
    requires Started(h) && Runnable(h.Last())
    requires p.scaledBeta == 0.0 && p.gamma >= 0.0
    requires forall j: nat :: draws(j).u > 0.0
    ensures Simulate(p, tEnd, h, draws).Last().s == h.Last().s
    decreases Measure(h.Last())
  {
    match Next(p, tEnd, h.Last(), draws(|h.S|))
    case None =>
    case Some(c) =>
      var l := h.Last();
      NoTransmissionNoInfection(p, l.s, l.i, l.r, draws(|h.S|));
      assert c.s == l.s;
      assert h.Append(c).Last() == c;
      SimulateWithoutTransmission(p, tEnd, h.Append(c), draws);
  }

  /** A run that starts from the initial sample of a population of N >= 1
      appends at most 2 * (N - 1) + 1 samples. */
  lemma InitialRunBound(p: Params, tEnd: real, draws: nat -> Draw, populationSize: int)
    requires populationSize >= 1
    ensures |Simulate(p, tEnd, History([populationSize - 1], [1], [0], [0.0]), draws).S| <=
              2 * (populationSize - 1) + 2
  {
    var h := History([populationSize - 1], [1], [0], [0.0]);
    SimulateMeasure(p, tEnd, h, draws);
  }

  /** Every sample of a chained history has the population of the first. */
  lemma {:induction false} ChainedConserves(h: History, tEnd: real, k: nat)
    requires Started(h) && Chained(h, tEnd) && k < |h.S|
    ensures h.At(k).Total() == h.At(0).Total()
  {
    if k > 0 {
      ChainedConserves(h, tEnd, k - 1);
      assert IsStep(h.At(k - 1), h.At(k), tEnd);
    }
  }

  /** A chained history that starts with no negative count never has one. */
  lemma {:induction false} ChainedNonNegative(h: History, tEnd: real, k: nat)
    requires Started(h) && Chained(h, tEnd) && k < |h.S| && h.At(0).NonNegative()
    ensures h.At(k).NonNegative()
  {
    if k > 0 {
      ChainedNonNegative(h, tEnd, k - 1);
      assert IsStep(h.At(k - 1), h.At(k), tEnd);
    }
  }

  /** Times strictly increase along a chained history. */
  lemma {:induction false} ChainedTimesIncrease(h: History, tEnd: real, j: nat, k: nat)
    requires Started(h) && Chained(h, tEnd) && j < k < |h.S|
    ensures h.t[j] < h.t[k]
  {
    assert IsStep(h.At(k - 1), h.At(k), tEnd);
    if j < k - 1 {
      ChainedTimesIncrease(h, tEnd, j, k - 1);
    }
  }

  /** A run's history is valid when it starts with the initial sample, each
      later sample is one step of the loop from the one before, and the loop
      could be entered from its last sample. */
  ghost predicate ValidRun(h: History, tEnd: real, populationSize: int) {
    Started(h) && h.At(0) == Initial(populationSize) && Chained(h, tEnd) && Runnable(h.Last())
  }

  /** A valid history keeps the population size in every sample, has no
      negative count when the population holds at least one individual, and
      records times that start at 0 and strictly increase. */
  lemma ValidRunProperties(h: History, tEnd: real, populationSize: int)
    requires ValidRun(h, tEnd, populationSize)
    ensures forall k :: 0 <= k < |h.S| ==> h.S[k] + h.I[k] + h.R[k] == populationSize
    ensures populationSize >= 1 ==>
              forall k :: 0 <= k < |h.S| ==> h.S[k] >= 0 && h.I[k] >= 0 && h.R[k] >= 0
    ensures forall j, k :: 0 <= j < k < |h.t| ==> h.t[j] < h.t[k]
    ensures h.t[0] == 0.0 && forall k :: 0 <= k < |h.t| ==> h.t[k] >= 0.0
  {
    forall k | 0 <= k < |h.S|
      ensures h.S[k] + h.I[k] + h.R[k] == populationSize
      ensures populationSize >= 1 ==> h.S[k] >= 0 && h.I[k] >= 0 && h.R[k] >= 0
    {
      ChainedConserves(h, tEnd, k);
      if populationSize >= 1 {
        ChainedNonNegative(h, tEnd, k);
      }
    }
    forall j, k | 0 <= j < k < |h.t|
      ensures h.t[j] < h.t[k]
    {
      ChainedTimesIncrease(h, tEnd, j, k);
    }
    forall k | 0 <= k < |h.t|
      ensures h.t[k] >= 0.0
    {
      if k > 0 {
        ChainedTimesIncrease(h, tEnd, 0, k);
      }
    }
  }

  /** Everything the loop promises of a run started from a valid history:
      the result is again valid, only extends the old history, the measure
      accounts for every appended sample, and a stop condition holds at the
      end for the draw the next step would use. */
  lemma SimulateFromValid(p: Params, tEnd: real, h: History, draws: nat -> Draw, populationSize: int)
    requires ValidRun(h, tEnd, populationSize) && ValidDraws(draws)
    ensures var h' := Simulate(p, tEnd, h, draws);
      ValidRun(h', tEnd, populationSize) && Extends(h, h') &&
      |h'.S| - |h.S| + Measure(h'.Last()) == Measure(h.Last()) &&
      Halts(p, tEnd, h'.Last(), draws(|h'.S|))
  {
    var h' := Simulate(p, tEnd, h, draws);
    SimulateExtends(p, tEnd, h, draws);
    SimulateChained(p, tEnd, h, draws);
    SimulateMeasure(p, tEnd, h, draws);
    SimulateHalts(p, tEnd, h, draws);
    assert h'.At(0) == h.At(0);
  }
}
