// The driver: one Markov chain per division (one thread of the program), and one bin, which
// runs every division's chain in batches of nThread, folds the ratios into ln(Z/Z_ref) and reports
// the estimate of ln Z. The pseudo-random draws of every chain are supplied by the caller.

module Driver {
  import opened Operators
  import opened Engine
  import opened Division
  import opened Batches
  import opened Telescope

  /**
   * The raw generator outputs one chain consumes: its initial spins, and for sweep t the bond
   * draws and acceptances of the diagonal update (per slot), the loop draws (per even leg) and the
   * draws for the free spins (per site).
   */
  datatype Draws = Draws(spin: int -> nat, bond: (int, int) -> nat, accept: (int, int) -> bool,
                         loop: (int, int) -> nat, site: (int, int) -> nat)

  /** The sum of the reweighting factors alpha^nw over the measured configurations. */
  function SumFactors(alpha: real, ws: seq<nat>): real {
    if |ws| == 0 then 0.0 else SumFactors(alpha, ws[..|ws| - 1]) + Power(alpha, ws[|ws| - 1])
  }

  /** With 0 < alpha <= 1 every factor is in (0, 1], so the sum lies in (0, |ws|] once something was measured. */
  lemma {:induction false} SumFactorsBounds(alpha: real, ws: seq<nat>)
    requires 0.0 < alpha <= 1.0
    ensures 0.0 <= SumFactors(alpha, ws) <= |ws| as real
    ensures |ws| > 0 ==> SumFactors(alpha, ws) > 0.0
  {
    if |ws| > 0 {
      SumFactorsBounds(alpha, ws[..|ws| - 1]);
      PowerInUnit(alpha, ws[|ws| - 1]);
    }
  }

  /** The bond draws of sweep t, one per slot of a string of m slots. */
  function BondDraws(draws: Draws, t: int, m: nat): (r: seq<nat>)
    ensures |r| == m && forall p | 0 <= p < m :: r[p] == draws.bond(t, p)
  {
    seq<nat>(m, p => draws.bond(t, p))
  }

  /** The acceptances of sweep t, one per slot. */
  function AcceptDraws(draws: Draws, t: int, m: nat): (r: seq<bool>)
    ensures |r| == m && forall p | 0 <= p < m :: r[p] == draws.accept(t, p)
  {
    seq(m, p => draws.accept(t, p))
  }

  /** The loop draws of sweep t, one per even leg of a string of m slots. */
  function LoopDraws(draws: Draws, t: int, m: nat): (r: seq<nat>)
    ensures |r| == 2 * m && forall v | 0 <= v < 2 * m :: r[v] == draws.loop(t, v)
  {
    seq<nat>(2 * m, v => draws.loop(t, v))
  }

  /** The free-spin draws of sweep t, one per site. */
  function SiteDraws(draws: Draws, t: int, l: nat): (r: seq<nat>)
    ensures |r| == l && forall s | 0 <= s < l :: r[s] == draws.site(t, s)
  {
    seq<nat>(l, s => draws.site(t, s))
  }

  /** updateConfig with the draws of sweep t takes string O and spins S on l sites to O2, S2 and marks X2. */
  ghost predicate SweptBy(l: nat, draws: Draws, t: int, O: seq<int>, S: seq<int>, O2: seq<int>, S2: seq<int>, X2: seq<int>) {
    Swept(l, O, S, BondDraws(draws, t, |O|), AcceptDraws(draws, t, |O|), LoopDraws(draws, t, |O|), SiteDraws(draws, t, l),
          O2, S2, X2)
  }

  /** The configuration a chain starts from: 20 identity slots and a spin up where its draw exceeds one half. */
  ghost predicate Initial(l: nat, draws: Draws, O: seq<int>, S: seq<int>) {
    O == Padding(20) && |S| == l &&
    forall i | 0 <= i < l :: S[i] == if RandProb(draws.spin(i)) > 0.5 then 1 else -1
  }

  /**
   * One sweep of a chain as it happened: updateConfig took string opsIn and spins spinsIn to string
   * opsSwept, spins spinsOut and marks marks; opsOut is the string the next sweep starts from.
   */
  datatype SweepRecord = SweepRecord(opsIn: seq<int>, spinsIn: seq<int>, opsSwept: seq<int>, marks: seq<int>,
                                     opsOut: seq<int>, spinsOut: seq<int>)

  /** Sweep t of a chain: updateConfig with the draws of sweep t, then adjustM while t < stepThm. */
  ghost predicate Step(l: nat, draws: Draws, stepThm: int, t: int, r: SweepRecord) {
    SweptBy(l, draws, t, r.opsIn, r.spinsIn, r.opsSwept, r.spinsOut, r.marks) &&
    r.opsOut == if t < stepThm then Adjusted(r.opsSwept) else r.opsSwept
  }

  /** Sweep i starts where sweep i - 1 ended, and sweep 0 at (O0, S0). */
  ghost predicate Follows(O0: seq<int>, S0: seq<int>, rs: seq<SweepRecord>, i: int) {
    0 <= i < |rs| &&
    if i == 0 then rs[i].opsIn == O0 && rs[i].spinsIn == S0
    else rs[i].opsIn == rs[i - 1].opsOut && rs[i].spinsIn == rs[i - 1].spinsOut
  }

  /** The string after the sweeps rs from O0. */
  function EndOps(O0: seq<int>, rs: seq<SweepRecord>): seq<int> {
    if |rs| == 0 then O0 else rs[|rs| - 1].opsOut
  }

  /** The spins after the sweeps rs from S0. */
  function EndSpins(S0: seq<int>, rs: seq<SweepRecord>): seq<int> {
    if |rs| == 0 then S0 else rs[|rs| - 1].spinsOut
  }

  /**
   * The records rs are a chain of steps from (O0, S0): record i satisfies step for sweep number i
   * and starts where record i - 1 ended.
   */
  ghost predicate Chained(step: (int, SweepRecord) -> bool, O0: seq<int>, S0: seq<int>, rs: seq<SweepRecord>) {
    forall i {:trigger Follows(O0, S0, rs, i)} | 0 <= i < |rs| :: step(i, rs[i]) && Follows(O0, S0, rs, i)
  }

  /** A step from where the chain ends, numbered |rs|, extends it. */
  lemma ChainedSnoc(step: (int, SweepRecord) -> bool, O0: seq<int>, S0: seq<int>, rs: seq<SweepRecord>, r: SweepRecord)
    requires Chained(step, O0, S0, rs)
    requires step(|rs|, r) && r.opsIn == EndOps(O0, rs) && r.spinsIn == EndSpins(S0, rs)
    ensures Chained(step, O0, S0, rs + [r])
  {
    var rs' := rs + [r];
    forall i | 0 <= i < |rs'|
      ensures step(i, rs'[i]) && Follows(O0, S0, rs', i)
    {
      if i < |rs| {
        assert rs'[i] == rs[i] && step(i, rs[i]) && Follows(O0, S0, rs, i);
        if i > 0 {
          assert rs'[i - 1] == rs[i - 1];
        }
      } else {
        assert rs'[i] == r;
        if i > 0 {
          assert rs'[i - 1] == rs[i - 1];
        }
      }
    }
  }

  /** The sweeps of the chain with draws draws, l sites and stepThm thermalization sweeps. */
  ghost function StepOf(l: nat, draws: Draws, stepThm: int): (int, SweepRecord) -> bool {
    (t: int, r: SweepRecord) => Step(l, draws, stepThm, t, r)
  }

  /** The first |rs| sweeps of a chain from (O0, S0): sweep i is Step i and starts where sweep i - 1 ended. */
  ghost predicate Trajectory(l: nat, draws: Draws, stepThm: int, O0: seq<int>, S0: seq<int>, rs: seq<SweepRecord>) {
    Chained(StepOf(l, draws, stepThm), O0, S0, rs)
  }

  /**
   * A chain of stepThm thermalization and stepStat measurement sweeps from its initial
   * configuration, whose measured configurations have weights[i] weak-bond operators each.
   */
  ghost predicate ChainRun(l: nat, draws: Draws, stepThm: nat, stepStat: nat, weights: seq<nat>) {
    |weights| == stepStat &&
    exists O0: seq<int>, S0: seq<int>, rs: seq<SweepRecord> ::
      Initial(l, draws, O0, S0) && Sampled(l, draws, stepThm, O0, S0, rs, weights)
  }

  /**
   * A chain of steps from (O0, S0) through stepThm unmeasured steps and |weights| measured ones,
   * the j-th of which left a string with weights[j] weak-bond operators.
   */
  ghost predicate Measured(step: (int, SweepRecord) -> bool, O0: seq<int>, S0: seq<int>, stepThm: nat,
                           rs: seq<SweepRecord>, weights: seq<nat>)
  {
    Chained(step, O0, S0, rs) && |rs| == stepThm + |weights| &&
    forall j | 0 <= j < |weights| :: weights[j] == CountWeak(rs[stepThm + j].opsSwept)
  }

  /** One more measured step extends the chain by its record and the weight of the string it left. */
  lemma MeasuredSnoc(step: (int, SweepRecord) -> bool, O0: seq<int>, S0: seq<int>, stepThm: nat,
                     rs: seq<SweepRecord>, weights: seq<nat>, r: SweepRecord)
    requires Measured(step, O0, S0, stepThm, rs, weights)
    requires step(|rs|, r) && r.opsIn == EndOps(O0, rs) && r.spinsIn == EndSpins(S0, rs)
    ensures Measured(step, O0, S0, stepThm, rs + [r], weights + [CountWeak(r.opsSwept)])
  {
    ChainedSnoc(step, O0, S0, rs, r);
    var rs', ws' := rs + [r], weights + [CountWeak(r.opsSwept)];
    forall j | 0 <= j < |ws'|
      ensures ws'[j] == CountWeak(rs'[stepThm + j].opsSwept)
    {
      if j < |weights| {
        assert rs'[stepThm + j] == rs[stepThm + j];
      } else {
        assert stepThm + j == |rs|;
      }
    }
  }

  /**
   * The trajectory of a chain from (O0, S0) through the stepThm thermalization sweeps and |weights|
   * measurement sweeps, the j-th of which left a string with weights[j] weak-bond operators.
   */
  ghost predicate Sampled(l: nat, draws: Draws, stepThm: nat, O0: seq<int>, S0: seq<int>, rs: seq<SweepRecord>,
                          weights: seq<nat>)
  {
    Measured(StepOf(l, draws, stepThm), O0, S0, stepThm, rs, weights)
  }

  lemma MeanInUnit(s: real, k: real)
    requires 0.0 < s <= k
    ensures 0.0 < s / k <= 1.0
  {
  }

  /**
   * threadFunc: a chain at coupling jw with weight alpha. stepThm thermalization sweeps, each
   * followed by the cut-off adjustment, then stepStat sweeps each followed by a measurement.
   * The ratio is the mean of alpha^nw over the measured configurations of the chain its draws
   * drive, nw being the number of weak-bond operators in each, and hence lies in (0, 1].
   */
  method RunChain(l: int, alpha: real, bt: real, jw: real, stepThm: nat, stepStat: nat, draws: Draws)
    returns (ratio: real, ghost weights: seq<nat>)
    requires l >= 2 && 0.0 < alpha <= 1.0 && stepStat > 0
    ensures ChainRun(l, draws, stepThm, stepStat, weights)
    ensures ratio == SumFactors(alpha, weights) / stepStat as real
    ensures 0.0 < ratio <= 1.0
  {
    var model := new HeisenbergSSE(l, alpha, bt, jw, seq(l, i => draws.spin(i)));
    ghost var O0, S0 := model.opString[..], model.spins[..];
    assert Initial(l, draws, O0, S0);
    ghost var rs := Thermalize(model, stepThm, draws);
    model.IniMeasure();
    weights, rs := Sample(model, stepThm, stepStat, draws, O0, S0, rs);
    model.Statisticize();
    ratio := model.zzRatio;
    SumFactorsBounds(alpha, weights);
    MeanInUnit(SumFactors(alpha, weights), stepStat as real);
  }

  /**
   * The thermalization: stepThm sweeps, each followed by the cut-off adjustment. The sweeps it
   * makes are the first stepThm of a trajectory from the model's configuration, and the model
   * ends where they end.
   */
  method Thermalize(model: HeisenbergSSE, stepThm: nat, draws: Draws) returns (ghost rs: seq<SweepRecord>)
    requires model.Valid()
    modifies model`n, model`nw, model`M, model`opString, model`vertexList
    modifies model.opString, model.spins, model.vertexList, model.vFirst, model.vLast
    ensures model.Valid() && old(model.M) <= model.M
    ensures fresh(model.opString) || model.opString == old(model.opString)
    ensures fresh(model.vertexList) || model.vertexList == old(model.vertexList)
    ensures Trajectory(model.L, draws, stepThm, old(model.opString[..]), old(model.spins[..]), rs) && |rs| == stepThm
    ensures EndOps(old(model.opString[..]), rs) == model.opString[..] && EndSpins(old(model.spins[..]), rs) == model.spins[..]
  {
    ghost var O0, S0 := model.opString[..], model.spins[..];
    rs := [];
    for i := 0 to stepThm
      invariant model.Valid() && old(model.M) <= model.M
      invariant fresh(model.opString) || model.opString == old(model.opString)
      invariant fresh(model.vertexList) || model.vertexList == old(model.vertexList)
      invariant Trajectory(model.L, draws, stepThm, O0, S0, rs) && |rs| == i
      invariant EndOps(O0, rs) == model.opString[..] && EndSpins(S0, rs) == model.spins[..]
    {
      rs := ThermalizeStep(model, stepThm, i, draws, O0, S0, rs);
    }
  }

  /**
   * One thermalization sweep, number t = |rs|, and the cut-off adjustment after it: the
   * trajectory that ends in the model's configuration grows by that sweep.
   */
  method ThermalizeStep(model: HeisenbergSSE, stepThm: nat, t: nat, draws: Draws,
                        ghost O0: seq<int>, ghost S0: seq<int>, ghost rs: seq<SweepRecord>)
    returns (ghost rs': seq<SweepRecord>)
    requires model.Valid() && Trajectory(model.L, draws, stepThm, O0, S0, rs) && t == |rs| < stepThm
    requires EndOps(O0, rs) == model.opString[..] && EndSpins(S0, rs) == model.spins[..]
    modifies model`n, model`nw, model`M, model`opString, model`vertexList
    modifies model.opString, model.spins, model.vertexList, model.vFirst, model.vLast
    ensures model.Valid() && old(model.M) <= model.M
    ensures fresh(model.opString) || model.opString == old(model.opString)
    ensures fresh(model.vertexList) || model.vertexList == old(model.vertexList)
    ensures Trajectory(model.L, draws, stepThm, O0, S0, rs') && |rs'| == |rs| + 1
    ensures EndOps(O0, rs') == model.opString[..] && EndSpins(S0, rs') == model.spins[..]
  {
    ghost var O, S := model.opString[..], model.spins[..];
    Sweep(model, t, draws);
    ghost var P, X := model.opString[..], model.vertexList[..];
    model.AdjustM();
    ghost var r := SweepRecord(O, S, P, X, model.opString[..], model.spins[..]);
    ChainedSnoc(StepOf(model.L, draws, stepThm), O0, S0, rs, r);
    rs' := rs + [r];
  }

  /**
   * The measurement phase: stepStat sweeps, each followed by a measurement, continuing the
   * trajectory of the thermalization. The accumulator ends as the sum of alpha^nw over the
   * weak-operator counts nw of the measured configurations, which are those the sweeps left.
   */
  method Sample(model: HeisenbergSSE, stepThm: nat, stepStat: nat, draws: Draws,
                ghost O0: seq<int>, ghost S0: seq<int>, ghost rs: seq<SweepRecord>)
    returns (ghost weights: seq<nat>, ghost rs': seq<SweepRecord>)
    requires model.Valid() && model.zzRatio == 0.0 && model.nMeasure == 0
    requires Trajectory(model.L, draws, stepThm, O0, S0, rs) && |rs| == stepThm
    requires EndOps(O0, rs) == model.opString[..] && EndSpins(S0, rs) == model.spins[..]
    modifies model`n, model`nw, model`zzRatio, model`nMeasure, model.opString, model.spins, model.vertexList,
             model.vFirst, model.vLast
    ensures |weights| == stepStat && model.nMeasure == stepStat
    ensures model.zzRatio == SumFactors(model.alpha_inv, weights)
    ensures Sampled(model.L, draws, stepThm, O0, S0, rs', weights)
  {
    weights, rs' := [], rs;
    for i := 0 to stepStat
      invariant model.Valid()
      invariant |weights| == i && model.nMeasure == i && model.zzRatio == SumFactors(model.alpha_inv, weights)
      invariant Sampled(model.L, draws, stepThm, O0, S0, rs', weights)
      invariant EndOps(O0, rs') == model.opString[..] && EndSpins(S0, rs') == model.spins[..]
    {
      ghost var ws := weights;
      weights, rs' := SampleStep(model, stepThm, stepThm + i, draws, O0, S0, rs', weights);
      assert weights[..i] == ws;
    }
  }

  /**
   * One measurement sweep, number t = |rs|, then the measurement of the configuration it leaves:
   * the sampled trajectory grows by that sweep and the weight of that configuration.
   */
  method SampleStep(model: HeisenbergSSE, stepThm: nat, t: nat, draws: Draws, ghost O0: seq<int>, ghost S0: seq<int>,
                    ghost rs: seq<SweepRecord>, ghost weights: seq<nat>)
    returns (ghost weights': seq<nat>, ghost rs': seq<SweepRecord>)
    requires model.Valid() && Sampled(model.L, draws, stepThm, O0, S0, rs, weights) && t == |rs|
    requires EndOps(O0, rs) == model.opString[..] && EndSpins(S0, rs) == model.spins[..]
    modifies model`n, model`nw, model`zzRatio, model`nMeasure, model.opString, model.spins, model.vertexList,
             model.vFirst, model.vLast
    ensures model.Valid() && Sampled(model.L, draws, stepThm, O0, S0, rs', weights')
    ensures EndOps(O0, rs') == model.opString[..] && EndSpins(S0, rs') == model.spins[..]
    ensures |weights'| == |weights| + 1 && weights'[..|weights|] == weights
    ensures model.zzRatio == old(model.zzRatio) + Power(model.alpha_inv, weights'[|weights|])
    ensures model.nMeasure == old(model.nMeasure) + 1
  {
    ghost var O, S := model.opString[..], model.spins[..];
    Sweep(model, t, draws);
    ghost var r := SweepRecord(O, S, model.opString[..], model.vertexList[..], model.opString[..], model.spins[..]);
    model.CounterBounds();
    MeasuredSnoc(StepOf(model.L, draws, stepThm), O0, S0, stepThm, rs, weights, r);
    weights', rs' := weights + [model.nw], rs + [r];
    assert weights'[..|weights|] == weights;
    model.Measure();
  }

  /** updateConfig with the draws of sweep t: the new string, spins and marks are the ones Swept describes. */
  method Sweep(model: HeisenbergSSE, t: nat, draws: Draws)
    requires model.Valid()
    modifies model`n, model`nw, model.opString, model.spins, model.vertexList, model.vFirst, model.vLast
    ensures model.Valid() && model.M == old(model.M)
    ensures SweptBy(model.L, draws, t, old(model.opString[..]), old(model.spins[..]),
                    model.opString[..], model.spins[..], model.vertexList[..])
  {
    model.UpdateConfig(BondDraws(draws, t, model.M), AcceptDraws(draws, t, model.M),
                       LoopDraws(draws, t, model.M), SiteDraws(draws, t, model.L));
  }

  /**
   * Division i ran its chain with draws draws: the measured configurations had the weak-operator
   * counts w, and its ratio is the mean of alpha^nw over them.
   */
  ghost predicate DivisionRun(l: nat, draws: Draws, stepThm: nat, stepStat: nat, alpha: real, w: seq<nat>, ratio: real) {
    ChainRun(l, draws, stepThm, stepStat, w) && stepStat > 0 && ratio == SumFactors(alpha, w) / stepStat as real
  }

  /** Bin bin ran every division i with the draws draws(bin, i), giving weights ws[i] and ratio ratios[i]. */
  ghost predicate BinRun(l: nat, draws: (int, int) -> Draws, bin: int, stepThm: nat, stepStat: nat, alphas: seq<real>,
                         ws: seq<seq<nat>>, ratios: seq<real>)
  {
    |ws| == |alphas| && |ratios| == |alphas| &&
    forall i | 0 <= i < |alphas| :: DivisionRun(l, draws(bin, i), stepThm, stepStat, alphas[i], ws[i], ratios[i])
  }

  /** Slot j of the bin is done: its ratio is in (0, 1] and came from division j's chain with weights ws[j]. */
  ghost predicate Ran(l: nat, draws: (int, int) -> Draws, bin: int, stepThm: nat, stepStat: nat, alphas: seq<real>,
                      ws: seq<seq<nat>>, ratios: seq<real>, j: int)
  {
    0 <= j < |alphas| && j < |ws| && j < |ratios| && 0.0 < ratios[j] <= 1.0 &&
    DivisionRun(l, draws(bin, j), stepThm, stepStat, alphas[j], ws[j], ratios[j])
  }

  /** A done slot stays done while its weights and ratio are left alone. */
  lemma RanKept(l: nat, draws: (int, int) -> Draws, bin: int, stepThm: nat, stepStat: nat, alphas: seq<real>,
                ws: seq<seq<nat>>, ratios: seq<real>, ws': seq<seq<nat>>, ratios': seq<real>, j: int)
    requires Ran(l, draws, bin, stepThm, stepStat, alphas, ws, ratios, j)
    requires j < |ws'| && j < |ratios'| && ws'[j] == ws[j] && ratios'[j] == ratios[j]
    ensures Ran(l, draws, bin, stepThm, stepStat, alphas, ws', ratios', j)
  {
  }

  /**
   * One batch of threads: the chain of every division in batch, each writing its own slot of
   * Ratios; the other slots and their weights are left alone.
   */
  method RunBatch(l: int, bt: real, alphas: seq<real>, jws: seq<real>, stepThm: nat, stepStat: nat,
                  draws: (int, int) -> Draws, bin: int, batch: seq<int>, Ratios: array<real>, ghost ws: seq<seq<nat>>)
    returns (ghost ws': seq<seq<nat>>)
    requires l >= 2 && stepStat > 0 && |alphas| == |jws| == Ratios.Length == |ws|
    requires forall i | 0 <= i < |alphas| :: 0.0 < alphas[i] <= 1.0
    requires forall k | 0 <= k < |batch| :: 0 <= batch[k] < |jws|
    modifies Ratios
    ensures |ws'| == |ws|
    ensures forall j | 0 <= j < |ws| && j !in batch :: ws'[j] == ws[j] && Ratios[j] == old(Ratios[j])
    ensures forall j | j in batch :: Ran(l, draws, bin, stepThm, stepStat, alphas, ws', Ratios[..], j)
  {
    ws' := ws;
    for k := 0 to |batch|
      invariant |ws'| == |ws|
      invariant forall j | 0 <= j < |ws| && j !in batch[..k] :: ws'[j] == ws[j] && Ratios[j] == old(Ratios[j])
      invariant forall j | j in batch[..k] :: Ran(l, draws, bin, stepThm, stepStat, alphas, ws', Ratios[..], j)
    {
      var idx := batch[k];
      ghost var R, W := Ratios[..], ws';
      var ratio, w := RunChain(l, alphas[idx], bt, jws[idx], stepThm, stepStat, draws(bin, idx));
      Ratios[idx] := ratio;
      ws' := ws'[idx := w];
      assert batch[..k + 1] == batch[..k] + [idx];
      forall j | j in batch[..k + 1]
        ensures Ran(l, draws, bin, stepThm, stepStat, alphas, ws', Ratios[..], j)
      {
        if j != idx {
          RanKept(l, draws, bin, stepThm, stepStat, alphas, W, R, ws', Ratios[..], j);
        }
      }
    }
    assert batch[..|batch|] == batch;
  }

  /**
   * The batches of one bin: the divisions, in the batches of Plan for nThread threads, each run
   * by its own chain into its own slot of Ratios; afterwards every slot is done.
   */
  method RunBatches(l: int, bt: real, alphas: seq<real>, jws: seq<real>, stepThm: nat, stepStat: nat,
                    nThread: int, draws: (int, int) -> Draws, bin: int, Ratios: array<real>)
    returns (ghost ws: seq<seq<nat>>)
    requires l >= 2 && stepStat > 0 && nThread > 0 && |alphas| == |jws| == Ratios.Length
    requires forall i | 0 <= i < |alphas| :: 0.0 < alphas[i] <= 1.0
    modifies Ratios
    ensures |ws| == |jws|
    ensures forall j | 0 <= j < |jws| :: Ran(l, draws, bin, stepThm, stepStat, alphas, ws, Ratios[..], j)
  {
    var nDivision := |jws|;
    ws := seq(nDivision, _ => []);
    var batches := Plan(nDivision, nThread);
    for b := 0 to |batches|
      invariant |ws| == nDivision
      invariant forall j | j in Flatten(batches[..b]) :: Ran(l, draws, bin, stepThm, stepStat, alphas, ws, Ratios[..], j)
    {
      var batch := batches[b];
      ghost var R, W := Ratios[..], ws;
      ws := RunBatch(l, bt, alphas, jws, stepThm, stepStat, draws, bin, batch, Ratios, ws);
      forall j | j in Flatten(batches[..b]) && j !in batch
        ensures Ran(l, draws, bin, stepThm, stepStat, alphas, ws, Ratios[..], j)
      {
        RanKept(l, draws, bin, stepThm, stepStat, alphas, W, R, ws, Ratios[..], j);
      }
      assert batches[..b + 1] == batches[..b] + [batch];
      Append(batches[..b], batch);
    }
    assert batches[..|batches|] == batches;
    forall j | 0 <= j < nDivision
      ensures Ran(l, draws, bin, stepThm, stepStat, alphas, ws, Ratios[..], j)
    {
      assert Iota(nDivision)[j] == j;
    }
  }

  /**
   * One bin: the chains of all divisions, launched in batches and written to their own slot of
   * Ratios, then the fold of the ratios. Division i's ratio is the mean reweighting factor of its
   * own chain, which runs on the draws draws(bin, i). The estimate is beta * (L / 2) (the
   * reference ln Z, L / 2 with integer division) minus the logarithm of the product of all
   * ratios, and that product lies in (0, 1].
   */
  method RunBin(l: int, bt: real, alphas: seq<real>, jws: seq<real>, stepThm: nat, stepStat: nat,
                nThread: int, log: real -> real, draws: (int, int) -> Draws, bin: int)
    returns (value: real, ratios: seq<real>, ghost ws: seq<seq<nat>>)
    requires l >= 2 && stepStat > 0 && nThread > 0 && LogHom(log)
    requires |alphas| == |jws| && forall i | 0 <= i < |alphas| :: 0.0 < alphas[i] <= 1.0
    ensures BinRun(l, draws, bin, stepThm, stepStat, alphas, ws, ratios)
    ensures |ratios| == |jws| && forall i | 0 <= i < |ratios| :: 0.0 < ratios[i] <= 1.0
    ensures 0.0 < Product(ratios) <= 1.0
    ensures value == bt * (l / 2) as real - log(Product(ratios))
  {
    var Ratios := new real[|jws|];
    ws := RunBatches(l, bt, alphas, jws, stepThm, stepStat, nThread, draws, bin, Ratios);
    ratios := Ratios[..];
    forall j | 0 <= j < |jws|
      ensures 0.0 < ratios[j] <= 1.0 && DivisionRun(l, draws(bin, j), stepThm, stepStat, alphas[j], ws[j], ratios[j])
    {
      assert Ran(l, draws, bin, stepThm, stepStat, alphas, ws, ratios, j);
    }
    ProductInUnit(ratios);
    var lnz := LnProduct(Ratios[..], log);
    var nBondsJs := l / 2;
    value := -bt * nBondsJs as real * (-1.0) - lnz;
  }

  /** Bin b is finished: it ran as BinRun says and reported value as its estimate of ln Z. */
  ghost predicate BinDone(l: nat, bt: real, log: real -> real, draws: (int, int) -> Draws, b: int, stepThm: nat,
                          stepStat: nat, alphas: seq<real>, ws: seq<seq<nat>>, ratios: seq<real>, value: real)
  {
    BinRun(l, draws, b, stepThm, stepStat, alphas, ws, ratios) && 0.0 < Product(ratios) <= 1.0 &&
    value == bt * (l / 2) as real - log(Product(ratios))
  }

  /**
   * The whole run: the division schedule from Jw down to Jw0, then nBins independent bins over it,
   * one estimate of ln Z per bin. Bin b's ratios come from chains on the draws draws(b, i) with the
   * weights of that schedule; every estimate is beta * (L / 2) minus the logarithm of a product of
   * nDivision ratios in (0, 1], where nDivision is 0 exactly when Jw <= Jw0.
   */
  method Run(l: int, eps: real, bt: real, lambda: real, stepThm: nat, stepStat: nat, jw0: real, jw: real,
             nThread: int, nBins: nat, pow: (real, real) -> real, log: real -> real, draws: (int, int) -> Draws)
    returns (values: seq<real>, ghost alphas: seq<real>, ghost jws: seq<real>, ghost ws: seq<seq<seq<nat>>>,
             ghost ratios: seq<seq<real>>)
    requires l >= 2 && 0.0 < eps < 1.0 && bt > 0.0 && lambda > 0.0 && jw0 > 0.0
    requires stepStat > 0 && nThread > 0 && LogHom(log)
    ensures |jws| == |alphas| && (|jws| == 0 <==> jw <= jw0) && Above(jws, jw0)
    ensures Weights(pow, eps, lambda, bt, l, jws, alphas) && Steps(jws, alphas)
    ensures |values| == nBins && |ws| == nBins && |ratios| == nBins
    ensures forall b | 0 <= b < nBins :: BinRun(l, draws, b, stepThm, stepStat, alphas, ws[b], ratios[b])
    ensures forall b | 0 <= b < nBins :: 0.0 < Product(ratios[b]) <= 1.0
    ensures forall b | 0 <= b < nBins :: values[b] == bt * (l / 2) as real - log(Product(ratios[b]))
  {
    var alphas', jws' := DoDivision(jw, jw0, eps, lambda, bt, l, pow);
    alphas, jws := alphas', jws';
    WeightsInUnit(pow, eps, lambda, bt, l, jws, alphas);
    values, ws, ratios := [], [], [];
    for bin := 0 to nBins
      invariant |values| == bin && |ws| == bin && |ratios| == bin
      invariant forall b | 0 <= b < bin :: BinDone(l, bt, log, draws, b, stepThm, stepStat, alphas, ws[b], ratios[b], values[b])
    {
      var value, rs, w := RunBin(l, bt, alphas', jws', stepThm, stepStat, nThread, log, draws, bin);
      assert BinDone(l, bt, log, draws, bin, stepThm, stepStat, alphas, w, rs, value);
      values, ws, ratios := values + [value], ws + [w], ratios + [rs];
    }
    forall b | 0 <= b < nBins
      ensures BinRun(l, draws, b, stepThm, stepStat, alphas, ws[b], ratios[b])
      ensures 0.0 < Product(ratios[b]) <= 1.0 && values[b] == bt * (l / 2) as real - log(Product(ratios[b]))
    {
      assert BinDone(l, bt, log, draws, b, stepThm, stepStat, alphas, ws[b], ratios[b], values[b]);
    }
  }
}
