/**
  The control logic of the OGC script: the decaying supervised learning rate
  `eta_sup`, the per-mask accuracies of `LinearNeuralNetwork.test`, and the
  early-stopping loop of `ogc()`.

  The numerical work of an iteration (the linear-model step, the lazy random-walk
  smoothing and the supervised correction of `U`) is opaque here: each iteration is
  represented by what the loop reads from it, the test accuracy and the hard
  prediction vector of the fresh `test` call.
 */
module Ogc {
  import opened Metrics

  /** Decay factor applied to `eta_sup` after every update of `U`. */
  const Decline: real := 0.9
  /** Initial supervised learning rate. */
  const EtaSup0: real := 0.001
  /** Similarity rate above which an iteration counts towards patience. */
  const MaxSimTol: real := 0.995
  /** Patience may reach this value; one more high-similarity iteration stops the loop. */
  const MaxPatience: nat := 2
  /** `range(1, 65)`: iterations are numbered 1 to 64. */
  const MaxIterations: nat := 64

  // ---------------------------------------------------------------------------
  // The learning-rate schedule of update_U

  /** `eta_sup = eta_sup * decline`, the last statement of `update_U`. */
  function DecayEta(eta: real): (r: real)
    requires eta > 0.0
    ensures 0.0 < r < eta
  {
    eta * Decline
  }

  /** The value of `eta_sup` after `k` calls of `update_U`. */
  function EtaAfter(k: nat): (r: real)
    ensures 0.0 < r <= EtaSup0
  {
    if k == 0 then EtaSup0 else DecayEta(EtaAfter(k - 1))
  }

  function Pow(x: real, k: nat): real {
    if k == 0 then 1.0 else x * Pow(x, k - 1)
  }

  /** Closed form of the schedule: `eta_sup = 0.001 * 0.9^k`. */
  lemma {:induction false} EtaAfterClosedForm(k: nat)
    ensures EtaAfter(k) == EtaSup0 * Pow(Decline, k)
  {
    if k > 0 {
      EtaAfterClosedForm(k - 1);
    }
  }

  /** Every call of `update_U` strictly lowers `eta_sup`, which stays positive, so the
      schedule is strictly decreasing over any span of calls. */
  lemma {:induction false} EtaAfterDecreasing(j: nat, k: nat)
    requires j < k
    ensures 0.0 < EtaAfter(k) < EtaAfter(j)
  {
    if k > j + 1 {
      EtaAfterDecreasing(j, k - 1);
    }
  }

  // ---------------------------------------------------------------------------
  // LinearNeuralNetwork.test

  /** The two accuracies `test` returns for the hard predictions `pred`: on the
      train+val mask (the OR of the train and val masks) and on the test mask. */
  function TestAccuracies(pred: seq<int>, y: seq<int>, train: seq<bool>, val: seq<bool>, test: seq<bool>)
    : (r: (Score, Score))
    requires |pred| == |y| == |train| == |val| == |test|
    ensures r.0.NaN? <==> forall i :: 0 <= i < |y| ==> !train[i] && !val[i]
    ensures r.1.NaN? <==> forall i :: 0 <= i < |y| ==> !test[i]
    ensures r.0.Num? ==> 0.0 <= r.0.v <= 1.0
    ensures r.1.Num? ==> 0.0 <= r.1.v <= 1.0
    ensures r.0.Num? ==> (r.0.v == 1.0 <==> forall i :: 0 <= i < |y| && (train[i] || val[i]) ==> pred[i] == y[i])
    ensures r.1.Num? ==> (r.1.v == 1.0 <==> forall i :: 0 <= i < |y| && test[i] ==> pred[i] == y[i])
    ensures r.0.Num? ==>
      |TrueIndices(train) + TrueIndices(val)| > 0
      && r.0.v == |MaskedMatchIndices(pred, y, OrMask(train, val))| as real
                  / |TrueIndices(train) + TrueIndices(val)| as real
    ensures r.1.Num? ==>
      |TrueIndices(test)| > 0
      && r.1.v == |MaskedMatchIndices(pred, y, test)| as real / |TrueIndices(test)| as real
  {
    var trainval := OrMask(train, val);
    MaskedAccuracyValue(pred, y, trainval);
    MaskedAccuracyValue(pred, y, test);
    (MaskedAccuracy(pred, y, trainval), MaskedAccuracy(pred, y, test))
  }

  // ---------------------------------------------------------------------------
  // The early-stopping loop of ogc()

  /** What the loop reads from one `test` call: the test accuracy and the hard predictions. */
  datatype Observation = Observation(testAcc: Score, pred: seq<int>)

  /** What the loop ends with: the returned accuracy, the number of iterations executed,
      whether it broke out early, and the final `patience` and `eta_sup`. */
  datatype Outcome = Outcome(acc: Score, iterations: nat, stoppedEarly: bool, patience: nat, etaSup: real)

  /** Every prediction vector covers the same, non-empty node set. */
  predicate WellShaped(init: Observation, obs: seq<Observation>) {
    |init.pred| > 0 && forall i :: 0 <= i < |obs| ==> |obs[i].pred| == |init.pred|
  }

  /** The predictions iteration `i + 1` is compared with: those of the iteration before,
      or the initial ones for the first iteration. */
  function PrevPred(init: Observation, obs: seq<Observation>, i: nat): seq<int>
    requires i < |obs|
  {
    if i == 0 then init.pred else obs[i - 1].pred
  }

  /** Whether iteration `i + 1` is a high-similarity iteration: more than 99.5% of the
      nodes keep their predicted label, stated on counts. */
  predicate HighSim(init: Observation, obs: seq<Observation>, i: nat)
    requires WellShaped(init, obs) && i < |obs|
  {
    1000 * MatchCount(obs[i].pred, PrevPred(init, obs, i)) > 995 * |init.pred|
  }

  /** The count form of `HighSim` is the comparison `sim_rate > max_sim_tol` of the loop. */
  lemma HighSimIsSimRateAbove(init: Observation, obs: seq<Observation>, i: nat)
    requires WellShaped(init, obs) && i < |obs|
    ensures HighSim(init, obs, i) <==> SimRate(obs[i].pred, PrevPred(init, obs, i)) > MaxSimTol
  {
    var c := MatchCount(obs[i].pred, PrevPred(init, obs, i)) as real;
    var n := |init.pred| as real;
    assert SimRate(obs[i].pred, PrevPred(init, obs, i)) == c / n;
    RatioAbove(c, n, MaxSimTol);
  }

  /** `c / n > t` compares like `c > t * n` for a positive denominator. */
  lemma RatioAbove(c: real, n: real, t: real)
    requires n > 0.0
    ensures c / n > t <==> c > t * n
  {
    var q := c / n;
    assert q * n == c;
    assert (q - t) * n == c - t * n;
    if q > t {
      assert (q - t) * n > 0.0;
    } else {
      assert (t - q) * n >= 0.0;
    }
  }

  /** The high-similarity flag of every iteration: entry `i` tells whether iteration
      `i + 1` is a high-similarity iteration. */
  function HighSimFlags(init: Observation, obs: seq<Observation>): (f: seq<bool>)
    requires WellShaped(init, obs)
    ensures |f| == |obs|
    ensures forall i :: 0 <= i < |obs| ==> (f[i] <==> HighSim(init, obs, i))
  {
    seq(|obs|, i requires 0 <= i < |obs| => HighSim(init, obs, i))
  }

  /** In the source's own terms: flag `i` is set exactly when `sim_rate > max_sim_tol` at
      iteration `i + 1`, the rate being taken against the initial predictions for the first
      iteration and against the preceding iteration's afterwards. */
  lemma HighSimFlagsMeaning(init: Observation, obs: seq<Observation>)
    requires WellShaped(init, obs)
    ensures var f := HighSimFlags(init, obs);
      forall i :: 0 <= i < |obs| ==>
        (f[i] <==> SimRate(obs[i].pred, if i == 0 then init.pred else obs[i - 1].pred) > MaxSimTol)
  {
    forall i | 0 <= i < |obs|
      ensures HighSim(init, obs, i) <==> SimRate(obs[i].pred, PrevPred(init, obs, i)) > MaxSimTol
    {
      HighSimIsSimRateAbove(init, obs, i);
    }
  }

  /** `patience` after `k` iterations: how many of them were high-similarity iterations. */
  function PatienceAfter(flags: seq<bool>, k: nat): (r: nat)
    requires k <= |flags|
    ensures r <= k
  {
    MaskCount(flags[..k])
  }

  /** One more iteration adds one to `patience` exactly when it is a high-similarity one. */
  lemma PatienceStep(flags: seq<bool>, k: nat)
    requires 0 < k <= |flags|
    ensures PatienceAfter(flags, k) == PatienceAfter(flags, k - 1) + (if flags[k - 1] then 1 else 0)
  {
    assert flags[..k][..k - 1] == flags[..k - 1];
  }

  /** `patience` is never reset: it never goes down, and grows by at most one per iteration. */
  lemma {:induction false} PatienceMonotone(flags: seq<bool>, j: nat, k: nat)
    requires j <= k <= |flags|
    ensures PatienceAfter(flags, j) <= PatienceAfter(flags, k) <= PatienceAfter(flags, j) + (k - j)
  {
    if j < k {
      PatienceMonotone(flags, j, k - 1);
      PatienceStep(flags, k);
    }
  }

  /** The test accuracy recorded after `j` completed iterations (the initial one for `j = 0`). */
  function AccAfter(init: Observation, obs: seq<Observation>, j: nat): Score
    requires j <= |obs|
  {
    if j == 0 then init.testAcc else obs[j - 1].testAcc
  }

  /** `ogc()`: `init` is the initial `test` call on the raw features, `obs[i - 1]` the
      `test` call of iteration `i`. The loop stops at the first iteration at which the
      cumulative number of high-similarity iterations exceeds `MaxPatience`, and then
      returns the accuracy of the iteration before it; otherwise it runs all 64
      iterations and returns the last accuracy. `eta_sup` has decayed once per
      executed iteration, the breaking one included. */
  method RunOgc(init: Observation, obs: seq<Observation>) returns (out: Outcome)
    requires |obs| == MaxIterations
    requires WellShaped(init, obs)
    ensures 1 <= out.iterations <= MaxIterations
    ensures out.patience == PatienceAfter(HighSimFlags(init, obs), out.iterations)
    ensures out.stoppedEarly <==> PatienceAfter(HighSimFlags(init, obs), |obs|) > MaxPatience
    ensures out.stoppedEarly ==>
              && PatienceAfter(HighSimFlags(init, obs), out.iterations - 1) == MaxPatience
              && PatienceAfter(HighSimFlags(init, obs), out.iterations) == MaxPatience + 1
    ensures !out.stoppedEarly ==> out.iterations == |obs|
    ensures out.acc == AccAfter(init, obs, if out.stoppedEarly then out.iterations - 1 else out.iterations)
    ensures out.etaSup == EtaAfter(out.iterations)
  {
    ghost var flags := HighSimFlags(init, obs);
    var lastAcc, lastPred := init.testAcc, init.pred;
    var patience := 0;
    var eta := EtaSup0;
    var iterations := 0;
    var stopped := false;
    for i := 1 to MaxIterations + 1
      invariant iterations == i - 1
      invariant !stopped
      invariant patience == PatienceAfter(flags, i - 1) <= MaxPatience
      invariant lastAcc == AccAfter(init, obs, i - 1)
      invariant lastPred == (if i == 1 then init.pred else obs[i - 2].pred)
      invariant eta == EtaAfter(i - 1)
    {
      iterations := i;
      var o := obs[i - 1];
      // update_U decays the rate before the fresh test call
      eta := DecayEta(eta);
      var simRate := SimRate(o.pred, lastPred);
      HighSimIsSimRateAbove(init, obs, i - 1);
      PatienceStep(flags, i);
      if simRate > MaxSimTol {
        patience := patience + 1;
        if patience > MaxPatience {
          stopped := true;
          break;
        }
      }
      lastAcc, lastPred := o.testAcc, o.pred;
    }
    if stopped {
      PatienceMonotone(flags, iterations, |obs|);
    }
    out := Outcome(lastAcc, iterations, stopped, patience, eta);
  }

  /** Patience counts high-similarity iterations cumulatively and is never reset: with
      similar predictions at iterations 1, 3 and 5 and a change at iterations 2 and 4,
      the count first exceeds `MaxPatience` at iteration 5, so by `RunOgc` the loop stops
      there although no two high-similarity iterations were consecutive. */
  lemma PatienceIsCumulative(init: Observation, obs: seq<Observation>)
    requires |obs| == MaxIterations && WellShaped(init, obs)
    requires init.pred == [0]
    requires obs[0].pred == [0] && obs[1].pred == [1] && obs[2].pred == [1]
    requires obs[3].pred == [2] && obs[4].pred == [2]
    ensures var f := HighSimFlags(init, obs);
      && f[..5] == [true, false, true, false, true]
      && PatienceAfter(f, 4) == MaxPatience
      && PatienceAfter(f, 5) == MaxPatience + 1
  {
    var f := HighSimFlags(init, obs);
    assert SimRate(obs[0].pred, init.pred) == 1.0;
    assert SimRate(obs[1].pred, obs[0].pred) == 0.0;
    assert SimRate(obs[2].pred, obs[1].pred) == 1.0;
    assert SimRate(obs[3].pred, obs[2].pred) == 0.0;
    assert SimRate(obs[4].pred, obs[3].pred) == 1.0;
    assert f[..5] == [true, false, true, false, true];
    assert f[..0] == [];
    PatienceStep(f, 1);
    PatienceStep(f, 2);
    PatienceStep(f, 3);
    PatienceStep(f, 4);
    PatienceStep(f, 5);
  }
}
