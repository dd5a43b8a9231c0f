/** Statistics of randomness systems: the population variance of a count
    vector, the entropy and variance trajectories averaged over trials, and
    the search for the source with the lowest variance above an entropy
    floor.

    A source enters these loops through what it produced: a `Run` records,
    for every trial (each started from a reset source), the entropy the
    source reported before each step and the value it sampled at that step. */
module Stats {
  import opened Sequences

  datatype Option<T> = None | Some(value: T)

  // ---------------------------------------------------------------------
  // Variance

  function Mean(xs: seq<int>): real
    requires |xs| > 0
  {
    Sum(xs) as real / |xs| as real
  }

  /** `sum([square(x - m) for x in xs])`. */
  function SquaredDeviations(xs: seq<int>, m: real): (r: real)
    ensures r >= 0.0
  {
    if xs == [] then 0.0
    else
      var d := xs[|xs| - 1] as real - m;
      SquareNonNegative(d);
      SquaredDeviations(xs[..|xs| - 1], m) + d * d
  }

  lemma SquareNonNegative(d: real)
    ensures d * d >= 0.0
  {
  }

  /** The population variance: the mean squared deviation from the mean. */
  function Variance(values: seq<int>): (v: real)
    requires |values| > 0
    ensures v >= 0.0
  {
    var n := |values| as real;
    var s := SquaredDeviations(values, Mean(values));
    QuotientNonNegative(s, n);
    s / n
  }

  /** Deviations from a value every entry equals are all zero. */
  lemma {:induction false} SquaredDeviationsOfConstant(xs: seq<int>, m: real)
    requires forall i | 0 <= i < |xs| :: xs[i] as real == m
    ensures SquaredDeviations(xs, m) == 0.0
  {
    if xs != [] {
      SquaredDeviationsOfConstant(xs[..|xs| - 1], m);
    }
  }

  /** Squared deviations that add up to zero are all zero. */
  lemma {:induction false} ZeroSquaredDeviations(xs: seq<int>, m: real)
    requires SquaredDeviations(xs, m) == 0.0
    ensures forall i | 0 <= i < |xs| :: (xs[i] as real - m) * (xs[i] as real - m) == 0.0
  {
    if xs != [] {
      var n := |xs| - 1;
      var d := xs[n] as real - m;
      SquareNonNegative(d);
      ZeroSquaredDeviations(xs[..n], m);
      assert forall i | 0 <= i < n :: xs[..n][i] == xs[i];
    }
  }

  /** The squared deviation of `c` from the mean `s / n`, scaled by `n * n`,
      is the square of the integer `n * c - s`. */
  lemma ScaledSquaredDeviation(c: int, s: int, n: int)
    requires n > 0
    ensures (c as real - s as real / n as real) * (c as real - s as real / n as real) * (n as real * n as real)
         == ((n * c - s) * (n * c - s)) as real
  {
    var q := s as real / n as real;
    assert q * n as real == s as real;
  }

  /** An entry at zero distance from the mean `s / n` satisfies `n * c == s`. */
  lemma ZeroDeviation(c: int, s: int, n: int)
    requires n > 0
    requires (c as real - s as real / n as real) * (c as real - s as real / n as real) == 0.0
    ensures n * c == s
  {
    ScaledSquaredDeviation(c, s, n);
  }

  lemma {:induction false} SumOfConstant(xs: seq<int>, k: int)
    requires forall i | 0 <= i < |xs| :: xs[i] == k
    ensures Sum(xs) == |xs| * k
  {
    if xs != [] {
      SumOfConstant(xs[..|xs| - 1], k);
    }
  }

  /** Equal entries have zero variance. */
  lemma ConstantHasZeroVariance(xs: seq<int>)
    requires |xs| > 0
    requires forall i | 0 <= i < |xs| :: xs[i] == xs[0]
    ensures Variance(xs) == 0.0
  {
    var n := |xs| as real;
    var k := xs[0] as real;
    SumOfConstant(xs, xs[0]);
    assert Sum(xs) as real == n * k;
    assert Mean(xs) == k by {
      assert (n * k) / n == k;
    }
    SquaredDeviationsOfConstant(xs, Mean(xs));
  }

  /** Zero variance means every entry equals the first. */
  lemma ZeroVarianceIsConstant(xs: seq<int>)
    requires |xs| > 0
    requires Variance(xs) == 0.0
    ensures forall i | 0 <= i < |xs| :: xs[i] == xs[0]
  {
    var n := |xs| as real;
    var s := SquaredDeviations(xs, Mean(xs));
    assert s == s / n * n;
    ZeroSquaredDeviations(xs, Mean(xs));
    forall i | 0 <= i < |xs|
      ensures xs[i] == xs[0]
    {
      ZeroDeviation(xs[i], Sum(xs), |xs|);
      ZeroDeviation(xs[0], Sum(xs), |xs|);
      CancelFactor(|xs|, xs[i], xs[0]);
    }
  }

  lemma CancelFactor(n: int, a: int, b: int)
    requires n > 0 && n * a == n * b
    ensures a == b
  {
  }

  /** The variance is zero exactly when all entries are equal. */
  lemma VarianceZeroIffConstant(xs: seq<int>)
    requires |xs| > 0
    ensures Variance(xs) == 0.0 <==> forall i | 0 <= i < |xs| :: xs[i] == xs[0]
  {
    if forall i | 0 <= i < |xs| :: xs[i] == xs[0] {
      ConstantHasZeroVariance(xs);
    }
    if Variance(xs) == 0.0 {
      ZeroVarianceIsConstant(xs);
    }
  }

  // ---------------------------------------------------------------------
  // Recorded runs

  /** What one source produced over `trials` trials of `steps` steps.
      `maxEntropy` stands for `log(values)`, the entropy of a uniform choice
      among `values` values. */
  datatype Run = Run(values: nat, maxEntropy: real, readings: seq<seq<real>>, draws: seq<seq<nat>>)

  ghost predicate WellFormed(run: Run, steps: nat, trials: nat)
  {
    run.values >= 1 && |run.readings| == trials && |run.draws| == trials &&
    forall t | 0 <= t < trials ::
      |run.readings[t]| == steps && |run.draws[t]| == steps && AllBelow(run.draws[t], run.values)
  }

  /** The readings at step `i`, summed over the trials. */
  function ColumnSum(rows: seq<seq<real>>, i: nat): real
    requires forall t | 0 <= t < |rows| :: i < |rows[t]|
  {
    if rows == [] then 0.0 else ColumnSum(rows[..|rows| - 1], i) + rows[|rows| - 1][i]
  }

  /** The variance of the counts after step `i`, summed over the trials. */
  function StepVarianceSum(values: nat, draws: seq<seq<nat>>, i: nat): real
    requires values >= 1
    requires forall t | 0 <= t < |draws| :: i < |draws[t]| && AllBelow(draws[t], values)
  {
    if draws == [] then 0.0
    else
      var last := draws[|draws| - 1];
      assert AllBelow(last, values);
      assert AllBelow(last[..i + 1], values);
      StepVarianceSum(values, draws[..|draws| - 1], i) + Variance(Counts(values, last[..i + 1]))
  }

  /** The first `n` readings of every trial, all summed. */
  function ReadingTotal(rows: seq<seq<real>>, n: nat): real
    requires forall t | 0 <= t < |rows| :: n <= |rows[t]|
  {
    if rows == [] then 0.0 else ReadingTotal(rows[..|rows| - 1], n) + RealSum(rows[|rows| - 1][..n])
  }

  /** The variance of each trial's final counts, summed over the trials. */
  function FinalVarianceSum(values: nat, draws: seq<seq<nat>>): real
    requires values >= 1
    requires forall t | 0 <= t < |draws| :: AllBelow(draws[t], values)
  {
    if draws == [] then 0.0
    else FinalVarianceSum(values, draws[..|draws| - 1]) + Variance(Counts(values, draws[|draws| - 1]))
  }

  lemma ColumnSumStep(rows: seq<seq<real>>, t: nat, i: nat)
    requires t < |rows| && forall u | 0 <= u < |rows| :: i < |rows[u]|
    ensures ColumnSum(rows[..t + 1], i) == ColumnSum(rows[..t], i) + rows[t][i]
  {
    assert rows[..t + 1][..t] == rows[..t];
  }

  lemma StepVarianceSumStep(values: nat, draws: seq<seq<nat>>, t: nat, i: nat)
    requires values >= 1 && t < |draws|
    requires forall u | 0 <= u < |draws| :: i < |draws[u]| && AllBelow(draws[u], values)
    ensures AllBelow(draws[t][..i + 1], values)
    ensures StepVarianceSum(values, draws[..t + 1], i) ==
      StepVarianceSum(values, draws[..t], i) + Variance(Counts(values, draws[t][..i + 1]))
  {
    assert AllBelow(draws[t], values);
    assert draws[..t + 1][..t] == draws[..t];
  }

  lemma ReadingTotalStep(rows: seq<seq<real>>, t: nat, n: nat)
    requires t < |rows| && forall u | 0 <= u < |rows| :: n <= |rows[u]|
    ensures ReadingTotal(rows[..t + 1], n) == ReadingTotal(rows[..t], n) + RealSum(rows[t][..n])
  {
    assert rows[..t + 1][..t] == rows[..t];
  }

  lemma FinalVarianceSumStep(values: nat, draws: seq<seq<nat>>, t: nat)
    requires values >= 1 && t < |draws|
    requires forall u | 0 <= u < |draws| :: AllBelow(draws[u], values)
    ensures FinalVarianceSum(values, draws[..t + 1]) ==
      FinalVarianceSum(values, draws[..t]) + Variance(Counts(values, draws[t]))
  {
    assert draws[..t + 1][..t] == draws[..t];
  }

  // ---------------------------------------------------------------------
  // get_stats

  /** One trial of `get_stats`: step by step, add the reading to that
      step's entropy total, count the drawn value, and add the variance of
      the counts so far to that step's variance total. */
  method AccumulateTrial(entropies: seq<real>, variances: seq<real>, values: nat,
                         readings: seq<real>, draws: seq<nat>)
    returns (newEntropies: seq<real>, newVariances: seq<real>)
    requires values >= 1 && AllBelow(draws, values)
    requires |entropies| == |variances| == |readings| == |draws|
    ensures |newEntropies| == |newVariances| == |draws|
    ensures forall i | 0 <= i < |draws| :: newEntropies[i] == entropies[i] + readings[i]
    ensures forall i | 0 <= i < |draws| ::
      newVariances[i] == variances[i] + Variance(Counts(values, draws[..i + 1]))
  {
    newEntropies, newVariances := entropies, variances;
    var outputCounts := Zeros(values);
    for i2 := 0 to |draws|
      invariant |newEntropies| == |newVariances| == |draws|
      invariant AllBelow(draws[..i2], values)
      invariant outputCounts == Counts(values, draws[..i2])
      invariant forall i | 0 <= i < i2 :: newEntropies[i] == entropies[i] + readings[i]
      invariant forall i | i2 <= i < |draws| :: newEntropies[i] == entropies[i]
      invariant forall i | 0 <= i < i2 ::
        newVariances[i] == variances[i] + Variance(Counts(values, draws[..i + 1]))
      invariant forall i | i2 <= i < |draws| :: newVariances[i] == variances[i]
    {
      newEntropies := newEntropies[i2 := newEntropies[i2] + readings[i2]];
      var value := draws[i2];
      CountsPrefixStep(values, draws, i2);
      outputCounts := outputCounts[value := outputCounts[value] + 1];
      assert outputCounts == Counts(values, draws[..i2 + 1]);
      newVariances := newVariances[i2 := newVariances[i2] + Variance(outputCounts)];
    }
  }

  /** The entropy trajectory (each step's entropy summed over the trials and
      divided by `trials * log(values)`) and the variance trajectory (each
      step's count variance averaged over the trials). */
  method GetStats(run: Run, steps: nat, trials: nat) returns (entropies: seq<real>, variances: seq<real>)
    requires WellFormed(run, steps, trials)
    requires steps > 0 ==> trials > 0 && run.maxEntropy > 0.0
    ensures |entropies| == steps && |variances| == steps
    ensures forall i | 0 <= i < steps ::
      entropies[i] == ColumnSum(run.readings, i) / (trials as real * run.maxEntropy)
    ensures forall i | 0 <= i < steps ::
      variances[i] == StepVarianceSum(run.values, run.draws, i) / trials as real
  {
    entropies := seq(steps, i => 0.0);
    variances := seq(steps, i => 0.0);
    for t := 0 to trials
      invariant |entropies| == steps && |variances| == steps
      invariant forall i | 0 <= i < steps :: entropies[i] == ColumnSum(run.readings[..t], i)
      invariant forall i | 0 <= i < steps :: variances[i] == StepVarianceSum(run.values, run.draws[..t], i)
    {
      ghost var before, beforeVariances := entropies, variances;
      entropies, variances := AccumulateTrial(entropies, variances, run.values, run.readings[t], run.draws[t]);
      forall i | 0 <= i < steps
        ensures entropies[i] == ColumnSum(run.readings[..t + 1], i)
        ensures variances[i] == StepVarianceSum(run.values, run.draws[..t + 1], i)
      {
        ColumnSumStep(run.readings, t, i);
        StepVarianceSumStep(run.values, run.draws, t, i);
      }
    }
    assert run.readings[..trials] == run.readings && run.draws[..trials] == run.draws;
    var e, v := entropies, variances;
    entropies := seq(steps, i requires 0 <= i < steps => e[i] / (trials as real * run.maxEntropy));
    variances := seq(steps, i requires 0 <= i < steps => v[i] / trials as real);
  }

  // ---------------------------------------------------------------------
  // get_lowest_variance_source

  /** A candidate's score: its average entropy as a fraction of `log(values)`
      and its average final variance. */
  datatype Score = Score(entropyFraction: real, averageVariance: real)

  ghost predicate Scorable(run: Run, steps: nat, trials: nat)
  {
    WellFormed(run, steps, trials) && steps >= 1 && trials >= 1 && run.maxEntropy > 0.0
  }

  /** `source_entropy / (trials * steps * log(values))`: the average entropy
      per step as a fraction of the entropy of a uniform choice. */
  function EntropyFraction(total: real, trials: nat, steps: nat, maxEntropy: real): real
    requires trials >= 1 && steps >= 1 && maxEntropy > 0.0
  {
    total / (trials as real * steps as real * maxEntropy)
  }

  ghost function ScoreOf(run: Run, steps: nat, trials: nat): Score
    requires Scorable(run, steps, trials)
  {
    Score(EntropyFraction(ReadingTotal(run.readings, steps), trials, steps, run.maxEntropy),
          FinalVarianceSum(run.values, run.draws) / trials as real)
  }

  ghost function Scores(runs: seq<Run>, steps: nat, trials: nat): (s: seq<Score>)
    requires forall k | 0 <= k < |runs| :: Scorable(runs[k], steps, trials)
    ensures |s| == |runs|
    ensures forall k | 0 <= k < |runs| :: s[k] == ScoreOf(runs[k], steps, trials)
  {
    seq(|runs|, k requires 0 <= k < |runs| => ScoreOf(runs[k], steps, trials))
  }

  /** One trial of the scoring loop: the readings summed onto the running
      entropy total, and the final occurrence counts. */
  method ScoreTrial(sourceEntropy: real, values: nat, readings: seq<real>, draws: seq<nat>)
    returns (newEntropy: real, outputCounts: seq<nat>)
    requires values >= 1 && AllBelow(draws, values) && |readings| == |draws|
    ensures newEntropy == sourceEntropy + RealSum(readings)
    ensures outputCounts == Counts(values, draws)
    ensures |outputCounts| == values && Sum(outputCounts) == |draws|
    ensures forall v | 0 <= v < values :: outputCounts[v] == multiset(draws)[v]
  {
    newEntropy := sourceEntropy;
    outputCounts := Zeros(values);
    for i2 := 0 to |draws|
      invariant AllBelow(draws[..i2], values)
      invariant newEntropy == sourceEntropy + RealSum(readings[..i2])
      invariant outputCounts == Counts(values, draws[..i2])
    {
      RealSumPrefixStep(readings, i2);
      newEntropy := newEntropy + readings[i2];
      var value := draws[i2];
      CountsPrefixStep(values, draws, i2);
      outputCounts := outputCounts[value := outputCounts[value] + 1];
    }
    assert readings[..|draws|] == readings && draws[..|draws|] == draws;
    CountsSum(values, draws);
    CountsAreMultiplicities(values, draws);
  }

  /** The scoring loops for one candidate: the entropy fraction, and the
      variance of the final counts summed over the trials. */
  method ScoreSource(run: Run, steps: nat, trials: nat) returns (entropyFraction: real, varianceTotal: real)
    requires Scorable(run, steps, trials)
    ensures entropyFraction == ScoreOf(run, steps, trials).entropyFraction
    ensures varianceTotal / trials as real == ScoreOf(run, steps, trials).averageVariance
  {
    var sourceEntropy := 0.0;
    var sourceVariance := 0.0;
    for t := 0 to trials
      invariant sourceEntropy == ReadingTotal(run.readings[..t], steps)
      invariant sourceVariance == FinalVarianceSum(run.values, run.draws[..t])
    {
      var outputCounts;
      sourceEntropy, outputCounts := ScoreTrial(sourceEntropy, run.values, run.readings[t], run.draws[t]);
      assert run.readings[t][..steps] == run.readings[t];
      ReadingTotalStep(run.readings, t, steps);
      FinalVarianceSumStep(run.values, run.draws, t);
      sourceVariance := sourceVariance + Variance(outputCounts);
    }
    assert run.readings[..trials] == run.readings && run.draws[..trials] == run.draws;
    assert sourceVariance == FinalVarianceSum(run.values, run.draws);
    entropyFraction := EntropyFraction(sourceEntropy, trials, steps, run.maxEntropy);
    varianceTotal := sourceVariance;
  }

  /** The chosen candidate (its position in the list) and its variance. */
  datatype Selection = Selection(best: Option<nat>, variance: real)

  predicate Qualifies(s: Score, minEntropy: real)
  {
    s.entropyFraction >= minEntropy
  }

  /** The selection rule, candidate by candidate in list order: a candidate
      above the entropy floor replaces the best so far when there is none
      yet or when its variance is less than or equal to the best's. */
  function Select(scores: seq<Score>, minEntropy: real): (sel: Selection)
  {
    if scores == [] then Selection(None, 0.0)
    else
      var previous := Select(scores[..|scores| - 1], minEntropy);
      var last := scores[|scores| - 1];
      if Qualifies(last, minEntropy) && (previous.best.None? || last.averageVariance <= previous.variance)
      then Selection(Some(|scores| - 1), last.averageVariance)
      else previous
  }

  /** Considering one more candidate: `Select` on the first `k + 1` scores,
      in terms of `Select` on the first `k`. */
  lemma SelectExtend(scores: seq<Score>, k: nat, minEntropy: real)
    requires k < |scores|
    ensures Select(scores[..k + 1], minEntropy) ==
      var previous := Select(scores[..k], minEntropy);
      if Qualifies(scores[k], minEntropy) && (previous.best.None? || scores[k].averageVariance <= previous.variance)
      then Selection(Some(k), scores[k].averageVariance)
      else previous
  {
    assert scores[..k + 1][..k] == scores[..k];
  }

  /** Scores every candidate and keeps the one with the lowest average
      variance among those whose entropy fraction reaches `minEntropy`. */
  method GetLowestVarianceSource(runs: seq<Run>, minEntropy: real, steps: nat, trials: nat)
    returns (bestSource: Option<nat>, lowestVariance: real)
    requires forall k | 0 <= k < |runs| :: Scorable(runs[k], steps, trials)
    ensures Selection(bestSource, lowestVariance) == Select(Scores(runs, steps, trials), minEntropy)
  {
    ghost var scores := Scores(runs, steps, trials);
    bestSource := None;
    lowestVariance := 0.0;
    for k := 0 to |runs|
      invariant Selection(bestSource, lowestVariance) == Select(scores[..k], minEntropy)
    {
      var sourceEntropy, sourceVariance := ScoreSource(runs[k], steps, trials);
      SelectExtend(scores, k, minEntropy);
      assert scores[k] == Score(sourceEntropy, sourceVariance / trials as real);
      if sourceEntropy >= minEntropy {
        sourceVariance := sourceVariance / trials as real;
        if bestSource == None || sourceVariance <= lowestVariance {
          bestSource := Some(k);
          lowestVariance := sourceVariance;
        }
      }
    }
    assert scores[..|runs|] == scores;
  }

  // ---------------------------------------------------------------------
  // Properties of the selection rule

  /** No candidate is chosen exactly when none reaches the entropy floor,
      and then the reported variance is 0. */
  lemma {:induction false} SelectNoneIffNoneQualify(scores: seq<Score>, minEntropy: real)
    ensures Select(scores, minEntropy).best.None? <==>
      forall k | 0 <= k < |scores| :: !Qualifies(scores[k], minEntropy)
    ensures Select(scores, minEntropy).best.None? ==> Select(scores, minEntropy).variance == 0.0
  {
    if scores != [] {
      var n := |scores| - 1;
      SelectNoneIffNoneQualify(scores[..n], minEntropy);
      assert forall k | 0 <= k < n :: scores[..n][k] == scores[k];
    }
  }

  /** The chosen candidate reaches the floor, its variance is the one
      reported, no candidate above the floor has a lower variance, and every
      later candidate above the floor has a strictly higher one: among equal
      variances the latest candidate wins. */
  lemma {:induction false} SelectIsLatestMinimum(scores: seq<Score>, minEntropy: real)
    ensures Select(scores, minEntropy).best.Some? ==>
      var w := Select(scores, minEntropy).best.value;
      w < |scores| && Qualifies(scores[w], minEntropy) &&
      Select(scores, minEntropy).variance == scores[w].averageVariance &&
      (forall k | 0 <= k < |scores| && Qualifies(scores[k], minEntropy) ::
        scores[w].averageVariance <= scores[k].averageVariance) &&
      (forall k | w < k < |scores| && Qualifies(scores[k], minEntropy) ::
        scores[w].averageVariance < scores[k].averageVariance)
  {
    if scores != [] {
      var n := |scores| - 1;
      var previous := Select(scores[..n], minEntropy);
      SelectIsLatestMinimum(scores[..n], minEntropy);
      SelectNoneIffNoneQualify(scores[..n], minEntropy);
      assert forall k | 0 <= k < n :: scores[..n][k] == scores[k];
    }
  }

  /** Conversely, a candidate above the floor whose variance is minimal and
      strictly below every later candidate's above the floor is the one
      chosen. */
  lemma SelectCharacterized(scores: seq<Score>, minEntropy: real, w: nat)
    requires w < |scores| && Qualifies(scores[w], minEntropy)
    requires forall k | 0 <= k < |scores| && Qualifies(scores[k], minEntropy) ::
      scores[w].averageVariance <= scores[k].averageVariance
    requires forall k | w < k < |scores| && Qualifies(scores[k], minEntropy) ::
      scores[w].averageVariance < scores[k].averageVariance
    ensures Select(scores, minEntropy) == Selection(Some(w), scores[w].averageVariance)
  {
    SelectNoneIffNoneQualify(scores, minEntropy);
    SelectIsLatestMinimum(scores, minEntropy);
  }

  /** Candidates below the entropy floor do not influence the choice: two
      lists that agree on which candidates reach the floor and on the scores
      of those candidates lead to the same selection. */
  lemma {:induction false} BelowFloorIrrelevant(scores: seq<Score>, others: seq<Score>, minEntropy: real)
    requires |scores| == |others|
    requires forall k | 0 <= k < |scores| ::
      Qualifies(scores[k], minEntropy) == Qualifies(others[k], minEntropy)
    requires forall k | 0 <= k < |scores| && Qualifies(scores[k], minEntropy) :: scores[k] == others[k]
    ensures Select(scores, minEntropy) == Select(others, minEntropy)
  {
    if scores != [] {
      var n := |scores| - 1;
      assert forall k | 0 <= k < n :: scores[..n][k] == scores[k] && others[..n][k] == others[k];
      BelowFloorIrrelevant(scores[..n], others[..n], minEntropy);
    }
  }

  // ---------------------------------------------------------------------
  // How the trajectories of get_stats relate to the scores

  /** The per-step column totals of the first `n` steps, added up. */
  function ColumnTotal(rows: seq<seq<real>>, n: nat): real
    requires forall t | 0 <= t < |rows| :: n <= |rows[t]|
  {
    if n == 0 then 0.0 else ColumnTotal(rows, n - 1) + ColumnSum(rows, n - 1)
  }

  lemma {:induction false} ReadingTotalNextStep(rows: seq<seq<real>>, n: nat)
    requires forall t | 0 <= t < |rows| :: n < |rows[t]|
    ensures ReadingTotal(rows, n + 1) == ReadingTotal(rows, n) + ColumnSum(rows, n)
  {
    if rows != [] {
      var last := |rows| - 1;
      ReadingTotalNextStep(rows[..last], n);
      RealSumPrefixStep(rows[last], n);
    }
  }

  /** Adding the readings step by step and then trial by trial (the order of
      `get_stats`) gives the same total as adding them trial by trial and
      then step by step (the order of the scoring loop). */
  lemma {:induction false} ColumnTotalIsReadingTotal(rows: seq<seq<real>>, n: nat)
    requires forall t | 0 <= t < |rows| :: n <= |rows[t]|
    ensures ColumnTotal(rows, n) == ReadingTotal(rows, n)
  {
    if n == 0 {
      ReadingTotalOfNothing(rows);
    } else {
      ColumnTotalIsReadingTotal(rows, n - 1);
      ReadingTotalNextStep(rows, n - 1);
    }
  }

  lemma {:induction false} ReadingTotalOfNothing(rows: seq<seq<real>>)
    ensures ReadingTotal(rows, 0) == 0.0
  {
    if rows != [] {
      ReadingTotalOfNothing(rows[..|rows| - 1]);
    }
  }

  /** With the same number of steps in every trial, the final counts are the
      counts after the last step, so the variance score of a candidate is the
      last entry of its variance trajectory. */
  lemma {:induction false} FinalVarianceIsLastStep(values: nat, draws: seq<seq<nat>>, steps: nat)
    requires values >= 1 && steps >= 1
    requires forall t | 0 <= t < |draws| :: |draws[t]| == steps && AllBelow(draws[t], values)
    ensures FinalVarianceSum(values, draws) == StepVarianceSum(values, draws, steps - 1)
  {
    if draws != [] {
      var last := |draws| - 1;
      FinalVarianceIsLastStep(values, draws[..last], steps);
      assert draws[last][..steps] == draws[last];
    }
  }

  /** The variance score of a candidate is the last entry of the variance
      trajectory `get_stats` reports for the same runs. */
  lemma ScoreVarianceIsFinalTrajectoryEntry(run: Run, steps: nat, trials: nat)
    requires Scorable(run, steps, trials)
    ensures ScoreOf(run, steps, trials).averageVariance ==
      StepVarianceSum(run.values, run.draws, steps - 1) / trials as real
  {
    FinalVarianceIsLastStep(run.values, run.draws, steps);
  }

  /** A candidate whose every reading is the largest possible entropy scores
      an entropy fraction of exactly 1. */
  lemma MaximalReadingsScoreOne(run: Run, steps: nat, trials: nat)
    requires Scorable(run, steps, trials)
    requires forall t, i | 0 <= t < trials && 0 <= i < steps :: run.readings[t][i] == run.maxEntropy
    ensures ScoreOf(run, steps, trials).entropyFraction == 1.0
  {
    ConstantReadingTotal(run.readings, steps, run.maxEntropy);
    var d := trials as real * steps as real * run.maxEntropy;
    assert ReadingTotal(run.readings, steps) == d;
    ProductPositive(trials as real * steps as real, run.maxEntropy);
    QuotientOfItself(d);
  }

  lemma {:induction false} ConstantReadingTotal(rows: seq<seq<real>>, n: nat, c: real)
    requires forall t | 0 <= t < |rows| :: n <= |rows[t]|
    requires forall t, i | 0 <= t < |rows| && 0 <= i < n :: rows[t][i] == c
    ensures ReadingTotal(rows, n) == |rows| as real * n as real * c
  {
    if rows != [] {
      var last := |rows| - 1;
      ConstantReadingTotal(rows[..last], n, c);
      RealSumConstant(rows[last][..n], c);
    }
  }
}
