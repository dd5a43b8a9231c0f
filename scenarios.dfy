/** What the statistics say about a source: a deck drawn through one full
    cycle has used every value exactly once, so the variance that
    `get_stats` and the scoring loop compute for its counts is zero. */
module Scenarios {
  import opened Sequences
  import RandomnessSystems
  import Stats

  /** A fresh deck of `values` values, drawn `values` times, yields counts
      that are all one and therefore a count variance of zero, whatever the
      random numbers. */
  lemma FullDeckCycleHasZeroVariance(values: nat, rs: seq<real>)
    requires values >= 1 && RandomnessSystems.AllUnitDraws(rs) && |rs| == values
    ensures RandomnessSystems.DeckInvariant(values, Range(values))
    ensures AllBelow(RandomnessSystems.DeckRun(values, Range(values), rs).0, values)
    ensures forall v | 0 <= v < values ::
      Counts(values, RandomnessSystems.DeckRun(values, Range(values), rs).0)[v] == 1
    ensures Stats.Variance(Counts(values, RandomnessSystems.DeckRun(values, Range(values), rs).0)) == 0.0
  {
    RandomnessSystems.FullDeckCycle(values, rs);
    var drawn := RandomnessSystems.DeckRun(values, Range(values), rs).0;
    forall k | 0 <= k < |drawn|
      ensures drawn[k] < values
    {
      assert drawn[k] in multiset(drawn);
    }
    CountsAreMultiplicities(values, drawn);
    var counts := Counts(values, drawn);
    Stats.ConstantHasZeroVariance(counts);
  }
}
