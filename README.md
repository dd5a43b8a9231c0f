# Randomness systems analysis, modelled in Dafny

The repository compares four ways of producing random values from the
alphabet `[0, values)`:

- **Dice** draws uniformly.
- **Deck** draws without replacement from one copy of each value and
  refills itself once it is empty.
- **GeneralizedDeck** starts from `size_factor` copies of each value. It
  appends another such block whenever fewer than `refill_constant` entries
  remain.
- **DynamicDice** keeps a probability vector. It multiplies the drawn
  value's probability by `decrease_factor` and renormalises.

The statistics module then does three things:

- It measures each system's entropy and count-variance trajectory over
  repeated trials (`get_stats`).
- It scores candidate systems by average entropy and final count variance.
- It picks the lowest-variance candidate whose entropy reaches a floor
  (`get_lowest_variance_source`).

The model has four modules:

- `Sequences` (`sequences.dfy`) holds the shared helpers: the alphabet
  `Range`, removal by index, integer and real sums, and occurrence counts.
- `RandomnessSystems` (`randomness_systems.dfy`) has one `class` per system.
  Each stateful class keeps its deck or its probability vector as a `seq`
  field, and `Reset` and `Sample` update that field in place. `Dice` has no
  such state. Each state change is
  specified by a function on the old state (`DeckAfterDraw`,
  `GDeckAfterDraw`, `Penalize`), and lemmas prove what the source promises
  about those functions.
- `Stats` (`stats.dfy`) holds the population variance, the `get_stats`
  loops, the scoring loops and the selection rule. The selection rule is
  specified by the recursive function `Select`.
- `Scenarios` (`scenarios.dfy`) ties the two sides together: a full cycle of
  a deck has count variance zero.

The random number generator is a parameter. Each `Sample` takes the value
`random()` returned, a real in `[0, 1)`. The statistics loops take a `Run`:
the entropy readings and drawn values that one source produced in each
trial. Floating-point numbers are modelled as exact reals.

A GeneralizedDeck refill appends one block to whatever remains after the
removal (`GDeckDrawCounts`). The deck then holds
`|deck| - 1 + size_factor * values` entries. So a refill does not always
bring the deck to `refill_constant + size_factor * values - 1` entries: it
falls short whenever the remainder is shorter than `refill_constant - 1`.
This happens whenever `values * size_factor < refill_constant`: the first
draw then leaves `values * size_factor - 1 < refill_constant - 1` entries
before its refill.
The repository's own parameter grid contains such decks, for example
`values = 6`, `size_factor = 1`, `refill_constant = 10`.

## Model

| member | source | states |
|---|---|---|
| Sequences.Range | randomness_systems.py:44-45 | `list(range(n))` has length `n` and holds `i` at position `i` |
| Sequences.RemoveAt | randomness_systems.py:38 | `del deck[index]`: one entry shorter; entries before `index` stay where they were and later ones shift down by one; the multiset loses exactly one copy of the removed entry |
| Sequences.CountsAreMultiplicities | randomness_systems.py:69-71 | counting into zeros, one increment per entry, gives each value its multiplicity in the list |
| Sequences.CountsSum | randomness_systems.py:69-71 | the occurrence counts add up to the length of the list |
| Sequences.RangeMultiplicity | randomness_systems.py:45 | the refilled deck holds every value of the alphabet exactly once and nothing else |
| RandomnessSystems.DrawIndex | randomness_systems.py:36 | `int(random()*n)` for a draw in `[0, 1)` is the floor of `r*n` and is always a valid index below `n` |
| RandomnessSystems.Dice.constructor | randomness_systems.py:15-16 | a die over `values` values |
| RandomnessSystems.Dice.Reset | randomness_systems.py:17-18 | resetting a die changes nothing |
| RandomnessSystems.Dice.Sample | randomness_systems.py:19-20 | the sample is in `[0, values)` and is the floor of `r*values` |
| RandomnessSystems.DeckDrawEffect | randomness_systems.py:35-41 | a draw from a deck of several entries removes exactly the drawn entry and keeps the others in order; a draw of the last entry refills the deck to `Range(values)` |
| RandomnessSystems.DeckDrawKeepsInvariant | randomness_systems.py:35-41 | a draw keeps the deck non-empty, duplicate-free, within the alphabet and at most `values` long |
| RandomnessSystems.Deck.constructor | randomness_systems.py:28-31 | a new deck is `Range(values)` and satisfies the deck invariant |
| RandomnessSystems.Deck.Reset | randomness_systems.py:32-34 | reset makes the deck `Range(values)` again |
| RandomnessSystems.Deck.Sample | randomness_systems.py:35-41 | returns `deck[index]` for the drawn index; the new deck is the old one without that entry, refilled only when it became empty; the invariant is kept |
| RandomnessSystems.Deck.Refill | randomness_systems.py:44-45 | the deck becomes one copy of each value |
| RandomnessSystems.DeckRun | randomness_systems.py:35-41 | consecutive samples yield one value per draw and leave a deck that still satisfies the invariant |
| RandomnessSystems.DeckCycle | randomness_systems.py:35-45 | drawing as many times as the deck has entries returns exactly those entries (as a multiset) and leaves a full deck |
| RandomnessSystems.FullDeckCycle | randomness_systems.py:24-45 | from a full deck, `values` consecutive samples return every value exactly once and end with a full deck |
| RandomnessSystems.Block | randomness_systems.py:81 | `list(range(values))*size_factor` has `values*size_factor` entries, all in the alphabet |
| RandomnessSystems.BlockMultiplicity | randomness_systems.py:81 | a block holds exactly `size_factor` copies of each value |
| RandomnessSystems.GDeckDrawCounts | randomness_systems.py:60-66 | a draw lowers the drawn value's multiplicity by one; a refill happens exactly when fewer than `refill_constant` entries remain and then adds `size_factor` copies of every value; the new length follows |
| RandomnessSystems.GDeckDrawKeepsInvariant | randomness_systems.py:60-66 | with positive parameters a draw leaves the deck non-empty and within the alphabet |
| RandomnessSystems.GeneralizedDeck.constructor | randomness_systems.py:51-56 | a new deck is one block of `size_factor` copies of each value |
| RandomnessSystems.GeneralizedDeck.Reset | randomness_systems.py:57-59 | reset makes the deck one block again |
| RandomnessSystems.GeneralizedDeck.Sample | randomness_systems.py:60-66 | returns `deck[index]`; the new deck is the old one without that entry, with a block appended iff fewer than `refill_constant` entries remain; the invariant is kept |
| RandomnessSystems.GeneralizedDeck.Refill | randomness_systems.py:80-81 | appends a block to the deck, keeping what was there |
| RandomnessSystems.CountOccurrences | randomness_systems.py:69-71 | the counting loop over the deck yields the occurrence counts `Counts(values, deck)` |
| RandomnessSystems.NonZeroSharesAreProbabilities | randomness_systems.py:75-77 | when the counts add up to at most `n`, every share `o/n` of a non-zero count lies in `(0, 1]`, and the shares add up to the total count over `n` |
| RandomnessSystems.Probabilities | randomness_systems.py:75-77 | the loop yields exactly `o/len(deck)` for each non-zero count `o`, in value order, with zero counts skipped; these lie in `(0, 1]` and sum to 1 when the counts sum to the deck length |
| RandomnessSystems.GeneralizedDeck.EntropyTerms | randomness_systems.py:67-79 | the occurrence counts equal the multiplicities in the deck and sum to its length; the probabilities are exactly `o/len(deck)` for the non-zero counts in value order, each in `(0, 1]`, summing to 1 |
| RandomnessSystems.Uniform | randomness_systems.py:90-92 | `[1/values]*values` is a probability distribution |
| RandomnessSystems.Lower | randomness_systems.py:104 | only the chosen entry changes (multiplied by the decrease factor); all entries stay positive and the total becomes `1 - p + p*d > 0` |
| RandomnessSystems.Walk | randomness_systems.py:94-101 | the walk returns the first index whose cumulative probability reaches the draw, and returns -1 exactly when no index does |
| RandomnessSystems.WalkAlwaysSelects | randomness_systems.py:94-101 | for a distribution and a draw below 1 some cumulative sum reaches the draw, so the -1 fall-through is unreachable |
| RandomnessSystems.PenalizeKeepsDistribution | randomness_systems.py:103-108 | after lowering and renormalising, the vector is again positive and sums to 1 |
| RandomnessSystems.PenalizeKeepsRatios | randomness_systems.py:103-108 | the ratio of any two entries that were not chosen is unchanged |
| RandomnessSystems.PenalizeByOneIsIdentity | randomness_systems.py:103-108 | with decrease factor 1 the vector is unchanged |
| RandomnessSystems.PenalizeLowersChosen | randomness_systems.py:103-108 | with decrease factor below 1 and two or more values, the chosen value's probability strictly drops |
| RandomnessSystems.DynamicDice.constructor | randomness_systems.py:87-90 | a new dynamic die, for any positive decrease factor, holds the uniform distribution |
| RandomnessSystems.DynamicDice.Reset | randomness_systems.py:91-92 | reset restores the uniform distribution |
| RandomnessSystems.DynamicDice.Sample | randomness_systems.py:93-109 | the chosen value is a valid index, the first whose cumulative probability reaches the draw; the new vector is the penalised one and is still a distribution |
| Stats.SquaredDeviations | stats.py:86-88 | the sum of squared deviations is never negative |
| Stats.Variance | stats.py:81-88 | the variance of a non-empty list is never negative |
| Stats.ConstantHasZeroVariance | stats.py:81-88 | a list of equal entries has variance 0 |
| Stats.ZeroVarianceIsConstant | stats.py:81-88 | a list with variance 0 has all entries equal |
| Stats.VarianceZeroIffConstant | stats.py:81-88 | the variance is 0 if and only if all entries are equal |
| Stats.ZeroSquaredDeviations | stats.py:88 | squared deviations that sum to 0 are each 0 |
| Stats.AccumulateTrial | stats.py:21-33 | one trial adds the step-`i` reading to `entropies[i]` and the variance of the counts after draws `0..i` to `variances[i]`, for every step |
| Stats.GetStats | stats.py:7-39 | both trajectories have `steps` entries; entry `i` is the step-`i` reading summed over trials divided by `trials*log(values)`, and the step-`i` count variance averaged over trials |
| Stats.ScoreTrial | stats.py:60-68 | one scoring trial adds all its readings to the running entropy; its counts are the multiplicities of the draws, have `values` entries and sum to the number of steps |
| Stats.ScoreSource | stats.py:57-74 | the scoring loops produce the candidate's entropy fraction and (after division by `trials`) its average final count variance |
| Stats.GetLowestVarianceSource | stats.py:41-78 | the loop over candidates returns exactly what the selection rule `Select` picks from the candidates' scores |
| Stats.SelectNoneIffNoneQualify | stats.py:53-78 | no candidate is returned iff none reaches the entropy floor, and then the reported variance is 0 |
| Stats.SelectIsLatestMinimum | stats.py:73-77 | the returned candidate reaches the floor, its variance is reported, is at most every qualifying candidate's, and is strictly below every later qualifying candidate's (the latest of equal minima wins) |
| Stats.SelectCharacterized | stats.py:73-77 | conversely, a qualifying candidate that is minimal and strictly below every later qualifying candidate is the one returned |
| Stats.BelowFloorIrrelevant | stats.py:73 | candidates below the entropy floor can be replaced by any other non-qualifying scores without changing the result |
| Stats.ColumnTotalIsReadingTotal | stats.py:27 | summing readings step by step and then trial by trial gives the same total as summing each trial's readings first |
| Stats.FinalVarianceIsLastStep | stats.py:68 | the variance of each trial's final counts, summed over trials, is the last step's entry of the variance trajectory sum |
| Stats.ScoreVarianceIsFinalTrajectoryEntry | stats.py:74 | a candidate's variance score is the last entry of its `get_stats` variance trajectory |
| Stats.MaximalReadingsScoreOne | stats.py:71 | a candidate whose every reading is `log(values)` has entropy fraction exactly 1 |
| Scenarios.FullDeckCycleHasZeroVariance | randomness_systems.py:35-45 | after a full deck cycle every count is 1, so the count variance of that step is 0 |

## Left out

- Logarithms. `log` is not modelled. The entropy readings are recorded
  reals in a `Run`, and `log(values)` is the run's `maxEntropy`. Dice.entropy,
  Deck.entropy, DynamicDice.entropy and the `-p*log(p)` sum of
  GeneralizedDeck.entropy are therefore left out. GeneralizedDeck.EntropyTerms
  covers the counting and the probabilities that feed that sum.
- Randomness. `random()` is a parameter of each `Sample`: a real in `[0, 1)`.
- Floating point. Arithmetic is on exact reals, so rounding is not
  modelled. In particular, the DynamicDice walk could fall through to -1
  with float rounding; the model proves it never does with exact sums
  (WalkAlwaysSelects).
- Live sources. The statistics loops read a recorded `Run` (readings and
  drawn values per trial) instead of calling `reset`, `entropy` and `sample`
  on a source object.
- Candidate identity. The selection returns the candidate's position in
  the list instead of the source object.
- Per-trial helper methods. The inner loops of `get_stats` and of the
  scoring loop are separate methods (AccumulateTrial, ScoreTrial). Their
  step order is unchanged.
- Parameter requirements. The model requires the parameter ranges that the
  class docstrings state (randomness_systems.py:49, 85), with two
  differences. First, every class also requires `values >= 1`. No docstring
  states this; it is the model's own requirement, implied by the alphabet
  `[0, values)` that randomness_systems.py:4 describes. Second, DynamicDice
  accepts any positive `decrease_factor`, because the source also runs
  normally for factors above 1. What the source does outside these ranges:
  - Dice with `values == 0`: `sample` returns 0, which is outside the empty
    alphabet; `entropy` raises a ValueError from `log(0)`. The model
    requires `values >= 1`.
  - Deck with `values == 0`: the deck is empty and the first `sample` raises
    an IndexError.
  - GeneralizedDeck with `values == 0` or `size_factor <= 0`: the deck starts
    empty and the first `sample` raises an IndexError.
  - GeneralizedDeck with `refill_constant <= 0`: the deck is never refilled.
    Draws succeed until it runs out, and then `sample` raises an IndexError.
    The model requires `refill_constant >= 1`, so it does not describe these
    draining runs.
  - DynamicDice with `values == 0`: the constructor builds an empty vector,
    because its comprehension never evaluates `1/values`. `entropy` then
    returns 0. The first `sample` raises an IndexError when it lowers
    `probabilities[-1]` of the empty list (randomness_systems.py:104).
  - DynamicDice with `decrease_factor == 0`: each sample sets the drawn
    value's probability to 0. With a draw above 0, the walk stops only at a
    value whose probability is positive, so each sample zeroes one more
    value. The `values`-th sample leaves every probability at 0, and the
    renormalisation then divides by zero (randomness_systems.py:108). After
    the first sample, `entropy` raises a ValueError from `log(0)`
    (randomness_systems.py:113).
  - DynamicDice with a negative `decrease_factor`: with one value the
    vector stays `[1.0]`, because line 108 divides the lowered entry by
    itself. With two or more values the first sample leaves a negative
    entry, except at `decrease_factor == 1 - values`. There the lowered
    vector sums to 0 and line 108 divides by zero; for example `values = 2`,
    `decrease_factor = -1` gives `[0.5, -0.5]`.

  The model's invariant is a vector of positive probabilities, so it
  requires `decrease_factor > 0`.
- Stats.GetStats and Stats.ScoreSource: require `trials >= 1` and
  `log(values) > 0` whenever `steps >= 1`. The scoring also requires
  `steps >= 1`. Otherwise the source divides by zero; `values == 1` makes
  `log(values)` zero.
- write_results.py and run_tests.py are not part of this model. They only
  build the candidate lists, call the two statistics functions, write the
  results to a file and print the outcome.
