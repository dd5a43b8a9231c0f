/** The four random-value systems. Each one produces values of the alphabet
    `[0, values)`. The global uniform generator is replaced by an explicit
    draw `r` in `[0, 1)`, passed to every `Sample`. */
module RandomnessSystems {
  import opened Sequences

  /** A draw from the uniform generator: a real in `[0, 1)`. */
  predicate IsUnitDraw(r: real)
  {
    0.0 <= r < 1.0
  }

  predicate AllUnitDraws(rs: seq<real>)
  {
    forall k | 0 <= k < |rs| :: IsUnitDraw(rs[k])
  }

  /** `int(random() * n)`: the floor of `r * n`, always an index below `n`. */
  function DrawIndex(r: real, n: nat): (i: nat)
    requires IsUnitDraw(r) && n >= 1
    ensures i < n
    ensures i as real <= r * n as real < i as real + 1.0
  {
    var x := r * n as real;
    assert x < n as real by {
      assert n as real - x == (1.0 - r) * n as real;
      ProductPositive(1.0 - r, n as real);
    }
    x.Floor
  }

  // ---------------------------------------------------------------------
  // Dice

  /** A stateless fair die. */
  class Dice {
    const values: nat

    constructor (values: nat)
      requires values >= 1
      ensures this.values == values
    {
      this.values := values;
    }

    /** Resetting a die changes nothing. */
    method Reset()
      ensures unchanged(this)
    {
    }

    /** A uniform draw scaled to the alphabet. */
    method Sample(r: real) returns (value: nat)
      requires values >= 1 && IsUnitDraw(r)
      ensures value < values
      ensures value as real <= r * values as real < value as real + 1.0
    {
      value := DrawIndex(r, values);
    }
  }

  // ---------------------------------------------------------------------
  // Deck

  predicate NoDuplicates(s: seq<nat>)
  {
    forall i, j | 0 <= i < j < |s| :: s[i] != s[j]
  }

  /** What a deck always satisfies between calls: never empty, at most one
      copy of each value, every entry in the alphabet. */
  predicate DeckInvariant(values: nat, deck: seq<nat>)
  {
    1 <= |deck| <= values && AllBelow(deck, values) && NoDuplicates(deck)
  }

  /** The deck after drawing the entry at `index`: the entry is removed and,
      if that empties the deck, it is refilled with one copy of each value. */
  function DeckAfterDraw(values: nat, deck: seq<nat>, index: nat): seq<nat>
    requires index < |deck|
  {
    var rest := RemoveAt(deck, index);
    if rest == [] then Range(values) else rest
  }

  /** A draw removes exactly the drawn entry, keeping the order of the
      others, and the deck is refilled exactly when that entry was the last. */
  lemma DeckDrawEffect(values: nat, deck: seq<nat>, index: nat)
    requires index < |deck|
    ensures var after := DeckAfterDraw(values, deck, index);
      && (|deck| == 1 ==> after == Range(values))
      && (|deck| > 1 ==>
            |after| == |deck| - 1 &&
            (forall k | 0 <= k < |after| :: after[k] == if k < index then deck[k] else deck[k + 1]) &&
            multiset(after) == multiset(deck) - multiset{deck[index]})
  {
  }

  lemma DeckDrawKeepsInvariant(values: nat, deck: seq<nat>, index: nat)
    requires DeckInvariant(values, deck) && index < |deck|
    ensures DeckInvariant(values, DeckAfterDraw(values, deck, index))
  {
    var rest := RemoveAt(deck, index);
    if rest != [] {
      forall i, j | 0 <= i < j < |rest| ensures rest[i] != rest[j] {
        var i' := if i < index then i else i + 1;
        var j' := if j < index then j else j + 1;
        assert rest[i] == deck[i'] && rest[j] == deck[j'] && i' < j';
      }
    }
  }

  /** A deck of cards numbered `[0, values)`, drawn without replacement. */
  class Deck {
    const values: nat
    var deck: seq<nat>

    ghost predicate Valid()
      reads this
    {
      DeckInvariant(values, deck)
    }

    constructor (values: nat)
      requires values >= 1
      ensures this.values == values && deck == Range(values) && Valid()
    {
      this.values := values;
      deck := [];
      new;
      Refill();
    }

    method Reset()
      requires values >= 1
      modifies this
      ensures deck == Range(values) && Valid()
    {
      deck := [];
      Refill();
    }

    /** Removes and returns the entry at the drawn index; refills only when
        the deck has become empty. */
    method Sample(r: real) returns (value: nat)
      requires Valid() && IsUnitDraw(r)
      modifies this
      ensures Valid()
      ensures var index := DrawIndex(r, |old(deck)|);
        value == old(deck)[index] && deck == DeckAfterDraw(values, old(deck), index)
    {
      var index := DrawIndex(r, |deck|);
      DeckDrawKeepsInvariant(values, deck, index);
      value := deck[index];
      deck := RemoveAt(deck, index);
      if |deck| == 0 {
        Refill();
      }
    }

    method Refill()
      modifies this
      ensures deck == Range(values)
    {
      deck := Range(values);
    }
  }

  /** The values drawn by consecutive samples using the draws `rs`, and the
      deck that is left. */
  function DeckRun(values: nat, deck: seq<nat>, rs: seq<real>): (out: (seq<nat>, seq<nat>))
    requires DeckInvariant(values, deck) && AllUnitDraws(rs)
    ensures |out.0| == |rs| && DeckInvariant(values, out.1)
    decreases |rs|
  {
    if rs == [] then ([], deck)
    else
      var index := DrawIndex(rs[0], |deck|);
      DeckDrawKeepsInvariant(values, deck, index);
      var tail := DeckRun(values, DeckAfterDraw(values, deck, index), rs[1..]);
      ([deck[index]] + tail.0, tail.1)
  }

  /** Drawing as many times as the deck has entries returns exactly those
      entries (in some order) and leaves a full deck. */
  lemma {:induction false} DeckCycle(values: nat, deck: seq<nat>, rs: seq<real>)
    requires DeckInvariant(values, deck) && AllUnitDraws(rs) && |rs| == |deck|
    ensures multiset(DeckRun(values, deck, rs).0) == multiset(deck)
    ensures DeckRun(values, deck, rs).1 == Range(values)
  {
    var index := DrawIndex(rs[0], |deck|);
    DeckDrawKeepsInvariant(values, deck, index);
    var rest := RemoveAt(deck, index);
    if rest != [] {
      DeckCycle(values, rest, rs[1..]);
    }
  }

  /** From a full deck, `values` consecutive samples return every value of
      the alphabet exactly once, and the deck is full again afterwards. */
  lemma FullDeckCycle(values: nat, rs: seq<real>)
    requires values >= 1 && AllUnitDraws(rs) && |rs| == values
    ensures DeckInvariant(values, Range(values))
    ensures forall v :: multiset(DeckRun(values, Range(values), rs).0)[v] == if 0 <= v < values then 1 else 0
    ensures DeckRun(values, Range(values), rs).1 == Range(values)
  {
    DeckCycle(values, Range(values), rs);
    RangeMultiplicity(values);
  }

  // ---------------------------------------------------------------------
  // GeneralizedDeck

  /** `list(range(values)) * copies`. */
  function Block(values: nat, copies: nat): (b: seq<nat>)
    ensures |b| == values * copies
    ensures AllBelow(b, values)
  {
    if copies == 0 then [] else Block(values, copies - 1) + Range(values)
  }

  /** A block holds `copies` copies of each value of the alphabet. */
  lemma {:induction false} BlockMultiplicity(values: nat, copies: nat)
    ensures forall v :: multiset(Block(values, copies))[v] == if 0 <= v < values then copies else 0
  {
    RangeMultiplicity(values);
    if copies > 0 {
      BlockMultiplicity(values, copies - 1);
    }
  }

  /** The generalized deck after drawing the entry at `index`: the entry is
      removed and a block is appended when fewer than `refillConstant`
      entries remain. */
  function GDeckAfterDraw(values: nat, sizeFactor: nat, refillConstant: nat, deck: seq<nat>, index: nat): seq<nat>
    requires index < |deck|
  {
    var rest := RemoveAt(deck, index);
    if |rest| < refillConstant then rest + Block(values, sizeFactor) else rest
  }

  /** What a draw does to the deck, counted per value: the drawn value loses
      one copy, and a refill (exactly when fewer than `refillConstant`
      entries remain) adds `sizeFactor` copies of every value. */
  lemma GDeckDrawCounts(values: nat, sizeFactor: nat, refillConstant: nat, deck: seq<nat>, index: nat)
    requires index < |deck|
    ensures var after := GDeckAfterDraw(values, sizeFactor, refillConstant, deck, index);
      var refilled := |deck| - 1 < refillConstant;
      && |after| == |deck| - 1 + (if refilled then values * sizeFactor else 0)
      && forall v :: multiset(after)[v] ==
           multiset(deck)[v] - (if v == deck[index] then 1 else 0)
           + (if refilled && 0 <= v < values then sizeFactor else 0)
  {
    BlockMultiplicity(values, sizeFactor);
  }

  /** With positive parameters the deck is never empty after a draw, and it
      only ever holds values of the alphabet. */
  lemma GDeckDrawKeepsInvariant(values: nat, sizeFactor: nat, refillConstant: nat, deck: seq<nat>, index: nat)
    requires values >= 1 && sizeFactor >= 1 && refillConstant >= 1
    requires AllBelow(deck, values) && index < |deck|
    ensures var after := GDeckAfterDraw(values, sizeFactor, refillConstant, deck, index);
      |after| >= 1 && AllBelow(after, values)
  {
    var rest := RemoveAt(deck, index);
    if |rest| < refillConstant {
      var b := Block(values, sizeFactor);
      assert |b| >= 1 by {
        assert values * sizeFactor >= 1 * sizeFactor;
      }
      forall k | 0 <= k < |rest + b| ensures (rest + b)[k] < values {
        if k >= |rest| {
          assert (rest + b)[k] == b[k - |rest|];
        }
      }
    }
  }

  /** `occurrences[value] += 1` for every entry of the deck, starting from
      zeros. */
  method CountOccurrences(values: nat, deck: seq<nat>) returns (occurrences: seq<nat>)
    requires AllBelow(deck, values)
    ensures occurrences == Counts(values, deck)
  {
    occurrences := Zeros(values);
    for k := 0 to |deck|
      invariant occurrences == Counts(values, deck[..k])
    {
      CountsPrefixStep(values, deck, k);
      occurrences := occurrences[deck[k] := occurrences[deck[k]] + 1];
    }
    assert deck[..|deck|] == deck;
  }

  /** The share `count / n` of a count among `n` entries. */
  function Share(count: int, n: real): real
    requires n > 0.0
  {
    count as real / n
  }

  /** `[o / n for o in occurrences if o > 0]`, in value order. */
  function NonZeroShares(occurrences: seq<nat>, n: real): seq<real>
    requires n > 0.0
  {
    if occurrences == [] then []
    else
      var o := occurrences[|occurrences| - 1];
      NonZeroShares(occurrences[..|occurrences| - 1], n) + if o > 0 then [Share(o, n)] else []
  }

  /** Appending the share of a count `0 < o <= n` to shares that sum to the
      share of `counted` gives shares that sum to the share of `counted + o`. */
  lemma AppendShare(shares: seq<real>, counted: int, o: nat, n: real)
    requires n > 0.0 && 0 < o && o as real <= n
    requires RealSum(shares) == Share(counted, n)
    ensures 0.0 < Share(o, n) <= 1.0
    ensures RealSum(shares + [Share(o, n)]) == Share(counted + o, n)
  {
    FractionInUnit(o as real, n);
    assert (shares + [Share(o, n)])[..|shares|] == shares;
    SameDenominator(counted as real, o as real, n);
  }

  /** When the counts add up to at most `n`, every share of a non-zero count
      is a probability, and the shares add up to the share of the total. */
  lemma {:induction false} NonZeroSharesAreProbabilities(occurrences: seq<nat>, n: real)
    requires n > 0.0 && Sum(occurrences) as real <= n
    ensures forall k | 0 <= k < |NonZeroShares(occurrences, n)| ::
      0.0 < NonZeroShares(occurrences, n)[k] <= 1.0
    ensures RealSum(NonZeroShares(occurrences, n)) == Share(Sum(occurrences), n)
  {
    if occurrences != [] {
      var m := |occurrences| - 1;
      var o := occurrences[m];
      var counted := Sum(occurrences[..m]);
      var before := NonZeroShares(occurrences[..m], n);
      assert Sum(occurrences) == counted + o;
      NonZeroSharesAreProbabilities(occurrences[..m], n);
      if o > 0 {
        TermAtMostSum(occurrences, m);
        AppendShare(before, counted, o, n);
        assert NonZeroShares(occurrences, n) == before + [Share(o, n)];
      } else {
        assert NonZeroShares(occurrences, n) == before;
      }
    }
  }

  /** The loop computing `o / total` for every non-zero count `o`, in value
      order. */
  method Probabilities(occurrences: seq<nat>, total: nat) returns (probabilities: seq<real>)
    requires total >= 1 && Sum(occurrences) == total
    ensures probabilities == NonZeroShares(occurrences, total as real)
    ensures forall k | 0 <= k < |probabilities| :: 0.0 < probabilities[k] <= 1.0
    ensures RealSum(probabilities) == 1.0
  {
    var n := total as real;
    probabilities := [];
    for v := 0 to |occurrences|
      invariant probabilities == NonZeroShares(occurrences[..v], n)
    {
      assert occurrences[..v + 1][..v] == occurrences[..v];
      var o := occurrences[v];
      if o > 0 {
        probabilities := probabilities + [Share(o, n)];
      }
    }
    assert occurrences[..|occurrences|] == occurrences;
    NonZeroSharesAreProbabilities(occurrences, n);
    QuotientOfItself(n);
  }

  /** A deck holding `sizeFactor` copies of each value, topped up with as
      many again whenever fewer than `refillConstant` entries remain. */
  class GeneralizedDeck {
    const values: nat
    const sizeFactor: nat
    const refillConstant: nat
    var deck: seq<nat>

    ghost predicate Valid()
      reads this
    {
      values >= 1 && sizeFactor >= 1 && refillConstant >= 1 &&
      |deck| >= 1 && AllBelow(deck, values)
    }

    constructor (values: nat, sizeFactor: nat, refillConstant: nat)
      requires values >= 1 && sizeFactor >= 1 && refillConstant >= 1
      ensures this.values == values && this.sizeFactor == sizeFactor
      ensures this.refillConstant == refillConstant
      ensures deck == Block(values, sizeFactor) && Valid()
    {
      this.values := values;
      this.sizeFactor := sizeFactor;
      this.refillConstant := refillConstant;
      deck := [];
      new;
      Refill();
      assert values * sizeFactor >= 1 * sizeFactor;
    }

    method Reset()
      requires Valid()
      modifies this
      ensures deck == Block(values, sizeFactor) && Valid()
    {
      deck := [];
      Refill();
      assert values * sizeFactor >= 1 * sizeFactor;
    }

    /** Removes and returns the entry at the drawn index; refills exactly
        when fewer than `refillConstant` entries remain. */
    method Sample(r: real) returns (value: nat)
      requires Valid() && IsUnitDraw(r)
      modifies this
      ensures Valid()
      ensures var index := DrawIndex(r, |old(deck)|);
        value == old(deck)[index] &&
        deck == GDeckAfterDraw(values, sizeFactor, refillConstant, old(deck), index)
    {
      var index := DrawIndex(r, |deck|);
      GDeckDrawKeepsInvariant(values, sizeFactor, refillConstant, deck, index);
      value := deck[index];
      deck := RemoveAt(deck, index);
      if |deck| < refillConstant {
        Refill();
      }
    }

    /** Appends `sizeFactor` copies of every value. */
    method Refill()
      modifies this
      ensures deck == old(deck) + Block(values, sizeFactor)
    {
      deck := deck + Block(values, sizeFactor);
    }

    /** The counting part of `entropy`: the occurrence count of every value
        in the deck, then the probability `count / |deck|` of every value
        that occurs. The entropy is `-sum(p * log(p))` over `probabilities`. */
    method EntropyTerms() returns (occurrences: seq<nat>, probabilities: seq<real>)
      requires Valid()
      ensures |occurrences| == values
      ensures forall v | 0 <= v < values :: occurrences[v] == multiset(deck)[v]
      ensures Sum(occurrences) == |deck|
      ensures probabilities == NonZeroShares(occurrences, |deck| as real)
      ensures forall k | 0 <= k < |probabilities| :: 0.0 < probabilities[k] <= 1.0
      ensures RealSum(probabilities) == 1.0
    {
      occurrences := CountOccurrences(values, deck);
      CountsAreMultiplicities(values, deck);
      CountsSum(values, deck);
      probabilities := Probabilities(occurrences, |deck|);
    }
  }

  // ---------------------------------------------------------------------
  // DynamicDice

  /** A probability vector: every entry positive, entries summing to 1. */
  ghost predicate IsDistribution(p: seq<real>)
  {
    (forall i | 0 <= i < |p| :: p[i] > 0.0) && RealSum(p) == 1.0
  }

  /** `[1/n for i in range(n)]`, the uniform distribution. */
  function Uniform(n: nat): (p: seq<real>)
    requires n >= 1
    ensures |p| == n && IsDistribution(p)
  {
    var p := seq(n, i => 1.0 / n as real);
    RealSumConstant(p, 1.0 / n as real);
    p
  }

  /** `probabilities[c] *= decreaseFactor`: still positive, so its total is
      positive too. */
  function Lower(p: seq<real>, c: nat, decreaseFactor: real): (l: seq<real>)
    requires IsDistribution(p) && c < |p| && 0.0 < decreaseFactor
    ensures |l| == |p| && l[c] == p[c] * decreaseFactor
    ensures forall i | 0 <= i < |l| && i != c :: l[i] == p[i]
    ensures forall i | 0 <= i < |l| :: l[i] > 0.0
    ensures RealSum(l) == 1.0 - p[c] + p[c] * decreaseFactor > 0.0
  {
    var x := p[c] * decreaseFactor;
    ProductPositive(p[c], decreaseFactor);
    RealSumPositive(p[c := x]);
    RealSumUpdate(p, c, x);
    p[c := x]
  }

  /** The vector after `c` was chosen: entry `c` is multiplied by
      `decreaseFactor` and every entry is divided by the new total. */
  function Penalize(p: seq<real>, c: nat, decreaseFactor: real): (q: seq<real>)
    requires IsDistribution(p) && c < |p| && 0.0 < decreaseFactor
    ensures |q| == |p|
  {
    var lowered := Lower(p, c, decreaseFactor);
    Scale(lowered, RealSum(lowered))
  }

  lemma PenalizeUnfold(p: seq<real>, c: nat, decreaseFactor: real, x: real, lowered: seq<real>)
    requires IsDistribution(p) && c < |p| && 0.0 < decreaseFactor
    requires x == p[c] * decreaseFactor && lowered == p[c := x]
    ensures RealSum(lowered) > 0.0
    ensures Penalize(p, c, decreaseFactor) == Scale(lowered, RealSum(lowered))
    ensures IsDistribution(Penalize(p, c, decreaseFactor))
  {
    assert Lower(p, c, decreaseFactor) == lowered;
    PenalizeKeepsDistribution(p, c, decreaseFactor);
  }

  /** The probability mass of the entries `0..k`. */
  function Cumulative(p: seq<real>, k: nat): real
    requires k < |p|
  {
    RealSum(p[..k + 1])
  }

  /** The sampling walk: subtract each probability from the draw `u` in
      index order and stop at the first index where the remainder reaches 0,
      i.e. the first index whose cumulative mass is at least `u`. The result
      is -1 when no index is reached. */
  method Walk(p: seq<real>, u: real) returns (chosen: int)
    ensures -1 <= chosen < |p|
    ensures chosen == -1 <==> forall k | 0 <= k < |p| :: Cumulative(p, k) < u
    ensures chosen >= 0 ==>
      u <= Cumulative(p, chosen) && forall k | 0 <= k < chosen :: Cumulative(p, k) < u
  {
    var choice := u;
    chosen := -1;
    var i := 0;
    while i < |p|
      invariant 0 <= i <= |p|
      invariant choice == u - RealSum(p[..i])
      invariant forall k | 0 <= k < i :: Cumulative(p, k) < u
    {
      assert p[..i + 1][..i] == p[..i];
      choice := choice - p[i];
      if choice <= 0.0 {
        assert u <= Cumulative(p, i);
        chosen := i;
        break;
      }
      i := i + 1;
    }
  }

  /** The whole vector's cumulative mass is 1, so a draw below 1 is always
      reached by some index and the walk's fall-through cannot happen. */
  lemma WalkAlwaysSelects(p: seq<real>, u: real)
    requires IsDistribution(p) && |p| >= 1 && u < 1.0
    ensures !(forall k | 0 <= k < |p| :: Cumulative(p, k) < u)
  {
    assert p[..|p| - 1 + 1] == p;
    assert Cumulative(p, |p| - 1) == 1.0;
  }

  /** After a draw the vector is again a probability distribution. */
  lemma PenalizeKeepsDistribution(p: seq<real>, c: nat, decreaseFactor: real)
    requires IsDistribution(p) && c < |p| && 0.0 < decreaseFactor
    ensures IsDistribution(Penalize(p, c, decreaseFactor))
  {
    var lowered := Lower(p, c, decreaseFactor);
    var total := RealSum(lowered);
    RealSumScale(lowered, total);
    QuotientOfItself(total);
    var q := Scale(lowered, total);
    assert Penalize(p, c, decreaseFactor) == q;
    forall i | 0 <= i < |q| ensures q[i] > 0.0 {
      QuotientPositive(lowered[i], total);
    }
  }

  /** The ratios among the entries that were not chosen are unchanged. */
  lemma PenalizeKeepsRatios(p: seq<real>, c: nat, decreaseFactor: real, i: nat, j: nat)
    requires IsDistribution(p) && c < |p| && 0.0 < decreaseFactor
    requires i < |p| && j < |p| && i != c && j != c
    ensures Penalize(p, c, decreaseFactor)[i] * p[j] == Penalize(p, c, decreaseFactor)[j] * p[i]
  {
    var lowered := Lower(p, c, decreaseFactor);
    var total := RealSum(lowered);
    var q := Penalize(p, c, decreaseFactor);
    var a, b := p[i], p[j];
    assert q[i] == a / total && q[j] == b / total;
    QuotientCross(a, b, total);
  }

  /** With a decrease factor of 1 a distribution is left as it is. */
  lemma PenalizeByOneIsIdentity(p: seq<real>, c: nat)
    requires IsDistribution(p) && c < |p|
    ensures Penalize(p, c, 1.0) == p
  {
    var lowered := Lower(p, c, 1.0);
    assert lowered == p;
    assert RealSum(lowered) == 1.0;
    var q := Penalize(p, c, 1.0);
    forall i | 0 <= i < |p| ensures q[i] == p[i] {
      assert q[i] == lowered[i] / 1.0;
    }
  }

  /** With a decrease factor below 1 and at least two values, the chosen
      value becomes strictly less likely. */
  lemma PenalizeLowersChosen(p: seq<real>, c: nat, decreaseFactor: real)
    requires IsDistribution(p) && c < |p| && |p| >= 2
    requires 0.0 < decreaseFactor < 1.0
    ensures Penalize(p, c, decreaseFactor)[c] < p[c]
  {
    TermBelowRealSum(p, c);
    var lowered := Lower(p, c, decreaseFactor);
    ShrunkShareIsSmaller(p[c], decreaseFactor, lowered[c], RealSum(lowered));
  }

  /** The share `m / total` with `m == x * d` and `total == 1 - x + m` is
      below `x` for `x` and `d` strictly between 0 and 1. */
  lemma ShrunkShareIsSmaller(x: real, d: real, m: real, total: real)
    requires 0.0 < x < 1.0 && 0.0 < d < 1.0
    requires m == x * d && total == 1.0 - x + m
    ensures total > 0.0
    ensures m / total < x
  {
    var a := 1.0 - x;
    var b := 1.0 - d;
    ProductPositive(a, b);
    assert a * b == total - d;
    var e := total - d;
    ProductPositive(x, e);
    assert x * e == x * total - m;
    QuotientBelow(m, total, x);
  }

  /** A die whose probabilities adapt: the value just drawn becomes less
      likely by `decreaseFactor`, then the vector is renormalised. */
  class DynamicDice {
    const values: nat
    const decreaseFactor: real
    var probabilities: seq<real>

    ghost predicate Valid()
      reads this
    {
      values >= 1 && 0.0 < decreaseFactor &&
      |probabilities| == values && IsDistribution(probabilities)
    }

    constructor (values: nat, decreaseFactor: real)
      requires values >= 1 && 0.0 < decreaseFactor
      ensures this.values == values && this.decreaseFactor == decreaseFactor
      ensures probabilities == Uniform(values) && Valid()
    {
      this.values := values;
      this.decreaseFactor := decreaseFactor;
      probabilities := Uniform(values);
    }

    method Reset()
      requires Valid()
      modifies this
      ensures probabilities == Uniform(values) && Valid()
    {
      probabilities := Uniform(values);
    }

    /** Returns the first index whose cumulative probability reaches `u`,
        then lowers that index's probability and renormalises. */
    method Sample(u: real) returns (chosen: int)
      requires Valid() && IsUnitDraw(u)
      modifies this
      ensures Valid()
      ensures 0 <= chosen < values
      ensures u <= Cumulative(old(probabilities), chosen)
      ensures forall k | 0 <= k < chosen :: Cumulative(old(probabilities), k) < u
      ensures probabilities == Penalize(old(probabilities), chosen, decreaseFactor)
    {
      chosen := Walk(probabilities, u);
      assert chosen >= 0 by {
        WalkAlwaysSelects(probabilities, u);
      }
      ghost var before := probabilities;
      var lowered := probabilities[chosen] * decreaseFactor;
      probabilities := probabilities[chosen := lowered];
      PenalizeUnfold(before, chosen, decreaseFactor, lowered, probabilities);
      var probabilitySum := RealSum(probabilities);
      probabilities := Scale(probabilities, probabilitySum);
    }
  }
}
