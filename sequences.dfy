/** Sequence helpers shared by the randomness sources and the statistics:
    the alphabet `[0, n)`, removal by index, integer and real sums, and
    occurrence counts over a finite alphabet. */
module Sequences {

  /** `list(range(n))`. */
  function Range(n: nat): (s: seq<nat>)
    ensures |s| == n
    ensures forall i | 0 <= i < n :: s[i] == i
  {
    seq(n, i requires 0 <= i < n => i as nat)
  }

  /** Every entry of `xs` is a value of the alphabet `[0, n)`. */
  predicate AllBelow(xs: seq<nat>, n: nat)
  {
    forall k | 0 <= k < |xs| :: xs[k] < n
  }

  /** `del s[i]`: the entry at `i` is gone and the others keep their order. */
  function RemoveAt<T>(s: seq<T>, i: nat): (r: seq<T>)
    requires i < |s|
    ensures |r| == |s| - 1
    ensures forall k | 0 <= k < |r| :: r[k] == if k < i then s[k] else s[k + 1]
    ensures multiset(r) == multiset(s) - multiset{s[i]}
  {
    assert s == s[..i] + [s[i]] + s[i + 1..];
    s[..i] + s[i + 1..]
  }

  /** Python's `sum` over integers. */
  function Sum(s: seq<int>): int
  {
    if s == [] then 0 else Sum(s[..|s| - 1]) + s[|s| - 1]
  }

  /** Python's `sum` over (exact) reals. */
  function RealSum(s: seq<real>): real
  {
    if s == [] then 0.0 else RealSum(s[..|s| - 1]) + s[|s| - 1]
  }

  /** Overwriting one entry changes the sum by the difference. */
  lemma {:induction false} SumUpdate(s: seq<int>, k: nat, x: int)
    requires k < |s|
    ensures Sum(s[k := x]) == Sum(s) - s[k] + x
  {
    var n := |s| - 1;
    if k < n {
      assert s[k := x][..n] == s[..n][k := x];
      SumUpdate(s[..n], k, x);
    } else {
      assert s[k := x][..n] == s[..n];
    }
  }

  /** Overwriting one entry changes the real sum by the difference. */
  lemma {:induction false} RealSumUpdate(s: seq<real>, k: nat, x: real)
    requires k < |s|
    ensures RealSum(s[k := x]) == RealSum(s) - s[k] + x
  {
    var n := |s| - 1;
    if k < n {
      assert s[k := x][..n] == s[..n][k := x];
      RealSumUpdate(s[..n], k, x);
    } else {
      assert s[k := x][..n] == s[..n];
    }
  }

  /** A sum of naturals bounds each of its terms. */
  lemma {:induction false} TermAtMostSum(s: seq<nat>, k: nat)
    requires k < |s|
    ensures s[k] <= Sum(s)
  {
    var n := |s| - 1;
    SumNonNegative(s[..n]);
    if k < n {
      TermAtMostSum(s[..n], k);
    }
  }

  lemma {:induction false} SumNonNegative(s: seq<nat>)
    ensures Sum(s) >= 0
  {
    if s != [] {
      SumNonNegative(s[..|s| - 1]);
    }
  }

  /** A non-empty sum of positive reals is positive. */
  lemma {:induction false} RealSumPositive(s: seq<real>)
    requires forall k | 0 <= k < |s| :: s[k] > 0.0
    ensures s != [] ==> RealSum(s) > 0.0
  {
    if s != [] {
      RealSumPositive(s[..|s| - 1]);
    }
  }

  /** In a sum of two or more positive reals, each term is below the sum. */
  lemma {:induction false} TermBelowRealSum(s: seq<real>, k: nat)
    requires forall j | 0 <= j < |s| :: s[j] > 0.0
    requires k < |s| && |s| >= 2
    ensures s[k] < RealSum(s)
  {
    var n := |s| - 1;
    RealSumPositive(s[..n]);
    if k < n && n >= 2 {
      TermBelowRealSum(s[..n], k);
    }
  }

  /** A sequence of `|s|` equal terms `c` sums to `|s| * c`. */
  lemma {:induction false} RealSumConstant(s: seq<real>, c: real)
    requires forall k | 0 <= k < |s| :: s[k] == c
    ensures RealSum(s) == |s| as real * c
  {
    if s != [] {
      RealSumConstant(s[..|s| - 1], c);
    }
  }

  /** `[q[i] / t for i ...]`. */
  function Scale(q: seq<real>, t: real): (r: seq<real>)
    requires t != 0.0
    ensures |r| == |q|
    ensures forall i | 0 <= i < |q| :: r[i] == q[i] / t
  {
    seq(|q|, i requires 0 <= i < |q| => q[i] / t)
  }

  /** Dividing every term by `t` divides the sum by `t`. */
  lemma {:induction false} RealSumScale(q: seq<real>, t: real)
    requires t != 0.0
    ensures RealSum(Scale(q, t)) == RealSum(q) / t
  {
    if q != [] {
      var n := |q| - 1;
      assert Scale(q, t)[..n] == Scale(q[..n], t);
      RealSumScale(q[..n], t);
    }
  }

  lemma SameDenominator(a: real, b: real, n: real)
    requires n != 0.0
    ensures a / n + b / n == (a + b) / n
  {
  }

  lemma ProductPositive(a: real, b: real)
    requires a > 0.0 && b > 0.0
    ensures a * b > 0.0
  {
  }

  lemma QuotientPositive(a: real, t: real)
    requires a > 0.0 && t > 0.0
    ensures a / t > 0.0
  {
    assert a / t * t == a;
  }

  lemma QuotientNonNegative(a: real, t: real)
    requires a >= 0.0 && t > 0.0
    ensures a / t >= 0.0
  {
    assert a / t * t == a;
  }

  lemma QuotientOfItself(t: real)
    requires t != 0.0
    ensures t / t == 1.0
  {
  }

  /** `(a / t) * b == (b / t) * a`. */
  lemma QuotientCross(a: real, b: real, t: real)
    requires t != 0.0
    ensures (a / t) * b == (b / t) * a
  {
    assert (a / t) * t == a;
    assert (b / t) * t == b;
  }

  /** `o / n` is a probability when `0 < o <= n`. */
  lemma FractionInUnit(o: real, n: real)
    requires 0.0 < o <= n
    ensures 0.0 < o / n <= 1.0
  {
    assert o / n * n == o;
  }

  /** A quotient `a / t` with positive `t` is below `x` when `a < x * t`. */
  lemma QuotientBelow(a: real, t: real, x: real)
    requires t > 0.0 && a < x * t
    ensures a / t < x
  {
    assert a / t * t == a;
  }

  /** `[0 for i in range(n)]`. */
  function Zeros(n: nat): (z: seq<nat>)
    ensures |z| == n
    ensures forall i | 0 <= i < n :: z[i] == 0
  {
    seq(n, i => 0)
  }

  lemma {:induction false} SumZeros(n: nat)
    ensures Sum(Zeros(n)) == 0
  {
    if n > 0 {
      assert Zeros(n)[..n - 1] == Zeros(n - 1);
      SumZeros(n - 1);
    }
  }

  /** The occurrence counts of the values `[0, n)` in `xs`, built as the
      source builds them: start from zeros and add one per entry, in order. */
  function Counts(n: nat, xs: seq<nat>): (c: seq<nat>)
    requires AllBelow(xs, n)
    ensures |c| == n
  {
    if xs == [] then Zeros(n)
    else
      var c := Counts(n, xs[..|xs| - 1]);
      var x := xs[|xs| - 1];
      c[x := c[x] + 1]
  }

  /** Each count is the multiplicity of its value. */
  lemma {:induction false} CountsAreMultiplicities(n: nat, xs: seq<nat>)
    requires AllBelow(xs, n)
    ensures forall v | 0 <= v < n :: Counts(n, xs)[v] == multiset(xs)[v]
  {
    if xs != [] {
      var m := |xs| - 1;
      CountsAreMultiplicities(n, xs[..m]);
      assert xs == xs[..m] + [xs[m]];
    }
  }

  /** The counts add up to the number of entries counted. */
  lemma {:induction false} CountsSum(n: nat, xs: seq<nat>)
    requires AllBelow(xs, n)
    ensures Sum(Counts(n, xs)) == |xs|
  {
    if xs == [] {
      SumZeros(n);
    } else {
      var m := |xs| - 1;
      CountsSum(n, xs[..m]);
      var c := Counts(n, xs[..m]);
      SumUpdate(c, xs[m], c[xs[m]] + 1);
    }
  }

  /** Extending a prefix by one entry adds that entry to the real sum. */
  lemma RealSumPrefixStep(s: seq<real>, i: nat)
    requires i < |s|
    ensures RealSum(s[..i + 1]) == RealSum(s[..i]) + s[i]
  {
    assert s[..i + 1][..i] == s[..i];
  }

  /** Extending a prefix by one entry adds one to that entry's count. */
  lemma CountsPrefixStep(n: nat, xs: seq<nat>, i: nat)
    requires AllBelow(xs, n) && i < |xs|
    ensures AllBelow(xs[..i], n) && AllBelow(xs[..i + 1], n)
    ensures Counts(n, xs[..i + 1]) == Counts(n, xs[..i])[xs[i] := Counts(n, xs[..i])[xs[i]] + 1]
  {
    assert xs[..i + 1][..i] == xs[..i];
  }

  /** `Range(n)` holds every value of the alphabet exactly once. */
  lemma {:induction false} RangeMultiplicity(n: nat)
    ensures forall v :: multiset(Range(n))[v] == if 0 <= v < n then 1 else 0
  {
    if n > 0 {
      RangeMultiplicity(n - 1);
      assert Range(n) == Range(n - 1) + [n - 1];
    }
  }
}
