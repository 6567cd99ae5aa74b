/**
 Round-trip statistics (fabric/src/ping.cpp, `PingStats::sample` and `PingStats::reset`):
 a running mean and a running sum of squared deviations, updated one sample at a time.
 Doubles are reals here.
 */
module PingStatistics {

  function Total(xs: seq<nat>): real {
    if xs == [] then 0.0 else Total(xs[..|xs| - 1]) + xs[|xs| - 1] as real
  }

  function Square(x: real): real { x * x }

  function SumOf(xs: seq<nat>, f: nat -> real): real {
    if xs == [] then 0.0 else SumOf(xs[..|xs| - 1], f) + f(xs[|xs| - 1])
  }

  function SquaredDeviation(c: real): nat -> real { x => Square(x as real - c) }

  /** The sum of the squared deviations from `c`. */
  function Deviations(xs: seq<nat>, c: real): real {
    SumOf(xs, SquaredDeviation(c))
  }

  /** n * x, by addition. */
  function Times(n: nat, x: real): real {
    if n == 0 then 0.0 else Times(n - 1, x) + x
  }

  ghost predicate IsMean(xs: seq<nat>, mean: real) {
    Times(|xs|, mean) == Total(xs)
  }

  ghost predicate Within(xs: seq<nat>, lo: nat, hi: nat) {
    forall i | 0 <= i < |xs| :: lo <= xs[i] <= hi
  }

  class Statistics {
    var samples: nat
    var min: nat
    var max: nat
    var mean: real
    var m2: real
    ghost var history: seq<nat>

    ghost predicate Valid()
      reads this
    {
      && samples == |history|
      && IsMean(history, mean)
      && m2 == Deviations(history, mean)
      && if samples == 0 then min == 0 && max == 0 && mean == 0.0
         else min in history && max in history && Within(history, min, max)
    }

    constructor ()
      ensures Valid() && history == []
    {
      samples, min, max, mean, m2, history := 0, 0, 0, 0.0, 0.0, [];
    }

    method Reset()
      modifies this
      ensures Valid() && history == []
    {
      samples, min, max, mean, m2, history := 0, 0, 0, 0.0, 0.0, [];
    }

    method Sample(value: nat)
      requires Valid()
      modifies this
      ensures Valid() && history == old(history) + [value]
    {
      WelfordStep(history, value, mean, m2);
      samples := samples + 1;
      if samples == 1 || value < min { min := value; }
      if value > max { max := value; }
      var delta := value as real - mean;
      mean := mean + delta / samples as real;
      m2 := m2 + delta * (value as real - mean);
      history := history + [value];
    }
  }

  // ----- the algebra of one update

  lemma Distribute(a: real, b: real, c: real, sum: real)
    requires sum == b + c
    ensures a * sum == a * b + a * c
  {}

  lemma {:induction false} TimesIs(n: nat, x: real)
    ensures Times(n, x) == n as real * x
  {
    if n > 0 { TimesIs(n - 1, x); }
  }

  lemma {:induction false} TimesSum(n: nat, x: real, y: real)
    ensures Times(n, x + y) == Times(n, x) + Times(n, y)
  {
    if n > 0 { TimesSum(n - 1, x, y); }
  }

  lemma {:induction false} TimesSquare(n: nat, e: real)
    ensures Times(n, Square(e)) == e * Times(n, e)
  {
    if n > 0 {
      TimesSquare(n - 1, e);
      Distribute(e, Times(n - 1, e), e, Times(n, e));
    }
  }

  function Residual(xs: seq<nat>, c: real): real {
    if xs == [] then 0.0 else Residual(xs[..|xs| - 1], c) + (xs[|xs| - 1] as real - c)
  }

  lemma {:induction false} ResidualIs(xs: seq<nat>, c: real)
    ensures Residual(xs, c) == Total(xs) - Times(|xs|, c)
  {
    if xs != [] { ResidualIs(xs[..|xs| - 1], c); }
  }

  function CrossTerm(c: real, e: real): nat -> real { x => e * (x as real - c) }

  lemma {:induction false} CrossIs(xs: seq<nat>, c: real, e: real)
    ensures SumOf(xs, CrossTerm(c, e)) == e * Residual(xs, c)
  {
    if xs != [] {
      var front := xs[..|xs| - 1];
      CrossIs(front, c, e);
      Distribute(e, Residual(front, c), xs[|xs| - 1] as real - c, Residual(xs, c));
    }
  }

  lemma {:induction false} SumOfThree(xs: seq<nat>, f: nat -> real, g: nat -> real, h: nat -> real, k: real)
    requires forall x: nat :: f(x) == g(x) + 2.0 * h(x) + k
    ensures SumOf(xs, f) == SumOf(xs, g) + 2.0 * SumOf(xs, h) + Times(|xs|, k)
  {
    if xs != [] { SumOfThree(xs[..|xs| - 1], f, g, h, k); }
  }

  lemma SquareShift(x: real, c: real, e: real)
    ensures Square(x - (c - e)) == Square(x - c) + 2.0 * (e * (x - c)) + Square(e)
  {}

  /** How the squared deviations change with the centre. */
  lemma Expand(xs: seq<nat>, c: real, e: real)
    ensures Deviations(xs, c - e) == Deviations(xs, c) + 2.0 * SumOf(xs, CrossTerm(c, e)) + Times(|xs|, Square(e))
  {
    var f, g, h := SquaredDeviation(c - e), SquaredDeviation(c), CrossTerm(c, e);
    forall x: nat ensures f(x) == g(x) + 2.0 * h(x) + Square(e) { SquareShift(x as real, c, e); }
    SumOfThree(xs, f, g, h, Square(e));
  }

  lemma AtMean(xs: seq<nat>, mean: real, e: real)
    requires IsMean(xs, mean)
    ensures Deviations(xs, mean - e) == Deviations(xs, mean) + Times(|xs|, Square(e))
  {
    ResidualIs(xs, mean);
    CrossIs(xs, mean, e);
    Expand(xs, mean, e);
  }

  lemma Quotient(x: real, n: nat, q: real)
    requires n > 0 && q == x / n as real
    ensures Times(n, q) == x
  {
    TimesIs(n, q);
  }

  lemma MeanStep(xs: seq<nat>, value: nat, mean: real, e: real)
    requires IsMean(xs, mean) && Times(|xs| + 1, e) == value as real - mean
    ensures IsMean(xs + [value], mean + e)
  {
    assert (xs + [value])[..|xs|] == xs;
    TimesSum(|xs| + 1, mean, e);
  }

  lemma DeviationsStep(xs: seq<nat>, value: nat, mean: real, e: real, next: real, d: real, rest: real)
    requires IsMean(xs, mean) && Times(|xs| + 1, e) == d
    requires next == mean + e && d == value as real - mean && rest == value as real - next
    ensures Deviations(xs + [value], next) == Deviations(xs, mean) + d * rest
  {
    assert (xs + [value])[..|xs|] == xs && next == mean - -e;
    AtMean(xs, mean, -e);
    Opposite(e);
    TimesSquare(|xs|, e);
    WelfordAlgebra(rest, e, d, Times(|xs|, Square(e)));
  }

  lemma Opposite(e: real)
    ensures Square(-e) == Square(e)
  {}

  lemma WelfordAlgebra(k: real, e: real, d: real, added: real)
    requires d == k + e && added == e * k
    ensures added + Square(k) == d * k
  {}

  /** One update moves the mean to the new mean and the sum of squares to the new sum of squares. */
  lemma WelfordStep(xs: seq<nat>, value: nat, mean: real, m2: real)
    requires IsMean(xs, mean) && m2 == Deviations(xs, mean)
    ensures
      var x := value as real;
      var next := mean + (x - mean) / (|xs| + 1) as real;
      IsMean(xs + [value], next) && m2 + (x - mean) * (x - next) == Deviations(xs + [value], next)
  {
    var d := value as real - mean;
    var e := d / (|xs| + 1) as real;
    Quotient(d, |xs| + 1, e);
    MeanStep(xs, value, mean, e);
    DeviationsStep(xs, value, mean, e, mean + e, d, value as real - (mean + e));
  }

  // ----- what the numbers mean

  lemma PositiveProduct(a: real, b: real)
    requires a > 0.0 && b > 0.0
    ensures a * b > 0.0
  {}

  lemma PositiveNamed(a: real, b: real, product: real)
    requires a > 0.0 && b > 0.0 && product == a * b
    ensures product > 0.0
  {
    PositiveProduct(b, a);
  }

  lemma SquareNotNegative(d: real)
    ensures Square(d) >= 0.0
    ensures Square(d) == 0.0 ==> d == 0.0
  {
    Opposite(d);
    if d > 0.0 { PositiveNamed(d, d, Square(d)); } else if d < 0.0 { PositiveNamed(-d, -d, Square(-d)); }
  }

  /** Never negative, and zero only when every sample is the centre. */
  lemma {:induction false} DeviationsNotNegative(xs: seq<nat>, c: real)
    ensures Deviations(xs, c) >= 0.0
    ensures Deviations(xs, c) == 0.0 <==> forall i | 0 <= i < |xs| :: xs[i] as real == c
  {
    if xs != [] {
      DeviationsNotNegative(xs[..|xs| - 1], c);
      SquareNotNegative(xs[|xs| - 1] as real - c);
    }
  }

  lemma {:induction false} TotalBounds(xs: seq<nat>, lo: nat, hi: nat)
    requires Within(xs, lo, hi)
    ensures Times(|xs|, lo as real) <= Total(xs) <= Times(|xs|, hi as real)
  {
    if xs != [] { TotalBounds(xs[..|xs| - 1], lo, hi); }
  }

  lemma {:induction false} TimesMonotone(n: nat, x: real, y: real)
    requires n > 0
    ensures x < y <==> Times(n, x) < Times(n, y)
  {
    if n > 1 { TimesMonotone(n - 1, x, y); }
  }

  /** The mean lies between the least and the greatest sample. */
  lemma MeanWithinBounds(xs: seq<nat>, mean: real, lo: nat, hi: nat)
    requires xs != [] && IsMean(xs, mean) && Within(xs, lo, hi)
    ensures lo as real <= mean <= hi as real
  {
    TotalBounds(xs, lo, hi);
    TimesMonotone(|xs|, mean, lo as real);
    TimesMonotone(|xs|, hi as real, mean);
  }

  /** Of all centres the mean has the least squared deviations. */
  lemma MeanIsBest(xs: seq<nat>, mean: real, c: real)
    requires xs != [] && IsMean(xs, mean)
    ensures Deviations(xs, mean) <= Deviations(xs, c)
  {
    AtMean(xs, mean, mean - c);
    SquareNotNegative(mean - c);
    TimesMonotone(|xs|, Square(mean - c), 0.0);
    TimesIs(|xs|, 0.0);
  }

  lemma {:induction false} Without(xs: seq<nat>, i: nat, c: real)
    requires i < |xs|
    ensures var rest := xs[..i] + xs[i + 1..];
      && Total(xs) == Total(rest) + xs[i] as real
      && Deviations(xs, c) == Deviations(rest, c) + Square(xs[i] as real - c)
  {
    var n, rest := |xs| - 1, xs[..i] + xs[i + 1..];
    if i < n {
      Without(xs[..n], i, c);
      assert rest[..n - 1] == xs[..n][..i] + xs[..n][i + 1..];
    } else {
      assert rest == xs[..n];
    }
  }

  lemma SameMultiset(xs: seq<nat>, ys: seq<nat>, i: nat)
    requires xs != [] && i < |ys| && ys[i] == xs[|xs| - 1] && multiset(xs) == multiset(ys)
    ensures multiset(xs[..|xs| - 1]) == multiset(ys[..i] + ys[i + 1..])
  {
    var n := |xs| - 1;
    assert xs == xs[..n] + [xs[n]];
    assert ys == ys[..i] + [ys[i]] + ys[i + 1..];
    assert multiset(xs[..n]) == multiset(xs) - multiset{xs[n]};
  }

  /** The order in which samples arrive does not matter. */
  lemma {:induction false} AnyOrder(xs: seq<nat>, ys: seq<nat>, c: real)
    requires multiset(xs) == multiset(ys)
    ensures Total(xs) == Total(ys) && Deviations(xs, c) == Deviations(ys, c)
  {
    if xs == [] {
      assert |multiset(ys)| == 0;
    } else {
      var n := |xs| - 1;
      assert xs[n] in multiset(ys);
      var i :| 0 <= i < |ys| && ys[i] == xs[n];
      Without(ys, i, c);
      SameMultiset(xs, ys, i);
      AnyOrder(xs[..n], ys[..i] + ys[i + 1..], c);
    }
  }
}
