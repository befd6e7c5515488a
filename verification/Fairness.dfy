/** Jain's fairness index as PrintFairness in examples/tcp/dctcp-example.cc computes it from byte counters. */
module Fairness {

  const WORD: int := 0x1_0000_0000_0000_0000   // uint64_t arithmetic wraps at 2^64
  const HALF: int := 0x1_0000_0000

  function Sum(xs: seq<nat>): nat {
    if xs == [] then 0 else Sum(xs[..|xs| - 1]) + xs[|xs| - 1]
  }

  function SumSquares(xs: seq<nat>): nat {
    if xs == [] then 0 else SumSquares(xs[..|xs| - 1]) + xs[|xs| - 1] * xs[|xs| - 1]
  }

  /** The squared distances to y, added up. */
  function Deviation(xs: seq<nat>, y: nat): nat {
    if xs == [] then 0 else Deviation(xs[..|xs| - 1], y) + Square(xs[|xs| - 1] - y)
  }

  function Square(d: int): nat {
    assert d * d >= 0 by { if d < 0 { assert d * d == (-d) * (-d); } }
    d * d
  }

  predicate AllEqual(xs: seq<nat>) {
    forall i, j :: 0 <= i < j < |xs| ==> xs[i] == xs[j]
  }

  /** How far n * sumSquares is above sum * sum. */
  function Gap(xs: seq<nat>): int {
    |xs| * SumSquares(xs) - Sum(xs) * Sum(xs)
  }

  lemma DeviationStep(q: int, s: int, n: int, x: int, y: int)
    ensures (q - 2 * y * s + n * (y * y)) + (x - y) * (x - y) == (q + x * x) - 2 * y * (s + x) + (n + 1) * (y * y)
  {
  }

  lemma {:induction false} DeviationExpanded(xs: seq<nat>, y: nat)
    ensures Deviation(xs, y) == SumSquares(xs) - 2 * y * Sum(xs) + |xs| * (y * y)
  {
    if xs != [] {
      var n := |xs| - 1;
      DeviationExpanded(xs[..n], y);
      DeviationStep(SumSquares(xs[..n]), Sum(xs[..n]), n, xs[n], y);
    }
  }

  lemma {:induction false} DeviationZero(xs: seq<nat>, y: nat)
    ensures Deviation(xs, y) == 0 <==> forall i :: 0 <= i < |xs| ==> xs[i] == y
  {
    if xs != [] {
      var n := |xs| - 1;
      DeviationZero(xs[..n], y);
      assert forall i :: 0 <= i < n ==> xs[..n][i] == xs[i];
    }
  }

  lemma GapStep(n: int, q: int, s: int, y: int)
    ensures (n + 1) * (q + y * y) - (s + y) * (s + y) == (n * q - s * s) + (q - 2 * y * s + n * (y * y))
  {
  }

  lemma {:induction false} GapExpanded(xs: seq<nat>)
    requires xs != []
    ensures var n := |xs| - 1; Gap(xs) == Gap(xs[..n]) + Deviation(xs[..n], xs[n])
  {
    var n := |xs| - 1;
    DeviationExpanded(xs[..n], xs[n]);
    GapStep(n, SumSquares(xs[..n]), Sum(xs[..n]), xs[n]);
  }

  /** sum * sum <= n * sumSquares, with equality exactly when all counters are equal. */
  lemma {:induction false} CauchySchwarz(xs: seq<nat>)
    ensures Gap(xs) >= 0
    ensures Gap(xs) == 0 <==> AllEqual(xs)
  {
    if xs != [] {
      var n := |xs| - 1;
      GapExpanded(xs);
      CauchySchwarz(xs[..n]);
      DeviationZero(xs[..n], xs[n]);
      assert AllEqual(xs) <==> AllEqual(xs[..n]) && forall i :: 0 <= i < n ==> xs[i] == xs[n];
    }
  }

  lemma SquareOfSum(s: nat, y: nat)
    ensures (s + y) * (s + y) >= s * s + y * y
  {
  }

  lemma {:induction false} SquaresBelow(xs: seq<nat>)
    ensures SumSquares(xs) <= Sum(xs) * Sum(xs)
    ensures SumSquares(xs) == 0 <==> forall i :: 0 <= i < |xs| ==> xs[i] == 0
  {
    if xs != [] {
      var n := |xs| - 1;
      SquaresBelow(xs[..n]);
      SquareOfSum(Sum(xs[..n]), xs[n]);
      assert forall i :: 0 <= i < n ==> xs[..n][i] == xs[i];
    }
  }

  /** The index, over the reals; undefined (0/0) when every counter is zero. */
  function Index(xs: seq<nat>): real
    requires SumSquares(xs) > 0
    requires xs != []
  {
    (Sum(xs) * Sum(xs)) as real / (|xs| * SumSquares(xs)) as real
  }

  lemma Ratio(a: int, b: int, n: int)
    requires n > 0 && b > 0 && b <= a <= n * b
    ensures n * b > 0 && 1.0 / n as real <= a as real / (n * b) as real <= 1.0
    ensures a as real / (n * b) as real == 1.0 <==> a == n * b
  {
    var d := (n * b) as real;
    assert d == n as real * b as real;
    assert (1.0 / n as real) * d == b as real;
  }

  /** The index lies between 1/n and 1, and is 1 exactly when all counters are equal. */
  lemma IndexRange(xs: seq<nat>)
    requires xs != [] && SumSquares(xs) > 0
    ensures 1.0 / |xs| as real <= Index(xs) <= 1.0
    ensures Index(xs) == 1.0 <==> AllEqual(xs)
  {
    CauchySchwarz(xs);
    SquaresBelow(xs);
    Ratio(Sum(xs) * Sum(xs), SumSquares(xs), |xs|);
  }

  // ---- rounding ----

  /** Any rounding that keeps order and leaves 1 alone, as the conversion to double and its division do. */
  ghost predicate Rounding(fl: real -> real) {
    (forall x, y :: x <= y ==> fl(x) <= fl(y)) && fl(1.0) == 1.0
  }

  /** The index as computed: both terms are converted, and the quotient is rounded. */
  function RoundedIndex(xs: seq<nat>, fl: real -> real): real
    requires fl((|xs| * SumSquares(xs)) as real) > 0.0
  {
    fl(fl((Sum(xs) * Sum(xs)) as real) / fl((|xs| * SumSquares(xs)) as real))
  }

  /** Rounding takes the index neither above 1 nor, for equal counters, away from 1; and where both terms are converted
      exactly, not below 1/n as rounded. */
  lemma RoundedIndexRange(xs: seq<nat>, fl: real -> real)
    requires xs != [] && SumSquares(xs) > 0 && Rounding(fl)
    ensures fl((|xs| * SumSquares(xs)) as real) > 0.0 && RoundedIndex(xs, fl) <= 1.0
    ensures AllEqual(xs) ==> RoundedIndex(xs, fl) == 1.0
    ensures
      var a, d := (Sum(xs) * Sum(xs)) as real, (|xs| * SumSquares(xs)) as real;
      fl(a) == a && fl(d) == d ==> fl(1.0 / |xs| as real) <= RoundedIndex(xs, fl)
  {
    CauchySchwarz(xs);
    SquaresBelow(xs);
    IndexRange(xs);
    Ratio(Sum(xs) * Sum(xs), SumSquares(xs), |xs|);
    RoundedRatio(fl, (Sum(xs) * Sum(xs)) as real, (|xs| * SumSquares(xs)) as real, 1.0 / |xs| as real);
  }

  lemma RoundedRatio(fl: real -> real, a: real, d: real, least: real)
    requires Rounding(fl) && d >= 1.0 && a <= d && least <= a / d
    ensures fl(d) > 0.0 && fl(fl(a) / fl(d)) <= 1.0
    ensures a == d ==> fl(fl(a) / fl(d)) == 1.0
    ensures fl(a) == a && fl(d) == d ==> fl(least) <= fl(fl(a) / fl(d))
  {
    assert fl(1.0) <= fl(d) && fl(a) <= fl(d);
    AtMostOne(fl(a), fl(d));
    assert fl(fl(a) / fl(d)) <= fl(1.0);
  }

  lemma AtMostOne(a: real, d: real)
    requires d > 0.0 && a <= d
    ensures a / d <= 1.0
  {
    assert (a / d) * d == a;
  }

  // ---- 64-bit arithmetic ----

  lemma SquareMono(a: nat, b: nat)
    requires a <= b
    ensures a * a <= b * b
  {
    assert b * b - a * a == (b - a) * (b + a);
  }

  lemma {:induction false} SumBound(xs: seq<nat>, m: nat, n: nat)
    requires forall i :: 0 <= i < |xs| ==> n * xs[i] <= m
    ensures n * Sum(xs) <= |xs| * m
  {
    if xs != [] {
      var k := |xs| - 1;
      SumBound(xs[..k], m, n);
      assert n * (Sum(xs[..k]) + xs[k]) == n * Sum(xs[..k]) + n * xs[k];
      assert (k + 1) * m == k * m + m;
    }
  }

  /** With every counter below 2^32 / n, none of the products overflows 64 bits. */
  lemma {:induction false} NoOverflow(xs: seq<nat>)
    requires xs != [] && forall i :: 0 <= i < |xs| ==> |xs| * xs[i] < 0x1_0000_0000
    ensures Sum(xs) < 0x1_0000_0000 && SumSquares(xs) < 0x1_0000_0000_0000_0000 && Sum(xs) * Sum(xs) < 0x1_0000_0000_0000_0000 && |xs| * SumSquares(xs) < 0x1_0000_0000_0000_0000
  {
    var n := |xs|;
    SumBound(xs, HALF - 1, n);
    SquareMono(Sum(xs), HALF - 1);
    SquaresBelow(xs);
    ScaledSquares(xs, n);
  }

  lemma ScaleOne(n: nat, x: nat)
    requires n > 0 && n * x < HALF
    ensures n * (n * (x * x)) <= (HALF - 1) * (HALF - 1)
  {
    SquareMono(n * x, HALF - 1);
    assert n * (n * (x * x)) == (n * x) * (n * x);
  }

  lemma ScaledSquares(xs: seq<nat>, n: nat)
    requires n == |xs| > 0 && forall i :: 0 <= i < |xs| ==> n * xs[i] < HALF
    ensures n * SumSquares(xs) < WORD
  {
    ScaledSum(xs, n);
  }

  lemma {:induction false} ScaledSum(xs: seq<nat>, n: nat)
    requires n > 0 && forall i :: 0 <= i < |xs| ==> n * xs[i] < HALF
    ensures n * (n * SumSquares(xs)) <= |xs| * ((HALF - 1) * (HALF - 1))
  {
    if xs != [] {
      var k := |xs| - 1;
      ScaledSum(xs[..k], n);
      ScaleOne(n, xs[k]);
    }
  }

  /** The loop of PrintFairness, in wrapping 64-bit arithmetic. */
  method WrappedSums(counters: seq<nat>) returns (sum: nat, sumSquares: nat)
    ensures sum == Sum(counters) % 0x1_0000_0000_0000_0000 && sumSquares == SumSquares(counters) % 0x1_0000_0000_0000_0000
  {
    sum, sumSquares := 0, 0;
    for i := 0 to |counters|
      invariant sum == Sum(counters[..i]) % WORD && sumSquares == SumSquares(counters[..i]) % WORD
    {
      assert counters[..i + 1][..i] == counters[..i];
      var square := counters[i] * counters[i];
      WrapAdd(Sum(counters[..i]), counters[i]);
      WrapAdd(SumSquares(counters[..i]), square);
      sum := (sum + counters[i]) % WORD;
      sumSquares := (sumSquares + square % WORD) % WORD;
    }
    assert counters[..|counters|] == counters;
  }

  /** The numerator and denominator of the printed index: exact when every counter is below 2^32 / n. */
  method FairnessTerms(counters: seq<nat>) returns (numerator: nat, denominator: nat)
    requires counters != []
    ensures numerator == Sum(counters) * Sum(counters) % 0x1_0000_0000_0000_0000
    ensures denominator == |counters| * SumSquares(counters) % 0x1_0000_0000_0000_0000
    ensures (forall i :: 0 <= i < |counters| ==> |counters| * counters[i] < 0x1_0000_0000) ==>
      numerator == Sum(counters) * Sum(counters) && denominator == |counters| * SumSquares(counters)
  {
    hide Sum, SumSquares;
    var sum, sumSquares := WrappedSums(counters);
    WrapMul(Sum(counters), Sum(counters));
    WrapMulRight(|counters|, SumSquares(counters));
    numerator := sum * sum % WORD;
    denominator := |counters| * sumSquares % WORD;
    ExactProducts(counters);
  }

  lemma ExactProducts(xs: seq<nat>)
    ensures xs != [] && (forall i :: 0 <= i < |xs| ==> |xs| * xs[i] < HALF) ==>
      Sum(xs) * Sum(xs) % WORD == Sum(xs) * Sum(xs) && |xs| * SumSquares(xs) % WORD == |xs| * SumSquares(xs)
  {
    hide Sum, SumSquares;
    if xs != [] && forall i :: 0 <= i < |xs| ==> |xs| * xs[i] < HALF {
      NoOverflow(xs);
      Small(Sum(xs) * Sum(xs));
      Small(|xs| * SumSquares(xs));
    }
  }

  lemma Small(a: nat)
    requires a < WORD
    ensures a % WORD == a
  {
  }

  lemma WrapAdd(a: nat, b: nat)
    ensures (a % WORD + b) % WORD == (a + b) % WORD
    ensures (a % WORD + b % WORD) % WORD == (a + b) % WORD
  {
  }

  lemma WrapMulRight(a: nat, b: nat)
    ensures a * (b % WORD) % WORD == a * b % WORD
  {
    var q := b / WORD;
    assert b == q * WORD + b % WORD;
    assert a * b == a * (b % WORD) + (a * q) * WORD;
  }

  lemma WrapMul(a: nat, b: nat)
    ensures (a % WORD) * (b % WORD) % WORD == a * b % WORD
  {
    WrapMulRight(a % WORD, b);
    WrapMulRight(b, a);
    assert (a % WORD) * b == b * (a % WORD) && a * b == b * a;
  }
}
