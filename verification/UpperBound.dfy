// The one-sided 95% upper bound of scripts/check-live-run-evidence.py: rule of three and bisection.

module UpperBound {
  import opened Binomial
  import opened StartCondition

  const LEVEL: real := 0.05
  const STEPS: nat := 200

  // ---- The rule of three ----

  function RuleOfThree(n: nat): real
    requires n > 0
  {
    3.0 / n as real
  }

  // The coefficients of the power series of (1 - x)^(-n), times the powers of x.
  function Coefficient(n: nat, j: nat, x: real): real
    decreases n + j
  {
    if j == 0 then 1.0
    else if n == 0 then 0.0
    else Blend(1.0, x, Coefficient(n - 1, j, x), Coefficient(n, j - 1, x))
  }

  function Series(n: nat, last: int, x: real): real
    decreases last + 1
  {
    if last < 0 then 0.0 else Coefficient(n, last, x) + Series(n, last - 1, x)
  }

  lemma {:induction false} SeriesStep(n: nat, last: int, x: real)
    requires n > 0
    ensures Series(n, last, x) == Blend(1.0, x, Series(n - 1, last, x), Series(n, last - 1, x))
    decreases last + 1
  {
    hide *;
    if last > 0 {
      SeriesStep(n, last - 1, x);
      SeriesDefinition(n, last, x);
      SeriesDefinition(n - 1, last, x);
      SeriesDefinition(n, last - 1, x);
      CoefficientDefinition(n, last, x);
      SeriesAlgebra(x, Series(n, last, x), Series(n, last - 1, x), Series(n, last - 1 - 1, x),
                    Series(n - 1, last, x), Series(n - 1, last - 1, x),
                    Coefficient(n, last, x), Coefficient(n - 1, last, x), Coefficient(n, last - 1, x));
    } else {
      SeriesStart(n, last, x);
    }
  }

  lemma SeriesStart(n: nat, last: int, x: real)
    requires n > 0 && last <= 0
    ensures Series(n, last, x) == Blend(1.0, x, Series(n - 1, last, x), Series(n, last - 1, x))
  {
  }

  lemma SeriesAlgebra(x: real, s0: real, s1: real, s2: real, t0: real, t1: real, c0: real, d0: real, c1: real)
    requires s0 == c0 + s1 && t0 == d0 + t1 && s1 == c1 + s2
    requires c0 == Blend(1.0, x, d0, c1) && s1 == Blend(1.0, x, t1, s2)
    ensures s0 == Blend(1.0, x, t0, s1)
  {
  }

  lemma SeriesDefinition(n: nat, last: int, x: real)
    requires last >= 0
    ensures Series(n, last, x) == Coefficient(n, last, x) + Series(n, last - 1, x)
  {
  }

  lemma CoefficientDefinition(n: nat, j: nat, x: real)
    requires n > 0 && j > 0
    ensures Coefficient(n, j, x) == Blend(1.0, x, Coefficient(n - 1, j, x), Coefficient(n, j - 1, x))
  {
  }

  lemma PowerDefinition(x: real, n: nat)
    requires n > 0
    ensures Power(x, n) == x * Power(x, n - 1)
  {
  }

  // The probability of at most `last` events before the n-th trial without one, at rate x.
  function AtMost(n: nat, last: int, x: real): real
    decreases n + last + 1
  {
    if last < 0 then 0.0
    else if n == 0 then 1.0
    else Mix(x, AtMost(n - 1, last, x), AtMost(n, last - 1, x))
  }

  lemma {:induction false} AtMostIsProbability(n: nat, last: int, x: real)
    requires 0.0 <= x <= 1.0
    ensures AtMost(n, last, x) <= 1.0
    decreases n + last + 1
  {
    if last >= 0 && n > 0 {
      AtMostIsProbability(n - 1, last, x);
      AtMostIsProbability(n, last - 1, x);
      BlendMonotone(1.0 - x, x, 1.0, 1.0, AtMost(n - 1, last, x), AtMost(n, last - 1, x));
    }
  }

  // That probability is the partial sum of the series over its limit.
  lemma {:induction false} AtMostBySeries(n: nat, last: int, x: real)
    ensures AtMost(n, last, x) == Power(1.0 - x, n) * Series(n, last, x)
    decreases n + last + 1
  {
    hide *;
    if last < 0 || n == 0 {
      AtMostStart(n, last, x);
    } else {
      AtMostBySeries(n - 1, last, x);
      AtMostBySeries(n, last - 1, x);
      AtMostStep(n, last, x);
    }
  }

  lemma {:induction false} AtMostStart(n: nat, last: int, x: real)
    requires last < 0 || n == 0
    ensures AtMost(n, last, x) == Power(1.0 - x, n) * Series(n, last, x)
  {
    if last >= 0 { SeriesOfNone(last, x); }
  }

  lemma AtMostStep(n: nat, last: int, x: real)
    requires n > 0 && last >= 0
    requires AtMost(n - 1, last, x) == Power(1.0 - x, n - 1) * Series(n - 1, last, x)
    requires AtMost(n, last - 1, x) == Power(1.0 - x, n) * Series(n, last - 1, x)
    ensures AtMost(n, last, x) == Power(1.0 - x, n) * Series(n, last, x)
  {
    hide *;
    AtMostDefinition(n, last, x);
    PowerDefinition(1.0 - x, n);
    SeriesStep(n, last, x);
    MixProducts(x, Power(1.0 - x, n - 1), Power(1.0 - x, n), Series(n - 1, last, x), Series(n, last - 1, x),
                AtMost(n - 1, last, x), AtMost(n, last - 1, x), Series(n, last, x));
  }

  lemma AtMostDefinition(n: nat, last: int, x: real)
    requires n > 0 && last >= 0
    ensures AtMost(n, last, x) == Mix(x, AtMost(n - 1, last, x), AtMost(n, last - 1, x))
  {
  }

  lemma MixProducts(x: real, y: real, y': real, t: real, u: real, below: real, left: real, s: real)
    requires y' == (1.0 - x) * y && s == Blend(1.0, x, t, u)
    requires below == y * t && left == y' * u
    ensures Mix(x, below, left) == y' * s
  {}

  lemma {:induction false} SeriesOfNone(last: nat, x: real)
    ensures Series(0, last, x) == 1.0
  {
    if last > 0 { SeriesOfNone(last - 1, x); }
  }

  // The exponential series at 3.
  function ExpTerm(j: nat): real {
    if j == 0 then 1.0 else ExpTerm(j - 1) * 3.0 / j as real
  }

  function ExpSeries(last: nat): real {
    ExpTerm(last) + if last == 0 then 0.0 else ExpSeries(last - 1)
  }

  // The number of multisets of j elements drawn from n kinds.
  function Multichoose(n: nat, j: nat): nat
    decreases n + j
  {
    if j == 0 then 1
    else if n == 0 then 0
    else Multichoose(n - 1, j) + Multichoose(n, j - 1)
  }

  lemma {:induction false} MultichooseRatio(n: nat, j: nat)
    ensures (j + 1) * Multichoose(n, j + 1) == (n + j) * Multichoose(n, j)
    decreases n + j
  {
    if n == 0 {
      if j > 0 { MultichooseRatio(0, j - 1); }
    } else {
      MultichooseRatio(n - 1, j);
      if j > 0 { MultichooseRatio(n, j - 1); }
      MultichooseAlgebra(n, j, Multichoose(n, j + 1), Multichoose(n - 1, j + 1), Multichoose(n, j),
                         Multichoose(n - 1, j), if j == 0 then 0 else Multichoose(n, j - 1));
    }
  }

  lemma MultichooseAlgebra(n: int, j: int, d: int, e: int, b: int, a: int, c: int)
    requires d == e + b && b == a + c
    requires (j + 1) * e == (n - 1 + j) * a && j * b == (n + j - 1) * c
    ensures (j + 1) * d == (n + j) * b
  {}

  lemma {:induction false} CoefficientIsMultichoose(n: nat, j: nat, x: real)
    ensures Coefficient(n, j, x) == Multichoose(n, j) as real * Power(x, j)
    decreases n + j
  {
    hide *;
    if j > 0 && n > 0 {
      CoefficientIsMultichoose(n - 1, j, x);
      CoefficientIsMultichoose(n, j - 1, x);
      MultichooseStep(n, j, x);
    } else {
      MultichooseStart(n, j, x);
    }
  }

  lemma MultichooseStart(n: nat, j: nat, x: real)
    requires j == 0 || n == 0
    ensures Coefficient(n, j, x) == Multichoose(n, j) as real * Power(x, j)
  {
  }

  lemma MultichooseStep(n: nat, j: nat, x: real)
    requires n > 0 && j > 0
    requires Coefficient(n - 1, j, x) == Multichoose(n - 1, j) as real * Power(x, j)
    requires Coefficient(n, j - 1, x) == Multichoose(n, j - 1) as real * Power(x, j - 1)
    ensures Coefficient(n, j, x) == Multichoose(n, j) as real * Power(x, j)
  {
    hide *;
    CoefficientDefinition(n, j, x);
    PowerDefinition(x, j);
    MultichooseDefinition(n, j);
    CoefficientAlgebra(Multichoose(n, j) as real, Multichoose(n - 1, j) as real, Multichoose(n, j - 1) as real, x,
                       Power(x, j - 1), Power(x, j), Coefficient(n - 1, j, x), Coefficient(n, j - 1, x));
  }

  lemma MultichooseDefinition(n: nat, j: nat)
    requires n > 0 && j > 0
    ensures Multichoose(n, j) == Multichoose(n - 1, j) + Multichoose(n, j - 1)
  {
  }

  lemma CoefficientAlgebra(m: real, a: real, b: real, x: real, y: real, y': real, c: real, d: real)
    requires m == a + b && y' == x * y && c == a * y' && d == b * y
    ensures Blend(1.0, x, c, d) == m * y'
  {
  }

  // At x = 3/n each coefficient dominates the matching exponential term.
  lemma {:induction false} CoefficientDominates(n: nat, j: nat)
    requires n > 0
    ensures Coefficient(n, j, RuleOfThree(n)) >= ExpTerm(j)
  {
    if j > 0 {
      CoefficientDominates(n, j - 1);
      CoefficientRatio(n, j);
      Divide(j as real, ExpTerm(j - 1), Coefficient(n, j, RuleOfThree(n)));
    }
  }

  lemma CoefficientRatio(n: nat, j: nat)
    requires n > 0 && j > 0
    ensures j as real * Coefficient(n, j, RuleOfThree(n)) >= 3.0 * Coefficient(n, j - 1, RuleOfThree(n))
  {
    hide *;
    var x := RuleOfThree(n);
    var a, b := Multichoose(n, j), Multichoose(n, j - 1);
    RuleOfThreeDefinition(n);
    PowerDefinition(x, j);
    MultichooseRatio(n, j - 1);
    CoefficientIsMultichoose(n, j, x);
    CoefficientIsMultichoose(n, j - 1, x);
    AsReals(j, a, n + j - 1, b);
    PowerNonNegative(x, j - 1);
    RatioAlgebra(j as real, a as real, n as real, b as real, x, Power(x, j - 1), Power(x, j));
  }

  lemma RuleOfThreeDefinition(n: nat)
    requires n > 0
    ensures n as real * RuleOfThree(n) == 3.0 && RuleOfThree(n) > 0.0
  {
  }

  lemma AsReals(i: int, a: int, j: int, b: int)
    requires i * a == j * b
    ensures i as real * a as real == j as real * b as real
  {}

  lemma RatioAlgebra(j: real, a: real, n: real, b: real, x: real, y: real, y': real)
    requires j >= 1.0 && j * a == (n + j - 1.0) * b && n * x == 3.0 && x >= 0.0 && b >= 0.0 && y >= 0.0 && y' == x * y
    ensures j * (a * y') >= 3.0 * (b * y)
  {
    Product(b, y);
    Product(x, b * y);
    Product(j - 1.0, x * (b * y));
    assert j * (a * y') == (j * a) * (x * y);
    assert ((n + j - 1.0) * b) * (x * y) == (n * x) * (b * y) + (j - 1.0) * (x * (b * y));
  }

  lemma Divide(j: real, e: real, c: real)
    requires j >= 1.0 && j * c >= 3.0 * e
    ensures c >= e * 3.0 / j
  {}

  lemma {:induction false} SeriesDominates(n: nat, last: nat)
    requires n > 0
    ensures Series(n, last, RuleOfThree(n)) >= ExpSeries(last)
  {
    CoefficientDominates(n, last);
    if last > 0 { SeriesDominates(n, last - 1); }
  }

  lemma ExpSeriesExceedsTwenty()
    ensures ExpSeries(8) > 20.0
  {}

  lemma CdfOfNone(n: nat, p: real)
    ensures Cdf(0, n, p) == Power(1.0 - p, n)
  {}

  // Seeing no event in n trials is rarer than 1/20 at the rate 3/n.
  lemma RuleOfThreeCovers(n: nat)
    requires n >= 3
    ensures Cdf(0, n, RuleOfThree(n)) < LEVEL
  {
    var x := RuleOfThree(n);
    CdfOfNone(n, x);
    AtMostIsProbability(n, 8, x);
    AtMostBySeries(n, 8, x);
    SeriesDominates(n, 8);
    ExpSeriesExceedsTwenty();
    PowerNonNegative(1.0 - x, n);
    SmallFactor(Power(1.0 - x, n), Series(n, 8, x));
  }

  lemma SmallFactor(y: real, s: real)
    requires y >= 0.0 && s > 20.0 && y * s <= 1.0
    ensures y < 0.05
  {}

  // ---- The bisection ----

  // How far the returned bound may lie from the rate where the distribution function crosses LEVEL.
  function Slack(k: nat, n: nat): real
    requires 0 < n
  {
    if k == 0 then 0.0 else (1.0 - k as real / n as real) * Power(0.5, STEPS + 1)
  }

  // The rates of two distances are on the two sides of the level.
  ghost predicate Brackets(k: nat, n: nat, lo: real, hi: real) {
    Cdf(k, n, hi) < LEVEL <= Cdf(k, n, lo)
  }

  lemma BracketsExclude(k: nat, n: nat, lo: real, hi: real)
    requires 0.0 <= lo <= hi <= 1.0 && Brackets(k, n, lo, hi)
    ensures forall p: real :: hi <= p <= 1.0 ==> Cdf(k, n, p) < LEVEL
    ensures forall p: real :: 0.0 <= p <= lo ==> Cdf(k, n, p) >= LEVEL
  {
    forall p: real | hi <= p <= 1.0 ensures Cdf(k, n, p) < LEVEL {
      CdfNonIncreasing(k, n, hi, p);
    }
    forall p: real | 0.0 <= p <= lo ensures Cdf(k, n, p) >= LEVEL {
      CdfNonIncreasing(k, n, p, lo);
    }
  }

  lemma RuleOfThreeExcludes(n: nat)
    requires n > 0
    ensures forall p: real :: RuleOfThree(n) <= p <= 1.0 ==> Cdf(0, n, p) < LEVEL
  {
    forall p: real | RuleOfThree(n) <= p <= 1.0 ensures Cdf(0, n, p) < LEVEL {
      RuleOfThreeCovers(n);
      CdfNonIncreasing(0, n, RuleOfThree(n), p);
    }
  }

  // For one or two trials the rule of three is no rate.
  lemma RuleOfThreeIsRateIff(n: nat)
    requires n > 0
    ensures RuleOfThree(n) <= 1.0 <==> n >= 3
  {
    RuleOfThreeDefinition(n);
  }

  method ExactUpperBound(k: nat, n: nat) returns (r: real)
    ensures k >= n ==> r == 1.0
    // Every rate from the bound on is excluded at the level, up to the slack of the bisection.
    ensures k < n ==> forall p: real :: r + Slack(k, n) <= p <= 1.0 ==> Cdf(k, n, p) < LEVEL
    // No rate below the bound is excluded, up to the same slack; and the bound is a rate above the observed one.
    ensures 0 < k < n ==> forall p: real :: 0.0 <= p <= r - Slack(k, n) ==> Cdf(k, n, p) >= LEVEL
    ensures 0 < k < n ==> k as real / n as real <= r <= 1.0
    // With no event the bound is the rule of three, a rate from three trials on.
    ensures k == 0 < n ==> r == RuleOfThree(n) && (r <= 1.0 <==> n >= 3)
  {
    if k >= n { return 1.0; }
    if k == 0 {
      RuleOfThreeExcludes(n);
      RuleOfThreeIsRateIff(n);
      return RuleOfThree(n);
    }
    CdfAtObservedRate(k, n);
    CdfAtOne(k, n);
    assert 0.0 <= k as real / n as real <= 1.0;
    var lo, hi := Bisect(k, n, k as real / n as real);
    r := (lo + hi) / 2.0;
    Halve(1.0 - k as real / n as real, STEPS);
    BracketsExclude(k, n, lo, hi);
  }

  // The loop of the bisection, started at the given rate.
  method Bisect(k: nat, n: nat, start: real) returns (lo: real, hi: real)
    requires 0.0 <= start <= 1.0 && Brackets(k, n, start, 1.0)
    ensures start <= lo <= hi <= 1.0 && Brackets(k, n, lo, hi)
    ensures hi - lo == (1.0 - start) * Power(0.5, STEPS)
  {
    lo, hi := start, 1.0;
    for i := 0 to STEPS
      invariant start <= lo <= hi <= 1.0
      invariant Brackets(k, n, lo, hi)
      invariant hi - lo == (1.0 - start) * Power(0.5, i)
    {
      var mid := (lo + hi) / 2.0;
      Halve(1.0 - start, i);
      if Cdf(k, n, mid) < 0.05 {
        hi := mid;
      } else {
        lo := mid;
      }
    }
  }

  lemma Halve(d: real, i: nat)
    ensures d * Power(0.5, i + 1) == d * Power(0.5, i) / 2.0
  {}
}
