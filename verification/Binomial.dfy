// The binomial distribution function of scripts/check-live-run-evidence.py, over the reals.

module Binomial {

  function Power(x: real, n: nat): real {
    if n == 0 then 1.0 else x * Power(x, n - 1)
  }

  lemma Scale(c: real, x: real, y: real)
    requires c >= 0.0 && x <= y
    ensures c * x <= c * y
  {
  }

  // The value of x with weight 1 - p and y with weight p: one more trial mixes two distribution functions so.
  function Mix(p: real, x: real, y: real): real {
    Blend(1.0 - p, p, x, y)
  }

  function Blend(q: real, p: real, x: real, y: real): real {
    q * x + p * y
  }

  lemma MixSum(p: real, x: real, y: real, x': real, y': real)
    ensures Mix(p, x + y, x' + y') == Mix(p, x, x') + Mix(p, y, y')
  {
  }

  lemma BlendMonotone(q: real, p: real, x: real, y: real, x': real, y': real)
    requires q >= 0.0 && p >= 0.0
    requires x' <= x && y' <= y
    ensures Blend(q, p, x', y') <= Blend(q, p, x, y)
  {}

  lemma MixShift(p: real, q: real, x: real, y: real)
    ensures Mix(q, x, y) == Mix(p, x, y) - (q - p) * (x - y)
  {
  }

  lemma MixNonIncreasing(p: real, q: real, x: real, y: real, x': real, y': real)
    requires 0.0 <= p <= q <= 1.0
    requires y <= x && x' <= x && y' <= y
    ensures Mix(q, x', y') <= Mix(p, x, y)
  {
    BlendMonotone(1.0 - q, q, x, y, x', y');
    MixShift(p, q, x, y);
    Product(q - p, x - y);
  }

  lemma Product(x: real, y: real)
    requires x >= 0.0 && y >= 0.0
    ensures x * y >= 0.0
  {
  }

  // The number of i-element subsets of n elements.
  function Choose(n: nat, i: nat): nat {
    if i == 0 then 1
    else if n == 0 then 0
    else Choose(n - 1, i - 1) + Choose(n - 1, i)
  }

  function Term(i: nat, n: nat, p: real): real {
    if i > n then 0.0 else Choose(n, i) as real * Power(p, i) * Power(1.0 - p, n - i)
  }

  // The probability of at most k events in n trials of rate p.
  function Cdf(k: int, n: nat, p: real): real
    decreases k + 1
  {
    if k < 0 then 0.0 else Cdf(k - 1, n, p) + Term(k, n, p)
  }

  function Factorial(n: nat): nat {
    if n == 0 then 1 else n * Factorial(n - 1)
  }

  lemma {:induction false} ChooseNone(n: nat, i: nat)
    requires i > n
    ensures Choose(n, i) == 0
  {
    if n > 0 {
      ChooseNone(n - 1, i - 1);
      ChooseNone(n - 1, i);
    }
  }

  // Pascal's rule defines the same coefficient as n! / (i! (n-i)!).
  lemma {:induction false} ChooseIsFactorialQuotient(n: nat, i: nat)
    requires i <= n
    ensures Choose(n, i) * (Factorial(i) * Factorial(n - i)) == Factorial(n)
  {
    if i == 0 {
    } else if i == n {
      ChooseIsFactorialQuotient(n - 1, i - 1);
      ChooseNone(n - 1, i);
      var c, f := Choose(n - 1, n - 1), Factorial(n - 1);
      assert c * f == f by { assert Factorial(0) == 1; }
      assert c * (n * f) == n * (c * f);
    } else {
      ChooseIsFactorialQuotient(n - 1, i - 1);
      ChooseIsFactorialQuotient(n - 1, i);
      assert Factorial(i) == i * Factorial(i - 1);
      assert Factorial(n - i) == (n - i) * Factorial(n - 1 - i);
      PascalSplit(Choose(n - 1, i - 1), Choose(n - 1, i), i, n - i,
                  Factorial(i - 1), Factorial(n - 1 - i), Factorial(n - 1));
    }
  }

  lemma PascalSplit(a: int, b: int, i: int, j: int, f: int, g: int, t: int)
    requires a * (f * (j * g)) == t
    requires b * ((i * f) * g) == t
    ensures (a + b) * ((i * f) * (j * g)) == (i + j) * t
  {}

  lemma {:induction false} PowerNonNegative(x: real, n: nat)
    requires x >= 0.0
    ensures Power(x, n) >= 0.0
  {
    if n > 0 { PowerNonNegative(x, n - 1); }
  }

  lemma TermNonNegative(i: nat, n: nat, p: real)
    requires 0.0 <= p <= 1.0
    ensures Term(i, n, p) >= 0.0
  {
    if i <= n {
      PowerNonNegative(p, i);
      PowerNonNegative(1.0 - p, n - i);
    }
  }

  lemma TermStep(i: nat, n: nat, p: real)
    ensures Term(i, n + 1, p) == Mix(p, Term(i, n, p), if i == 0 then 0.0 else Term(i - 1, n, p))
  {
    var q := 1.0 - p;
    if i == 0 {
      assert Choose(n, 0) == Choose(n + 1, 0) == 1 && Power(p, 0) == 1.0;
      assert Power(q, n + 1) == q * Power(q, n);
    } else if i == n + 1 {
      ChooseNone(n, i);
      TermTop(Choose(n, n) as real, 1.0 - p, p, Power(p, n));
    } else if i <= n {
      TermInside(i, n, p);
    }
  }

  lemma TermInside(i: nat, n: nat, p: real)
    requires 1 <= i <= n
    ensures Term(i, n + 1, p) == Mix(p, Term(i, n, p), Term(i - 1, n, p))
  {
    var q, c, d := 1.0 - p, Choose(n, i) as real, Choose(n, i - 1) as real;
    var a, b := Power(p, i - 1), Power(q, n - i);
    var x, y := p * a, q * b;
    hide Term, Mix, Blend;
    TermFactors(i, n + 1, p, d + c, x, y);
    TermFactors(i, n, p, c, x, b);
    TermFactors(i - 1, n, p, d, a, y);
    TermSplit(c, d, q, p, a, b, x, y, Term(i, n + 1, p), Term(i, n, p), Term(i - 1, n, p));
  }

  lemma TermFactors(i: nat, n: nat, p: real, c: real, x: real, y: real)
    requires i <= n && c == Choose(n, i) as real && x == Power(p, i) && y == Power(1.0 - p, n - i)
    ensures Term(i, n, p) == c * x * y
  {}

  lemma TermTop(d: real, q: real, p: real, a: real)
    ensures d * (p * a) * 1.0 == Blend(q, p, 0.0, d * a * 1.0)
  {
  }

  lemma TermSplit(c: real, d: real, q: real, p: real, a: real, b: real, x: real, y: real, whole: real, left: real,
                  right: real)
    requires q == 1.0 - p && x == p * a && y == q * b
    requires whole == (d + c) * x * y && left == c * x * b && right == d * a * y
    ensures whole == Mix(p, left, right)
  {
    assert q * left == c * x * y;
    assert p * right == d * x * y;
  }

  // Conditioning on one trial: the recurrence every fact below rests on.
  lemma {:induction false} CdfStep(k: int, n: nat, p: real)
    ensures Cdf(k, n + 1, p) == Mix(p, Cdf(k, n, p), Cdf(k - 1, n, p))
    decreases k + 1
  {
    if k >= 0 {
      CdfStep(k - 1, n, p);
      TermStep(k, n, p);
      var u := if k == 0 then 0.0 else Term(k - 1, n, p);
      assert Cdf(k - 1, n, p) == Cdf(k - 2, n, p) + u;
      MixSum(p, Cdf(k - 1, n, p), Term(k, n, p), Cdf(k - 2, n, p), u);
    }
  }

  lemma {:induction false} CdfNoTrials(k: int, p: real)
    ensures Cdf(k, 0, p) == if k < 0 then 0.0 else 1.0
    decreases k + 1
  {
    if k > 0 {
      CdfNoTrials(k - 1, p);
    } else if k == 0 {
      assert Cdf(0, 0, p) == Cdf(-1, 0, p) + Term(0, 0, p);
    }
  }

  // With at least as many allowed events as trials nothing is excluded.
  lemma {:induction false} CdfTotal(k: int, n: nat, p: real)
    requires k >= n
    ensures Cdf(k, n, p) == 1.0
  {
    CdfNoTrials(k, p);
    if n > 0 {
      CdfStep(k, n - 1, p);
      CdfTotal(k, n - 1, p);
      CdfTotal(k - 1, n - 1, p);
    }
  }

  lemma CdfGrowsWithCount(k: int, n: nat, p: real)
    requires 0.0 <= p <= 1.0
    ensures Cdf(k - 1, n, p) <= Cdf(k, n, p)
  {
    if k >= 0 { TermNonNegative(k, n, p); }
  }

  lemma {:induction false} CdfIsProbability(k: int, n: nat, p: real)
    requires 0.0 <= p <= 1.0
    ensures 0.0 <= Cdf(k, n, p) <= 1.0
    decreases if k < 0 then 0 else if k < n then n - k else k
  {
    if k >= n {
      CdfTotal(k, n, p);
    } else if k >= 0 {
      CdfGrowsWithCount(k + 1, n, p);
      if k + 1 >= n { CdfTotal(k + 1, n, p); } else { CdfIsProbability(k + 1, n, p); }
      CdfNonNegative(k, n, p);
    }
  }

  lemma {:induction false} CdfNonNegative(k: int, n: nat, p: real)
    requires 0.0 <= p <= 1.0
    ensures Cdf(k, n, p) >= 0.0
    decreases k + 1
  {
    if k >= 0 {
      CdfNonNegative(k - 1, n, p);
      TermNonNegative(k, n, p);
    }
  }

  // A higher rate never makes few events more likely.
  lemma {:induction false} CdfNonIncreasing(k: int, n: nat, p: real, q: real)
    requires 0.0 <= p <= q <= 1.0
    ensures Cdf(k, n, q) <= Cdf(k, n, p)
    decreases n
  {
    if n == 0 {
      CdfNoTrials(k, p);
      CdfNoTrials(k, q);
    } else {
      CdfStep(k, n - 1, p);
      CdfStep(k, n - 1, q);
      CdfNonIncreasing(k, n - 1, p, q);
      CdfNonIncreasing(k - 1, n - 1, p, q);
      CdfGrowsWithCount(k, n - 1, p);
      MixNonIncreasing(p, q, Cdf(k, n - 1, p), Cdf(k - 1, n - 1, p), Cdf(k, n - 1, q), Cdf(k - 1, n - 1, q));
    }
  }

  lemma {:induction false} CdfAtOne(k: int, n: nat)
    requires k < n
    ensures Cdf(k, n, 1.0) == 0.0
    decreases n
  {
    if k >= 0 {
      CdfStep(k, n - 1, 1.0);
      CdfAtOne(k - 1, n - 1);
    }
  }
}
