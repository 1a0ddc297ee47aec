// Why the bisection of scripts/check-live-run-evidence.py may start at the observed rate k/n: there at most k events
// still have probability at least 1/20, for every 0 < k < n.
//
// A quartic polynomial in the deviation from the mean stays below the indicator of "at most k events"; its expectation,
// computed from the central moments of the binomial, is at least 1/20 when the mean is k.

module StartCondition {
  import opened Binomial

  // A quartic in the deviation z from the count.
  datatype Quartic = Quartic(a: real, b: real, c: real) {
    function At(z: real): real {
      b * (z * z) - a * z - c * (z * z * z * z)
    }

    // Its expectation when z is disturbed by a centred variable with moments m2, m3, m4.
    function Around(z: real, m2: real, m3: real, m4: real): real {
      b * (z * z + m2) - a * z - c * (z * z * z * z + 6.0 * (z * z) * m2 + 4.0 * z * m3 + m4)
    }

    // Below the indicator of z <= 0.
    ghost predicate Minorant() {
      forall z: real :: At(z) <= if z <= 0.0 then 1.0 else 0.0
    }
  }

  // The second, third and fourth central moments of n trials of rate p, and what one trial adds to each.
  function Moment2(n: nat, p: real): real {
    if n == 0 then 0.0 else Moment2(n - 1, p) + Added2(p)
  }

  function Moment3(n: nat, p: real): real {
    if n == 0 then 0.0 else Moment3(n - 1, p) + Added3(p)
  }

  function Moment4(n: nat, p: real): real {
    if n == 0 then 0.0 else Moment4(n - 1, p) + Added4(Moment2(n - 1, p), p)
  }

  function Added2(p: real): real {
    p * (1.0 - p)
  }

  function Added3(p: real): real {
    p * (1.0 - p) * (1.0 - 2.0 * p)
  }

  function Added4(m2: real, p: real): real {
    6.0 * m2 * (p * (1.0 - p)) + p * (1.0 - p) * (1.0 - 3.0 * (p * (1.0 - p)))
  }

  function Mean(n: nat, p: real): real {
    if n == 0 then 0.0 else Mean(n - 1, p) + p
  }

  // The quartic's expectation over n trials whose mean lies z above the count.
  function Expectation(f: Quartic, n: nat, p: real, z: real): real {
    if n == 0 then f.At(z)
    else Mix(p, Expectation(f, n - 1, p, z - p), Expectation(f, n - 1, p, z + (1.0 - p)))
  }

  // It bounds the distribution function at every count j from below.
  lemma {:induction false} CdfAboveExpectation(f: Quartic, j: int, n: nat, p: real)
    requires 0.0 <= p <= 1.0 && f.Minorant()
    ensures Expectation(f, n, p, Mean(n, p) - j as real) <= Cdf(j, n, p)
    decreases n
  {
    if n == 0 {
      CdfNoTrials(j, p);
    } else {
      var z := Mean(n, p) - j as real;
      CdfAboveExpectation(f, j, n - 1, p);
      CdfAboveExpectation(f, j - 1, n - 1, p);
      assert z - p == Mean(n - 1, p) - j as real && z + (1.0 - p) == Mean(n - 1, p) - (j - 1) as real;
      CdfStep(j, n - 1, p);
      BlendMonotone(1.0 - p, p, Cdf(j, n - 1, p), Cdf(j - 1, n - 1, p),
                    Expectation(f, n - 1, p, z - p), Expectation(f, n - 1, p, z + (1.0 - p)));
    }
  }

  lemma {:induction false} ExpectationByMoments(f: Quartic, n: nat, p: real, z: real)
    ensures Expectation(f, n, p, z) == f.Around(z, Moment2(n, p), Moment3(n, p), Moment4(n, p))
  {
    hide *;
    if n == 0 {
      ExpectationOfNone(f, p, z);
    } else {
      ExpectationByMoments(f, n - 1, p, z - p);
      ExpectationByMoments(f, n - 1, p, z + (1.0 - p));
      ExpectationDefinition(f, n, p, z);
      AroundStep(f, z, n, p);
    }
  }

  lemma ExpectationOfNone(f: Quartic, p: real, z: real)
    ensures Expectation(f, 0, p, z) == f.Around(z, Moment2(0, p), Moment3(0, p), Moment4(0, p))
  {
  }

  lemma ExpectationDefinition(f: Quartic, n: nat, p: real, z: real)
    requires n > 0
    ensures Expectation(f, n, p, z) ==
            Mix(p, Expectation(f, n - 1, p, z - p), Expectation(f, n - 1, p, z + (1.0 - p)))
  {
  }

  // One more trial mixes the two shifted expectations.
  lemma AroundStep(f: Quartic, z: real, n: nat, p: real)
    requires n > 0
    ensures f.Around(z, Moment2(n, p), Moment3(n, p), Moment4(n, p)) ==
            Mix(p, f.Around(z - p, Moment2(n - 1, p), Moment3(n - 1, p), Moment4(n - 1, p)),
                f.Around(z + (1.0 - p), Moment2(n - 1, p), Moment3(n - 1, p), Moment4(n - 1, p)))
  {
    hide *;
    MomentDefinitions(n, p);
    AroundIdentity(f, z, p, Moment2(n - 1, p), Moment3(n - 1, p), Moment4(n - 1, p));
  }

  lemma MomentDefinitions(n: nat, p: real)
    requires n > 0
    ensures Moment2(n, p) == Moment2(n - 1, p) + Added2(p)
    ensures Moment3(n, p) == Moment3(n - 1, p) + Added3(p)
    ensures Moment4(n, p) == Moment4(n - 1, p) + Added4(Moment2(n - 1, p), p)
  {
  }

  lemma AroundIdentity(f: Quartic, z: real, p: real, m2: real, m3: real, m4: real)
    ensures f.Around(z, m2 + Added2(p), m3 + Added3(p), m4 + Added4(m2, p)) ==
            Mix(p, f.Around(z - p, m2, m3, m4), f.Around(z + (1.0 - p), m2, m3, m4))
  {
    hide *;
    AddedDefinitions(p, m2);
    ExpandedIdentity(f, z, p, m2, m3, m4);
  }

  lemma AddedDefinitions(p: real, m2: real)
    ensures var v := p * (1.0 - p);
            Added2(p) == v && Added3(p) == v * (1.0 - 2.0 * p) && Added4(m2, p) == 6.0 * m2 * v + v * (1.0 - 3.0 * v)
  {
  }

  lemma ExpandedIdentity(f: Quartic, z: real, p: real, m2: real, m3: real, m4: real)
    ensures var v := p * (1.0 - p);
            f.Around(z, m2 + v, m3 + v * (1.0 - 2.0 * p), m4 + (6.0 * m2 * v + v * (1.0 - 3.0 * v))) ==
            Mix(p, f.Around(z - p, m2, m3, m4), f.Around(z + (1.0 - p), m2, m3, m4))
  {
  }

  // A bound on the fourth moment by the second.
  function Spread(m2: real): real {
    3.0 * (m2 * m2) + m2
  }

  lemma {:induction false} MomentBounds(n: nat, p: real, rn: real)
    requires 0.0 <= p <= 1.0 && rn == n as real
    ensures Moment2(n, p) == rn * Added2(p)
    ensures Moment4(n, p) <= Spread(Moment2(n, p))
  {
    hide *;
    if n == 0 {
      MomentsOfNone(p);
    } else {
      MomentBounds(n - 1, p, rn - 1.0);
      MomentDefinitions(n, p);
      MomentStep(rn, p, Moment2(n - 1, p), Moment4(n - 1, p));
    }
  }

  lemma MomentsOfNone(p: real)
    ensures Moment2(0, p) == 0.0 * Added2(p)
    ensures Moment4(0, p) <= Spread(Moment2(0, p))
  {
  }

  lemma MomentStep(n: real, p: real, m2: real, m4: real)
    requires 0.0 <= p <= 1.0 && m2 == (n - 1.0) * Added2(p) && m4 <= Spread(m2)
    ensures m2 + Added2(p) == n * Added2(p)
    ensures m4 + Added4(m2, p) <= Spread(m2 + Added2(p))
  {}

  // The quartic used at scale s: 1/(80 s^4) times 12 s^2 z^2 - 16 s^3 z - z^4.
  function AtScale(s: real): Quartic
    requires s >= 1.0
  {
    Quartic(1.0 / (5.0 * s), 3.0 / (20.0 * (s * s)), 1.0 / (80.0 * (s * s * (s * s))))
  }

  lemma AtScaleIsMinorant(s: real)
    requires s >= 1.0
    ensures AtScale(s).Minorant()
  {
    forall z: real ensures AtScale(s).At(z) <= if z <= 0.0 then 1.0 else 0.0 {
      var u := z / s;
      assert z == u * s;
      AtScaleNormalised(s, u);
      if z <= 0.0 {
        NormalisedOnLeft(u);
      } else {
        NormalisedOnRight(u);
      }
    }
  }

  lemma AtScaleNormalised(s: real, u: real)
    requires s >= 1.0
    ensures 80.0 * AtScale(s).At(u * s) == 12.0 * (u * u) - 16.0 * u - u * u * u * u
  {}

  lemma NormalisedOnLeft(u: real)
    ensures 12.0 * (u * u) - 16.0 * u - u * u * u * u <= 80.0
  {
    var a, b := u * u - 7.5, u + 8.0 / 3.0;
    assert a * a == u * u * u * u - 15.0 * (u * u) + 56.25;
    assert b * b == u * u + 16.0 / 3.0 * u + 64.0 / 9.0;
  }

  lemma NormalisedOnRight(u: real)
    requires u >= 0.0
    ensures 12.0 * (u * u) - 16.0 * u - u * u * u * u <= 0.0
  {
    var a := u - 2.0;
    Product(a * a, u + 4.0);
    Product(u, a * a * (u + 4.0));
    assert a * a * (u + 4.0) == u * u * u - 12.0 * u + 16.0;
    assert u * (u * u * u - 12.0 * u + 16.0) == u * u * u * u - 12.0 * (u * u) + 16.0 * u;
  }

  // A whole number whose square is of the order of the variance.
  lemma IntegerScale(v: real) returns (s: real)
    requires v >= 0.5
    ensures s >= 1.0 && 2.0 * (s * s) <= 5.0 * v && v <= 2.0 * (s * s)
  {
    s := 1.0;
    var bound := 5.0 * v;
    while 2.0 * ((s + 1.0) * (s + 1.0)) <= 5.0 * v
      invariant s >= 1.0 && 2.0 * (s * s) <= 5.0 * v
      decreases bound - s
    {
      s := s + 1.0;
      Scale(s, 1.0, s);
    }
    Scale(s, 1.0, s);
    ScaleEnds(s, s * s, (s + 1.0) * (s + 1.0), v);
  }

  lemma ScaleEnds(s: real, square: real, next: real, v: real)
    requires s >= 1.0 && square == s * s && next == (s + 1.0) * (s + 1.0) && square >= s && 2.0 * next > 5.0 * v
    ensures v <= 2.0 * square
  {
    assert next == square + 2.0 * s + 1.0;
  }

  lemma {:induction false} MeanIsProduct(n: nat, p: real)
    ensures Mean(n, p) == n as real * p
  {
    if n > 0 { MeanIsProduct(n - 1, p); }
  }

  lemma VarianceAtRate(k: real, n: real)
    requires 1.0 <= k <= n - 1.0
    ensures var p := k / n;
            0.0 <= p <= 1.0 && n * p == k && n * Added2(p) >= 0.5
  {
    var p, m := k / n, n - k;
    assert n * p == k;
    Product(k - 1.0, m - 1.0);
    assert k * m == (k - 1.0) * (m - 1.0) + n - 1.0;
    assert n * (n * Added2(p)) == (n * p) * (n - n * p);
    CancelFactor(n, 0.5, n * Added2(p));
  }

  lemma CancelFactor(c: real, x: real, y: real)
    requires c > 0.0 && c * x <= c * y
    ensures x <= y
  {}

  // At the observed rate, k or fewer events are never less likely than 1/20.
  lemma CdfAtObservedRate(k: nat, n: nat)
    requires 0 < k < n
    ensures Cdf(k, n, k as real / n as real) >= 0.05
  {
    hide AtScale, Cdf;
    var p := k as real / n as real;
    VarianceAtRate(k as real, n as real);
    MeanIsProduct(n, p);
    MomentBounds(n, p, n as real);
    var s := IntegerScale(Moment2(n, p));
    assert Mean(n, p) - k as real == 0.0;
    AtScaleIsMinorant(s);
    CdfAboveExpectation(AtScale(s), k, n, p);
    ExpectationByMoments(AtScale(s), n, p, 0.0);
    CentredMargin(s, Moment2(n, p), Moment3(n, p), Moment4(n, p));
  }

  lemma CentredMargin(s: real, v: real, m3: real, m4: real)
    requires s >= 1.0 && v >= 0.5
    requires 2.0 * (s * s) <= 5.0 * v && v <= 2.0 * (s * s)
    requires m4 <= Spread(v)
    ensures AtScale(s).Around(0.0, v, m3, m4) >= 0.05
  {
    var f, t := AtScale(s), s * s;
    Scale(s, 1.0, s);
    Scale(t, 1.0, t);
    QuadraticMargin(t, v);
    assert f.Around(0.0, v, m3, m4) == f.b * v - f.c * m4;
    assert 20.0 * (f.b * t) == 3.0;
    assert 80.0 * (f.c * (t * t)) == 1.0;
    assert (t * t) * (f.b * v) == (f.b * t) * (t * v);
    assert (t * t) * (f.c * m4) == (f.c * (t * t)) * m4;
    assert (t * t) * (f.b * v - f.c * m4) == (t * t) * (f.b * v) - (t * t) * (f.c * m4);
    CancelFactor(t * t, 0.05, f.b * v - f.c * m4);
  }

  lemma QuadraticMargin(t: real, v: real)
    requires t >= 1.0 && v >= 0.5 && 2.0 * t <= 5.0 * v && v <= 2.0 * t
    ensures 12.0 * (t * v) - (3.0 * (v * v) + v) >= 4.0 * (t * t)
    ensures t * t >= 1.0
  {
    Scale(v, 0.5, v);
    Scale(t, 1.0, t);
    Product(5.0 * v - 2.0 * t, 2.0 * t - v);
    assert (5.0 * v - 2.0 * t) * (2.0 * t - v) == 12.0 * (t * v) - 5.0 * (v * v) - 4.0 * (t * t);
  }
}
