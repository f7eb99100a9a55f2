/**
  `process_measurement`: the classical step of order finding. The integer
  read from the m-bit exponent register gives the phase a / 2**m; its closest
  fraction s / r with r at most the modulus is found by continued fractions,
  and r is returned only if it passes the check x**r % n == 1.

  The source converts the phase to a float first. For m <= 53 that float is
  exactly a / 2**m (a < 2**m has at most 53 significant bits and the division
  is by a power of two), so the model works on the exact fraction.
*/
module OrderFinding {
  import opened Outcomes
  import opened NumberTheory
  import opened ContinuedFractions

  /** `Fraction.from_float(a / 2**m)`: the phase in lowest terms. */
  function Phase(a: nat, m: nat): (f: Fraction)
    ensures Normalized(f) && f.num >= 0
    ensures f.num * Pow2(m) == a * f.den
    ensures a == 0 ==> f == Fraction(0, 1)
  {
    var f := Reduce(a, Pow2(m));
    assert a == 0 ==> f.den == 1 by {
      assert Gcd(0, f.den) == Gcd(f.den, 0);
    }
    f
  }

  /**
    `process_measurement(result, x, n)` on the measured integer `a` of an
    `m`-bit register: `Err` where `limit_denominator` raises, `Ok(None)`
    where the order finder failed, `Ok(Some(r))` for a denominator r with
    x**r % n == 1, which need not be the least such r.
  */
  function ProcessMeasurement(a: nat, m: nat, x: int, n: int): (r: Result<Option<nat>, FractionError>)
    requires a < Pow2(m) && m <= 53
    ensures r.Err? <==> n < 1
    ensures a == 0 && n >= 1 ==> r == Ok(None)
    ensures r.Ok? && r.value.Some? ==> 1 <= r.value.value <= n && Pow(x, r.value.value) % n == 1
  {
    match LimitDenominator(Phase(a, m), n)
    case Err(e) => Err(e)
    case Ok(f) =>
      if f.num == 0 then Ok(None)
      else
        var r := f.den;
        if Pow(x, r) % n != 1 then Ok(None) else Ok(Some(r))
  }

  /**
    A returned order is the denominator of a closest fraction to the phase
    among all fractions whose denominator is at most the modulus.
  */
  lemma ReturnedOrderIsClosestDenominator(a: nat, m: nat, x: int, n: int, g: Fraction)
    requires a < Pow2(m) && m <= 53
    requires ProcessMeasurement(a, m, x, n).Ok? && ProcessMeasurement(a, m, x, n).value.Some?
    requires 1 <= g.den <= n
    ensures var f := LimitDenominator(Phase(a, m), n).value;
            && f.den == ProcessMeasurement(a, m, x, n).value.value
            && f.num >= 1
            && Dist(f, Phase(a, m)) <= Dist(g, Phase(a, m))
  {
    LimitDenominatorIsClosest(Phase(a, m), n, g);
  }

  /**
    A phase that is exactly k / r in lowest terms, with r within the modulus,
    yields r when r passes the check and nothing otherwise: a denominator
    that passes is returned, and a spurious one is rejected.
  */
  lemma ExactPhaseOutcome(a: nat, m: nat, x: int, n: int, k: int, r: int)
    requires a < Pow2(m) && m <= 53
    requires 1 <= k && 1 <= r <= n && Gcd(k, r) == 1
    requires a * r == k * Pow2(m)
    ensures ProcessMeasurement(a, m, x, n) == if Pow(x, r) % n == 1 then Ok(Some(r)) else Ok(None)
  {
    var p := Phase(a, m);
    var big := Pow2(m);
    assert (p.num * r) * big == (k * p.den) * big by {
      CrossMultiply(p.num, r, big, a, p.den, k);
    }
    CancelFactor(big, p.num * r, k * p.den);
    NormalizedUnique(p, Fraction(k, r));
  }

  /** From u/w = a/big and a/big = k/r follows u/w = k/r, scaled by big. */
  lemma CrossMultiply(u: int, r: int, big: int, a: int, w: int, k: int)
    requires u * big == a * w && a * r == k * big
    ensures (u * r) * big == (k * w) * big
  {
    calc {
      (u * r) * big;
      { Assoc(u, r, big); Assoc(u, big, r); }
      (u * big) * r;
      (a * w) * r;
      { Assoc(a, w, r); Assoc(a, r, w); }
      (a * r) * w;
      (k * big) * w;
      { Assoc(k, big, w); Assoc(k, w, big); }
      (k * w) * big;
    }
  }

  /** Base 7 modulo 15 has order 4; a 3-bit sample of 2 is the phase 1/4. */
  lemma OrderOfSevenModFifteen()
    ensures Pow(7, 4) % 15 == 1
    ensures ProcessMeasurement(2, 3, 7, 15) == Ok(Some(4))
    ensures ProcessMeasurement(0, 3, 7, 15) == Ok(None)
  {
    assert Pow2(3) == 8;
    assert Pow(7, 4) == 2401;
    ExactPhaseOutcome(2, 3, 7, 15, 1, 4);
  }

  /** Base 7 modulo 55: the phase 1/4 gives the spurious 4 (7**4 % 55 == 36) and is rejected. */
  lemma SpuriousQuarterModFiftyFive()
    ensures Pow(7, 4) % 55 == 36
    ensures ProcessMeasurement(8192, 15, 7, 55) == Ok(None)
  {
    assert Pow2(15) == 32768;
    assert Pow(7, 4) == 2401;
    ExactPhaseOutcome(8192, 15, 7, 55, 1, 4);
  }

  /** `d` is the order of `x` modulo `n`: the least positive exponent with x**d % n == 1. */
  predicate IsOrder(x: int, n: int, d: nat)
  {
    && n >= 1 && d >= 1 && Pow(x, d) % n == 1
    && forall j: nat :: 1 <= j < d ==> Pow(x, j) % n != 1
  }

  /** Every exponent that passes the check is a multiple of the order. */
  lemma {:induction false} UnitExponentIsMultipleOfOrder(x: int, n: int, d: nat, r: nat)
    requires IsOrder(x, n, d) && Pow(x, r) % n == 1
    ensures r % d == 0
    decreases r
  {
    if r >= d {
      PowAdd(x, d, r - d);
      UnitFactorMod(Pow(x, d), Pow(x, r - d), n);
      UnitExponentIsMultipleOfOrder(x, n, d, r - d);
      MultipleMod(d, 1, r - d);
    }
  }

  /** A factor congruent to 1 does not change a residue. */
  lemma UnitFactorMod(u: int, y: int, n: int)
    requires n >= 1 && u % n == 1
    ensures (u * y) % n == y % n
  {
    ModMul(u, y, n);
    DivModUnique(y % n, n, 0, y % n);
  }

  /** The least exponent in [j, r] that passes the check, when none below j does. */
  function FirstUnitExponent(x: int, n: int, j: nat, r: nat): (d: nat)
    requires n >= 1 && 1 <= j <= r && Pow(x, r) % n == 1
    requires forall i: nat :: 1 <= i < j ==> Pow(x, i) % n != 1
    ensures IsOrder(x, n, d) && j <= d <= r
    decreases r - j
  {
    if Pow(x, j) % n == 1 then j else FirstUnitExponent(x, n, j + 1, r)
  }

  /**
    `process_measurement` as its docstring describes it, returning the order
    of x modulo n: a denominator that passes the check is lowered to the
    least positive exponent that passes it, which divides the denominator.
  */
  function ProcessMeasurementOrder(a: nat, m: nat, x: int, n: int): (r: Result<Option<nat>, FractionError>)
    requires a < Pow2(m) && m <= 53
    ensures r.Err? <==> n < 1
    ensures r.Ok? ==> (r.value.Some? <==> ProcessMeasurement(a, m, x, n).value.Some?)
    ensures r.Ok? && r.value.Some? ==>
              && IsOrder(x, n, r.value.value)
              && ProcessMeasurement(a, m, x, n).value.value % r.value.value == 0
  {
    match ProcessMeasurement(a, m, x, n)
    case Err(e) => Err(e)
    case Ok(None) => Ok(None)
    case Ok(Some(r)) =>
      var d := FirstUnitExponent(x, n, 1, r);
      UnitExponentIsMultipleOfOrder(x, n, d, r);
      Ok(Some(d))
  }

  /** 7 has order 4 modulo 15, and 7**8 % 15 is 1 as well. */
  lemma SevenHasOrderFourModFifteen()
    ensures IsOrder(7, 15, 4) && Pow(7, 8) % 15 == 1
  {
    assert Pow(7, 1) % 15 == 7 && Pow(7, 2) % 15 == 4 && Pow(7, 3) % 15 == 13;
    assert Pow(7, 4) == 2401;
    PowAdd(7, 4, 4);
    UnitFactorMod(Pow(7, 4), Pow(7, 4), 15);
  }

  /**
    As written, the code can return a multiple of the order: 7 has order 4
    modulo 15, yet the 3-bit sample 3 (phase 3/8) yields 8, since 7**8 % 15
    is 1 as well. The version that returns the order yields 4.
  */
  lemma MultipleOfOrderReturned()
    ensures IsOrder(7, 15, 4)
    ensures ProcessMeasurement(3, 3, 7, 15) == Ok(Some(8))
    ensures ProcessMeasurementOrder(3, 3, 7, 15) == Ok(Some(4))
  {
    SevenHasOrderFourModFifteen();
    assert Pow2(3) == 8;
    assert Gcd(3, 8) == 1 by {
      assert Gcd(3, 8) == Gcd(8, 3) == Gcd(3, 2) == Gcd(2, 1) == Gcd(1, 0);
    }
    ExactPhaseOutcome(3, 3, 7, 15, 3, 8);
    assert FirstUnitExponent(7, 15, 1, 8) == 4 by {
      assert FirstUnitExponent(7, 15, 1, 8) == FirstUnitExponent(7, 15, 2, 8);
      assert FirstUnitExponent(7, 15, 2, 8) == FirstUnitExponent(7, 15, 3, 8);
      assert FirstUnitExponent(7, 15, 3, 8) == FirstUnitExponent(7, 15, 4, 8);
    }
  }
}
