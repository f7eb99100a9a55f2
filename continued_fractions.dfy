/**
  Exact rationals as Python's `fractions.Fraction` keeps them, and
  `Fraction.limit_denominator`: the closest fraction whose denominator does
  not exceed a bound, found by the continued-fraction expansion.
*/
module ContinuedFractions {
  import opened Outcomes
  import opened NumberTheory

  /** A fraction num/den; `Normalized` is the invariant Python's `Fraction` keeps. */
  datatype Fraction = Fraction(num: int, den: int)

  /** The `ValueError` of `limit_denominator` for a bound below 1. */
  datatype FractionError = MaxDenominatorTooSmall

  /** Positive denominator, lowest terms. */
  predicate Normalized(f: Fraction)
  {
    f.den >= 1 && Gcd(Abs(f.num), f.den) == 1
  }

  function Value(f: Fraction): real
    requires f.den >= 1
  {
    f.num as real / f.den as real
  }

  function RealAbs(x: real): real
  {
    if x < 0.0 then -x else x
  }

  /** |f - x|, the distance `limit_denominator` minimises. */
  function Dist(f: Fraction, x: Fraction): real
    requires f.den >= 1 && x.den >= 1
  {
    RealAbs(Value(f) - Value(x))
  }

  /** Fractions compare as their cross products do. */
  lemma CompareByCrossProducts(u: Fraction, v: Fraction)
    requires u.den >= 1 && v.den >= 1
    ensures Value(u) <= Value(v) <==> u.num * v.den <= v.num * u.den
  {
    var d := (u.den * v.den) as real;
    assert d > 0.0;
    assert Value(u) == (u.num * v.den) as real / d;
    assert Value(v) == (v.num * u.den) as real / d;
  }

  /** `Fraction(num, den)`: divides both parts by their greatest common divisor. */
  function Reduce(num: int, den: int): (r: Fraction)
    requires den >= 1
    ensures Normalized(r)
    ensures r.num * den == num * r.den
    ensures num >= 0 ==> r.num >= 0
    ensures r.num == 0 <==> num == 0
  {
    var g := Gcd(Abs(num), den);
    ReduceFacts(num, den, g);
    Fraction(num / g, den / g)
  }

  lemma ReduceFacts(num: int, den: int, g: nat)
    requires den >= 1 && g == Gcd(Abs(num), den)
    ensures g >= 1 && num == g * (num / g) && den == g * (den / g)
    ensures Normalized(Fraction(num / g, den / g))
    ensures (num / g) * den == num * (den / g)
    ensures num >= 0 ==> num / g >= 0
  {
    FactorOfAbs(num, g);
    FactorOfAbs(den, g);
    var c, e := num / g, den / g;
    assert e >= 1 by { if e <= 0 { NonNegativeProduct(g, -e); } }
    ReducedCoprime(num, den, g, c, e);
    assert c * den == num * e by {
      assert c * den == c * (g * e);
      assert num * e == (g * c) * e;
    }
    if num >= 0 && c < 0 {
      MulAtLeast(-c, g);
    }
  }

  /** Dividing out the greatest common divisor leaves coprime parts. */
  lemma ReducedCoprime(num: int, den: int, g: nat, c: int, e: int)
    requires den >= 1 && g == Gcd(Abs(num), den)
    requires num == g * c && den == g * e && e >= 1
    ensures Gcd(Abs(c), e) == 1
  {
    var (x, y) := ExtGcd(Abs(num), den);
    var a, ac := Abs(num), Abs(c);
    assert a == g * ac;
    assert a * x + den * y == g;
    Assoc(g, ac, x);
    Assoc(g, e, y);
    assert g * (ac * x) + g * (e * y) == g * 1;
    assert g * (ac * x + e * y) == g * 1;
    CancelFactor(g, ac * x + e * y, 1);
    CoprimeFromCombination(Abs(c), e, x, y);
  }

  /** A fraction in lowest terms is determined by its value. */
  lemma NormalizedUnique(f: Fraction, g: Fraction)
    requires Normalized(f) && Normalized(g)
    requires f.num * g.den == g.num * f.den
    ensures f == g
  {
    DenominatorDivides(f, g);
    DenominatorDivides(g, f);
    var s, t := g.den / f.den, f.den / g.den;
    assert g.den == f.den * s && f.den == g.den * t;
    if s > 1 { MulAtLeast(s - 1, f.den); assert g.den > f.den; MulAtLeast(t, g.den); }
    assert f.num * f.den == g.num * f.den;
  }

  /** Under equal value, the denominator of a lowest-terms fraction divides the other's. */
  lemma DenominatorDivides(f: Fraction, g: Fraction)
    requires Normalized(f) && g.den >= 1
    requires f.num * g.den == g.num * f.den
    ensures g.den % f.den == 0
  {
    var sign := if f.num < 0 then -1 else 1;
    assert Abs(f.num) * g.den == f.den * (sign * g.num);
    MultipleMod(f.den, sign * g.num, 0);
    CoprimeFactor(Abs(f.num), f.den, g.den);
  }

  /** The loop variables of `limit_denominator`: convergents p0/q0, p1/q1 and the remainder pair n, d. */
  datatype CfState = CfState(p0: int, q0: int, p1: int, q1: int, n: int, d: int)

  /** One round of the loop: the next partial quotient a extends the convergents. */
  function Step(s: CfState): CfState
    requires s.d > 0
  {
    var a := s.n / s.d;
    CfState(s.p1, s.q1, s.p0 + a * s.p1, s.q0 + a * s.q1, s.d, s.n - a * s.d)
  }

  /** The loop's exit test: the next convergent's denominator would exceed the bound. */
  predicate Stops(maxDen: int, s: CfState)
    requires s.d > 0
  {
    s.q0 + (s.n / s.d) * s.q1 > maxDen
  }

  /** What holds at the top of every round (for a non-negative fraction whose denominator exceeds the bound). */
  predicate ExpansionInvariant(maxDen: int, s: CfState)
  {
    && s.d >= 1 && s.n >= 0 && Gcd(s.n, s.d) == 1
    && 0 <= s.q0 <= maxDen && 0 <= s.q1 <= maxDen
    && s.p0 >= 0 && s.p1 >= 0
    && Abs(s.p1 * s.q0 - s.p0 * s.q1) == 1
    && s.q1 * s.n + s.q0 * s.d > maxDen
  }

  /** The state still expands x: x = (p1*n + p0*d) / (q1*n + q0*d). */
  predicate Tracks(x: Fraction, s: CfState)
  {
    x.num == s.p1 * s.n + s.p0 * s.d && x.den == s.q1 * s.n + s.q0 * s.d
  }

  lemma StepPreservesInvariant(maxDen: int, s: CfState)
    requires ExpansionInvariant(maxDen, s) && !Stops(maxDen, s)
    ensures ExpansionInvariant(maxDen, Step(s)) && 0 <= Step(s).d < s.d
    ensures forall x :: Tracks(x, s) ==> Tracks(x, Step(s))
  {
    var a := s.n / s.d;
    var t := Step(s);
    StepRemainder(s);
    StepRemainderPositive(maxDen, s);
    StepAlgebra(s, a);
    assert Gcd(t.n, t.d) == 1 by {
      assert Gcd(s.n, s.d) == Gcd(s.d, s.n % s.d);
    }
    assert t.p1 >= 0 && t.q1 >= 0 by {
      assert a >= 0;
      NonNegativeProduct(a, s.p1);
      NonNegativeProduct(a, s.q1);
    }
    assert t.q1 <= maxDen;
  }

  lemma NonNegativeProduct(a: int, b: int)
    requires a >= 0 && b >= 0
    ensures a * b >= 0
  {
    if a > 0 && b > 0 { MulAtLeast(a, b); }
  }

  /** The new remainder is n % d. */
  lemma StepRemainder(s: CfState)
    requires s.d > 0
    ensures Step(s).d == s.n % s.d && Step(s).n == s.d
  {
    assert s.n == (s.n / s.d) * s.d + s.n % s.d;
  }

  /** The loop never reaches a zero remainder before its exit test holds. */
  lemma StepRemainderPositive(maxDen: int, s: CfState)
    requires ExpansionInvariant(maxDen, s) && !Stops(maxDen, s)
    ensures Step(s).d >= 1
  {
    var a := s.n / s.d;
    var r := s.n % s.d;
    assert s.n == a * s.d + r;
    StepRemainder(s);
    assert r == 0 ==> Gcd(s.n, s.d) == s.d by {
      assert Gcd(s.n, s.d) == Gcd(s.d, r);
      assert Gcd(s.d, 0) == s.d;
    }
    assert r == 0 ==> s.n == a;
    assert r == 0 ==> s.q1 * s.n + s.q0 * s.d == s.q0 + a * s.q1;
  }

  /** One round negates the determinant and keeps both expansions. */
  lemma StepAlgebra(s: CfState, a: int)
    requires s.d > 0 && a == s.n / s.d
    ensures var t := Step(s);
      && t.p1 * t.q0 - t.p0 * t.q1 == -(s.p1 * s.q0 - s.p0 * s.q1)
      && t.q1 * t.n + t.q0 * t.d == s.q1 * s.n + s.q0 * s.d
      && t.p1 * t.n + t.p0 * t.d == s.p1 * s.n + s.p0 * s.d
  {
    var t := Step(s);
    assert t.n == s.d && t.d == s.n - a * s.d;
    assert t.p1 * t.q0 - t.p0 * t.q1 == (s.p0 + a * s.p1) * s.q1 - s.p1 * (s.q0 + a * s.q1);
    assert t.q1 * t.n + t.q0 * t.d == (s.q0 + a * s.q1) * s.d + s.q1 * (s.n - a * s.d);
    assert t.p1 * t.n + t.p0 * t.d == (s.p0 + a * s.p1) * s.d + s.p1 * (s.n - a * s.d);
  }

  /** The `while True` loop of `limit_denominator`, run until its exit test holds. */
  function Expand(maxDen: int, s: CfState): (r: CfState)
    requires ExpansionInvariant(maxDen, s)
    ensures ExpansionInvariant(maxDen, r) && Stops(maxDen, r)
    decreases s.d
  {
    if Stops(maxDen, s) then s
    else
      StepPreservesInvariant(maxDen, s);
      Expand(maxDen, Step(s))
  }

  /** The loop never loses track of the fraction it expands. */
  lemma {:induction false} ExpandTracks(x: Fraction, maxDen: int, s: CfState)
    requires ExpansionInvariant(maxDen, s) && Tracks(x, s)
    ensures Tracks(x, Expand(maxDen, s))
    decreases s.d
  {
    if !Stops(maxDen, s) {
      StepPreservesInvariant(maxDen, s);
      ExpandTracks(x, maxDen, Step(s));
    }
  }

  /** The loop state at exit, for a fraction whose denominator exceeds the bound. */
  function Convergents(x: Fraction, maxDen: int): (s: CfState)
    requires Normalized(x) && x.num >= 0 && 1 <= maxDen < x.den
    ensures ExpansionInvariant(maxDen, s) && Stops(maxDen, s) && Tracks(x, s)
  {
    var s0 := CfState(0, 1, 1, 0, x.num, x.den);
    assert Tracks(x, s0);
    ExpandTracks(x, maxDen, s0);
    Expand(maxDen, s0)
  }

  /**
    Two fractions lo < hi that are neighbours (hi.num*lo.den - lo.num*hi.den == 1)
    around x, and whose denominators add up past the bound.
  */
  predicate Brackets(lo: Fraction, hi: Fraction, x: Fraction, maxDen: int)
  {
    && lo.den >= 1 && hi.den >= 1 && x.den >= 1
    && hi.num * lo.den - lo.num * hi.den == 1
    && Value(lo) <= Value(x) <= Value(hi)
    && lo.den + hi.den > maxDen
  }

  /**
    `bound1` (the best semiconvergent, with k = (max - q0) // q1) and
    `bound2` (the last convergent): both in lowest terms within the bound,
    and they bracket x as neighbours.
  */
  function Candidates(x: Fraction, maxDen: int): (c: (Fraction, Fraction))
    requires Normalized(x) && x.num >= 0 && 1 <= maxDen < x.den
    ensures Normalized(c.0) && Normalized(c.1)
    ensures c.0.num >= 0 && c.1.num >= 0 && c.0.den <= maxDen && c.1.den <= maxDen
    ensures Brackets(c.0, c.1, x, maxDen) || Brackets(c.1, c.0, x, maxDen)
  {
    var s := Convergents(x, maxDen);
    var k := (maxDen - s.q0) / s.q1;
    var bound1 := Fraction(s.p0 + k * s.p1, s.q0 + k * s.q1);
    var bound2 := Fraction(s.p1, s.q1);
    CandidateFacts(x, maxDen, s, k, bound1, bound2);
    (bound1, bound2)
  }

  lemma CandidateFacts(x: Fraction, maxDen: int, s: CfState, k: int, bound1: Fraction, bound2: Fraction)
    requires Normalized(x) && x.num >= 0 && 1 <= maxDen < x.den
    requires ExpansionInvariant(maxDen, s) && Stops(maxDen, s) && Tracks(x, s)
    requires s.q1 > 0 && k == (maxDen - s.q0) / s.q1
    requires bound1 == Fraction(s.p0 + k * s.p1, s.q0 + k * s.q1) && bound2 == Fraction(s.p1, s.q1)
    ensures Normalized(bound1) && Normalized(bound2)
    ensures bound1.num >= 0 && bound2.num >= 0 && bound1.den <= maxDen && bound2.den <= maxDen
    ensures Brackets(bound1, bound2, x, maxDen) || Brackets(bound2, bound1, x, maxDen)
  {
    SemiconvergentIndex(maxDen, s, k);
    NonNegativeProduct(k, s.p1);
    var sigma := s.p1 * s.q0 - s.p0 * s.q1;
    CandidateIdentities(x, s, k);
    NeighboursCoprime(bound1, bound2, sigma);
    CrossProductsBracket(bound1, bound2, x, maxDen, sigma, s.d, s.n - k * s.d);
  }

  /** Two fractions whose cross-product difference is +-1 are both in lowest terms. */
  lemma NeighboursCoprime(b1: Fraction, b2: Fraction, sigma: int)
    requires b1.num >= 0 && b2.num >= 0 && b1.den >= 1 && b2.den >= 1
    requires (sigma == 1 || sigma == -1) && b2.num * b1.den - b1.num * b2.den == sigma
    ensures Normalized(b1) && Normalized(b2)
  {
    assert b2.num * (sigma * b1.den) + b2.den * (-sigma * b1.num) == sigma * sigma;
    CoprimeFromCombination(b2.num, b2.den, sigma * b1.den, -sigma * b1.num);
    assert b1.num * (-sigma * b2.den) + b1.den * (sigma * b2.num) == sigma * sigma;
    CoprimeFromCombination(b1.num, b1.den, -sigma * b2.den, sigma * b2.num);
  }

  /** Signs of the cross products place x between two neighbours. */
  lemma CrossProductsBracket(b1: Fraction, b2: Fraction, x: Fraction, maxDen: int, sigma: int, d: int, gap: int)
    requires b1.den >= 1 && b2.den >= 1 && x.den >= 1 && d >= 1 && gap >= 1
    requires (sigma == 1 || sigma == -1) && b2.num * b1.den - b1.num * b2.den == sigma
    requires x.num * b2.den - b2.num * x.den == -sigma * d
    requires x.num * b1.den - b1.num * x.den == sigma * gap
    requires b1.den + b2.den > maxDen
    ensures Brackets(b1, b2, x, maxDen) || Brackets(b2, b1, x, maxDen)
  {
    CompareByCrossProducts(b1, x);
    CompareByCrossProducts(x, b1);
    CompareByCrossProducts(b2, x);
    CompareByCrossProducts(x, b2);
    if sigma == 1 {
      assert Brackets(b1, b2, x, maxDen);
    } else {
      assert Brackets(b2, b1, x, maxDen);
    }
  }

  /**
    The multiplier k = (max - q0) // q1 of the semiconvergent is below the
    partial quotient n // d that the loop declined, and the semiconvergent's
    denominator lies within the bound, one q1 short of exceeding it.
  */
  lemma SemiconvergentIndex(maxDen: int, s: CfState, k: int)
    requires ExpansionInvariant(maxDen, s) && Stops(maxDen, s)
    requires s.q1 > 0 && k == (maxDen - s.q0) / s.q1
    ensures 0 <= k < s.n / s.d
    ensures 1 <= s.q0 + k * s.q1 <= maxDen < s.q0 + k * s.q1 + s.q1
    ensures s.n - k * s.d >= s.d
  {
    var a := s.n / s.d;
    var rem := (maxDen - s.q0) % s.q1;
    assert maxDen - s.q0 == k * s.q1 + rem;
    assert k >= 0 by {
      if k < 0 { MulAtLeast(-k, s.q1); }
    }
    assert k < a by {
      if k >= a { NonNegativeProduct(k - a, s.q1); }
    }
    assert s.n == a * s.d + s.n % s.d;
    MulAtLeast(a - k, s.d);
    assert s.n - k * s.d == (a - k) * s.d + s.n % s.d;
  }

  /** The cross products of the two candidates with each other and with x. */
  lemma CandidateIdentities(x: Fraction, s: CfState, k: int)
    requires Tracks(x, s)
    ensures var pk, qk := s.p0 + k * s.p1, s.q0 + k * s.q1;
      && s.p1 * qk - pk * s.q1 == s.p1 * s.q0 - s.p0 * s.q1
      && x.num * s.q1 - s.p1 * x.den == -(s.p1 * s.q0 - s.p0 * s.q1) * s.d
      && x.num * qk - pk * x.den == (s.p1 * s.q0 - s.p0 * s.q1) * (s.n - k * s.d)
  {
  }

  /**
    `limit_denominator(max_denominator)`: the fraction itself when its
    denominator is within the bound; otherwise the closer of the two
    candidates, the last convergent winning a tie.
  */
  function LimitDenominator(x: Fraction, maxDen: int): (r: Result<Fraction, FractionError>)
    requires Normalized(x) && x.num >= 0
    ensures r.Err? <==> maxDen < 1
    ensures r.Ok? ==> Normalized(r.value) && r.value.num >= 0 && r.value.den <= maxDen
    ensures r.Ok? && x.den <= maxDen ==> r.value == x
  {
    if maxDen < 1 then Err(MaxDenominatorTooSmall)
    else if x.den <= maxDen then Ok(x)
    else
      var (bound1, bound2) := Candidates(x, maxDen);
      if Dist(bound2, x) <= Dist(bound1, x) then Ok(bound2) else Ok(bound1)
  }

  /** A fraction strictly between two neighbours has a denominator at least their sum. */
  lemma BetweenNeighbours(lo: Fraction, hi: Fraction, g: Fraction)
    requires lo.den >= 1 && hi.den >= 1 && g.den >= 1
    requires hi.num * lo.den - lo.num * hi.den == 1
    requires lo.num * g.den < g.num * lo.den && g.num * hi.den < hi.num * g.den
    ensures g.den >= lo.den + hi.den
  {
    var a := g.num * lo.den - lo.num * g.den;
    var b := hi.num * g.den - g.num * hi.den;
    assert g.den == lo.den * b + hi.den * a by {
      assert g.den * (hi.num * lo.den - lo.num * hi.den) == lo.den * b + hi.den * a;
    }
    MulAtLeast(b, lo.den);
    MulAtLeast(a, hi.den);
  }

  /**
    The closer end of a bracket is at least as close to x as any fraction
    whose denominator is within the bound.
  */
  lemma BracketEndIsClosest(lo: Fraction, hi: Fraction, x: Fraction, maxDen: int, r: Fraction, g: Fraction)
    requires Brackets(lo, hi, x, maxDen)
    requires r == lo || r == hi
    requires Dist(r, x) <= Dist(lo, x) && Dist(r, x) <= Dist(hi, x)
    requires 1 <= g.den <= maxDen
    ensures Dist(r, x) <= Dist(g, x)
  {
    if Value(lo) < Value(g) < Value(hi) {
      CompareByCrossProducts(g, lo);
      CompareByCrossProducts(hi, g);
      BetweenNeighbours(lo, hi, g);
    }
  }

  /** `limit_denominator` returns a closest fraction among those with denominator at most the bound. */
  lemma LimitDenominatorIsClosest(x: Fraction, maxDen: int, g: Fraction)
    requires Normalized(x) && x.num >= 0
    requires 1 <= g.den <= maxDen
    ensures Dist(LimitDenominator(x, maxDen).value, x) <= Dist(g, x)
  {
    if x.den > maxDen {
      var (bound1, bound2) := Candidates(x, maxDen);
      var r := LimitDenominator(x, maxDen).value;
      if Brackets(bound1, bound2, x, maxDen) {
        BracketEndIsClosest(bound1, bound2, x, maxDen, r, g);
      } else {
        BracketEndIsClosest(bound2, bound1, x, maxDen, r, g);
      }
    }
  }
}
