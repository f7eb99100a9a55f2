/**
  Integer arithmetic used by the gates and by the order finder: powers, bit
  lengths, the greatest common divisor with its Bezout coefficients, and the
  modular-arithmetic facts the proofs about them rest on. Dafny's `/` and `%`
  are Euclidean; every divisor here is positive, where they agree with
  Python's floor division and modulo.
*/
module NumberTheory {

  function Abs(x: int): nat
  {
    if x < 0 then -x else x
  }

  /** Python's `b ** e` for a non-negative exponent. */
  function Pow(b: int, e: nat): int
  {
    if e == 0 then 1 else b * Pow(b, e - 1)
  }

  /** Python's `2 ** e`. */
  function Pow2(e: nat): (r: nat)
    ensures r >= 1
  {
    if e == 0 then 1 else 2 * Pow2(e - 1)
  }

  /** Python's `int.bit_length()`: the number of binary digits of |x|, 0 for 0. */
  function BitLength(x: int): nat
    decreases Abs(x)
  {
    if x == 0 then 0 else 1 + BitLength(Abs(x) / 2)
  }

  /** A register of `len` bits holds |x| exactly when `len` is at least x's bit length. */
  lemma {:induction false} BitLengthBound(x: int, len: nat)
    ensures BitLength(x) <= len <==> Abs(x) < Pow2(len)
    decreases len
  {
    if x != 0 && len > 0 {
      BitLengthBound(Abs(x) / 2, len - 1);
    }
  }

  /** Euclid's algorithm, as `math.gcd` computes it on non-negative arguments. */
  function Gcd(a: nat, b: nat): (g: nat)
    ensures a > 0 || b > 0 ==> g > 0 && a % g == 0 && b % g == 0
    decreases b
  {
    if b == 0 then a
    else
      var g := Gcd(b, a % b);
      DividesRemainderAndDivisor(a, b, g);
      g
  }

  /** A common divisor of `b` and `a % b` divides `a`. */
  lemma DividesRemainderAndDivisor(a: nat, b: nat, g: nat)
    requires b > 0 && g > 0
    requires b % g == 0 && (a % b) % g == 0
    ensures a % g == 0
  {
    var s, t := b / g, (a % b) / g;
    assert a == (a / b) * b + a % b;
    assert b == g * s;
    assert a % b == g * t;
    assert a == g * ((a / b) * s + t);
    MultipleMod(g, (a / b) * s + t, 0);
  }

  /** Bezout coefficients for `Gcd(a, b)` by the extended Euclidean algorithm. */
  function ExtGcd(a: nat, b: nat): (c: (int, int))
    ensures a * c.0 + b * c.1 == Gcd(a, b)
    decreases b
  {
    if b == 0 then (1, 0)
    else
      var (x, y) := ExtGcd(b, a % b);
      assert a == (a / b) * b + a % b;
      (y, x - (a / b) * y)
  }

  /** `Gcd(a, b)` is a multiple of every common divisor of `a` and `b`. */
  lemma CommonDivisorDividesGcd(a: nat, b: nat, c: nat)
    requires c > 0 && a % c == 0 && b % c == 0
    ensures Gcd(a, b) % c == 0
  {
    var (x, y) := ExtGcd(a, b);
    Combination(a, b, c, x, y);
    MultipleMod(c, (a / c) * x + (b / c) * y, 0);
  }

  /** An integer combination of two multiples of `c` is a multiple of `c`. */
  lemma Combination(a: int, b: int, c: int, x: int, y: int)
    requires c > 0 && a % c == 0 && b % c == 0
    ensures a * x + b * y == c * ((a / c) * x + (b / c) * y)
  {
    var s, t := a / c, b / c;
    assert a == c * s;
    assert b == c * t;
    assert a * x == c * (s * x);
    assert b * y == c * (t * y);
  }

  /** Two numbers with an integer combination equal to 1 are coprime. */
  lemma CoprimeFromCombination(u: nat, v: nat, x: int, y: int)
    requires u * x + v * y == 1
    ensures Gcd(u, v) == 1
  {
    assert u > 0 || v > 0;
    var g := Gcd(u, v);
    var s, t := u / g, v / g;
    assert u == g * s && v == g * t;
    assert g * (s * x + t * y) == 1;
    UnitFactor(g, s * x + t * y);
  }

  /** Euclid's lemma: a divisor coprime to one factor divides the other. */
  lemma CoprimeFactor(u: nat, v: nat, w: int)
    requires v > 0 && Gcd(u, v) == 1 && (u * w) % v == 0
    ensures w % v == 0
  {
    var (x, y) := ExtGcd(u, v);
    var uw, vw := u * w, v * w;
    MultipleMod(v, w, 0);
    Combination(uw, vw, v, x, y);
    ScaleCombination(u, v, w, x, y);
    MultipleMod(v, (uw / v) * x + (vw / v) * y, 0);
  }

  /** Scaling a combination equal to 1 by `w` gives `w`. */
  lemma ScaleCombination(u: int, v: int, w: int, x: int, y: int)
    requires u * x + v * y == 1
    ensures (u * w) * x + (v * w) * y == w
  {
    assert (u * w) * x == w * (u * x);
    assert (v * w) * y == w * (v * y);
    assert w * (u * x) + w * (v * y) == w * (u * x + v * y);
  }

  lemma Assoc(a: int, b: int, c: int)
    ensures (a * b) * c == a * (b * c)
  {
  }

  /** A non-zero factor cancels. */
  lemma CancelFactor(g: int, a: int, b: int)
    requires g != 0 && g * a == g * b
    ensures a == b
  {
    assert g * (a - b) == 0;
  }

  /** A positive factor of 1 or -1 is 1. */
  lemma UnitFactor(g: int, z: int)
    requires g >= 1 && (g * z == 1 || g * z == -1)
    ensures g == 1
  {
    if z >= 1 {
      assert g * z >= g;
    } else if z <= -1 {
      assert g * z <= -g;
    }
  }

  /** A factor of |b| is a factor of b. */
  lemma FactorOfAbs(b: int, g: nat)
    requires g > 0 && Abs(b) % g == 0
    ensures b == g * (b / g)
  {
    var a := Abs(b) / g;
    assert Abs(b) == g * a;
    var c := if b < 0 then -a else a;
    assert b == g * c;
    DivModUnique(b, g, c, 0);
  }

  /** Euclidean division is unique. */
  lemma DivModUnique(x: int, n: int, q: int, rem: int)
    requires n > 0 && 0 <= rem < n && x == q * n + rem
    ensures x / n == q && x % n == rem
  {
    var q', r' := x / n, x % n;
    assert x == q' * n + r';
    assert (q - q') * n == r' - rem;
    if q > q' {
      MulAtLeast(q - q', n);
    } else if q < q' {
      MulAtLeast(q' - q, n);
    }
  }

  /** A positive multiple of `n` is at least `n`. */
  lemma {:induction false} MulAtLeast(k: int, n: int)
    requires k >= 1 && n > 0
    ensures k * n >= n
    decreases k
  {
    if k > 1 {
      MulAtLeast(k - 1, n);
      assert k * n == (k - 1) * n + n;
    }
  }

  /** Adding a multiple of `n` does not change a residue modulo `n`. */
  lemma MultipleMod(n: int, k: int, z: int)
    requires n > 0
    ensures (n * k + z) % n == z % n
  {
    assert z == (z / n) * n + z % n;
    DivModUnique(n * k + z, n, k + z / n, z % n);
  }

  /** Reducing the left factor of a product modulo `n` first gives the same residue. */
  lemma ModMulLeft(a: int, b: int, n: int)
    requires n > 0
    ensures (a * b) % n == ((a % n) * b) % n
  {
    assert a == (a / n) * n + a % n;
    assert a * b == n * ((a / n) * b) + (a % n) * b;
    MultipleMod(n, (a / n) * b, (a % n) * b);
  }

  /** Reducing both factors of a product modulo `n` first gives the same residue. */
  lemma ModMul(a: int, b: int, n: int)
    requires n > 0
    ensures (a * b) % n == ((a % n) * (b % n)) % n
  {
    ModMulLeft(a, b, n);
    ModMulLeft(b, a % n, n);
  }

  lemma {:induction false} PowMul(a: int, b: int, e: nat)
    ensures Pow(a, e) * Pow(b, e) == Pow(a * b, e)
  {
    if e > 0 {
      var pa, pb := Pow(a, e - 1), Pow(b, e - 1);
      PowMul(a, b, e - 1);
      Rearrange(a, pa, b, pb);
      assert Pow(a, e) * Pow(b, e) == (a * pa) * (b * pb);
      assert Pow(a * b, e) == (a * b) * Pow(a * b, e - 1);
    }
  }

  lemma Rearrange(a: int, pa: int, b: int, pb: int)
    ensures (a * pa) * (b * pb) == (a * b) * (pa * pb)
  {
    calc {
      (a * pa) * (b * pb);
      { Assoc(a, pa, b * pb); }
      a * (pa * (b * pb));
      { Assoc(pa, b, pb); }
      a * ((pa * b) * pb);
      { assert pa * b == b * pa; }
      a * ((b * pa) * pb);
      { Assoc(b, pa, pb); }
      a * (b * (pa * pb));
      { Assoc(a, b, pa * pb); }
      (a * b) * (pa * pb);
    }
  }

  /** Every power of a number congruent to 1 is congruent to 1. */
  lemma {:induction false} PowOfUnitMod(u: int, e: nat, n: int)
    requires n > 0 && u % n == 1 % n
    ensures Pow(u, e) % n == 1 % n
  {
    if e > 0 {
      PowOfUnitMod(u, e - 1, n);
      ModMul(u, Pow(u, e - 1), n);
      ModMul(1, 1, n);
    }
  }

  /** Powers add their exponents. */
  lemma {:induction false} PowAdd(x: int, i: nat, j: nat)
    ensures Pow(x, i + j) == Pow(x, i) * Pow(x, j)
    decreases i
  {
    if i > 0 {
      PowAdd(x, i - 1, j);
      assert Pow(x, i + j) == x * Pow(x, (i - 1) + j);
      Assoc(x, Pow(x, i - 1), Pow(x, j));
    }
  }

  /** `b` has an inverse modulo `n` when the two are coprime. */
  function ModInverse(b: int, n: nat): (inv: int)
    requires n >= 1 && Gcd(Abs(b), n) == 1
    ensures (b * inv) % n == 1 % n
  {
    var (x, y) := ExtGcd(Abs(b), n);
    var inv := if b < 0 then -x else x;
    assert b * inv == n * (-y) + 1;
    MultipleMod(n, -y, 1);
    inv
  }
}
