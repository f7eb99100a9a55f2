/**
  The two arithmetic gates of Qmath.py: `Add`, which sums its register values,
  and `ModularExp`, the reversible modular exponentiation
  V|y>|e> = |y * x**e mod n>|e> for y < n and V|y>|e> = |y>|e> for n <= y.

  A register is given, as in the source, by its qid shape: a sequence with one
  entry per cell (each entry the cell's dimension, 2 for a qubit). A gate
  component is either such a register or a classical integer constant.
*/
module ArithmeticGates {
  import opened Outcomes
  import opened NumberTheory

  /** One gate component, Python's `Union[int, Sequence[int]]`. */
  datatype Operand = Register(shape: seq<int>) | Constant(value: int)

  /** The `ValueError`s (and, for `Add`, the `TypeError`) that the gates raise. */
  datatype GateError =
    | RegisterTooSmall(qubits: nat, modulus: int)
    | WrongRegisterCount(expected: nat, got: nat)
    | TargetNotRegister
    | BaseNotConstant
    | ModulusNotConstant

  /** `Add(target_register, input_register)`: writes the sum of all register values. */
  datatype AddGate = AddGate(targetRegister: Operand, inputRegister: Operand)
  {
    /** The two components, as many as `WithRegisters` accepts. */
    function Registers(): (r: seq<Operand>)
      ensures |r| == 2
    {
      [targetRegister, inputRegister]
    }

    /**
      `Add(*new_registers)`: the constructor takes exactly two components and
      builds a gate from any two. It does not read the gate it is called on.
    */
    static function WithRegisters(args: seq<Operand>): (r: Result<AddGate, GateError>)
      ensures |args| != 2 <==> r == Err(WrongRegisterCount(2, |args|))
      ensures r.Ok? <==> |args| == 2
      ensures r.Ok? ==> r.value.Registers() == args
    {
      if |args| != 2 then Err(WrongRegisterCount(2, |args|))
      else Ok(AddGate(args[0], args[1]))
    }

    /** `sum(register_values)`. */
    static function Apply(values: seq<int>): (r: int)
      ensures |values| == 2 ==> r == values[0] + values[1]
    {
      if values == [] then 0
      else
        assert |values| == 2 ==> Apply(values[1..]) == values[1] + Apply(values[1..][1..]);
        assert |values| == 2 ==> values[1..][1..] == [];
        values[0] + Apply(values[1..])
    }

    /** The sum over a concatenation of register values splits. */
    static lemma {:induction false} ApplyConcat(xs: seq<int>, ys: seq<int>)
      ensures Apply(xs + ys) == Apply(xs) + Apply(ys)
      decreases |xs|
    {
      if xs == [] {
        assert xs + ys == ys;
      } else {
        assert (xs + ys)[1..] == xs[1..] + ys;
        ApplyConcat(xs[1..], ys);
      }
    }
  }

  /** A `ModularExp` gate: target register, exponent (register or constant), base and modulus. */
  datatype ModularExp = ModularExp(target: seq<int>, exponent: Operand, base: int, modulus: int)
  {
    /**
      `ModularExp(target, exponent, base, modulus)`: refuses a target register
      with fewer cells than the modulus has bits, and stores the four
      components unchanged otherwise.
    */
    static function Create(target: seq<int>, exponent: Operand, base: int, modulus: int): (r: Result<ModularExp, GateError>)
      ensures r.Err? <==> |target| < BitLength(modulus)
      ensures r.Err? ==> r.error == RegisterTooSmall(|target|, modulus)
      ensures r.Ok? ==> r.value.target == target && r.value.exponent == exponent
                        && r.value.base == base && r.value.modulus == modulus
    {
      if |target| < BitLength(modulus) then Err(RegisterTooSmall(|target|, modulus))
      else Ok(ModularExp(target, exponent, base, modulus))
    }

    /** A gate as `Create` leaves it: its target can hold the modulus. */
    predicate Valid()
    {
      |target| >= BitLength(modulus)
    }

    /**
      The components in the order (target, exponent, base, modulus): a
      register first and constants third and fourth, so that a valid gate's
      components pass every check of `WithRegisters`.
    */
    function Registers(): (r: seq<Operand>)
      ensures |r| == 4 && r[0].Register? && r[2].Constant? && r[3].Constant?
      ensures Valid() ==> |r[0].shape| >= BitLength(r[3].value)
    {
      [Register(target), exponent, Constant(base), Constant(modulus)]
    }

    /**
      `with_registers(*new_registers)`: exactly four components, a register
      as target, constants as base and modulus; the exponent may be either.
      The checks run in that order, and the new gate is built by `Create`,
      whose size check comes last. It does not read the gate it is called on.
    */
    static function WithRegisters(args: seq<Operand>): (r: Result<ModularExp, GateError>)
      ensures |args| != 4 ==> r == Err(WrongRegisterCount(4, |args|))
      ensures |args| == 4 && !args[0].Register? ==> r == Err(TargetNotRegister)
      ensures |args| == 4 && args[0].Register? && !args[2].Constant? ==> r == Err(BaseNotConstant)
      ensures (|args| == 4 && args[0].Register? && args[2].Constant? && !args[3].Constant?)
                ==> r == Err(ModulusNotConstant)
      ensures (|args| == 4 && args[0].Register? && args[2].Constant? && args[3].Constant?
               && |args[0].shape| < BitLength(args[3].value))
                ==> r == Err(RegisterTooSmall(|args[0].shape|, args[3].value))
      ensures r.Ok? <==> |args| == 4 && args[0].Register? && args[2].Constant? && args[3].Constant?
                         && |args[0].shape| >= BitLength(args[3].value)
      ensures r.Ok? ==> r.value.Valid() && r.value.Registers() == args
    {
      if |args| != 4 then Err(WrongRegisterCount(4, |args|))
      else if !args[0].Register? then Err(TargetNotRegister)
      else if !args[2].Constant? then Err(BaseNotConstant)
      else if !args[3].Constant? then Err(ModulusNotConstant)
      else Create(args[0].shape, args[1], args[2].value, args[3].value)
    }

    /**
      `apply(target, exponent, base, modulus)` on register values: a target
      at or above the modulus is left alone, any other is multiplied by
      base**exponent modulo the modulus.
    */
    static function Apply(target: nat, exponent: nat, base: int, modulus: int): (r: nat)
      ensures target >= modulus ==> r == target
      ensures target < modulus ==> r < modulus
    {
      if target >= modulus then target
      else (target * Pow(base, exponent)) % modulus
    }
  }

  /** The constructor succeeds exactly when the target register can hold |modulus|. */
  lemma CreateSucceedsIffTargetHoldsModulus(target: seq<int>, exponent: Operand, base: int, modulus: int)
    ensures ModularExp.Create(target, exponent, base, modulus).Ok? <==> Abs(modulus) < Pow2(|target|)
  {
    BitLengthBound(modulus, |target|);
  }

  /** Dividing a positive `n` by a factor `g > 1` gives a smaller positive quotient. */
  lemma QuotientBelow(n: int, g: int, t: int)
    requires n >= 1 && g >= 2 && n == g * t
    ensures 0 < t < n
  {
    MulAtLeast(g - 1, t);
    assert n == (g - 1) * t + t;
  }

  /** Re-parameterising a valid gate with its own components gives the gate back. */
  lemma RegistersRoundTrip(g: ModularExp)
    requires g.Valid()
    ensures ModularExp.WithRegisters(g.Registers()) == Ok(g)
  {
  }

  /** The same for `Add`, which has no validity condition. */
  lemma AddRegistersRoundTrip(g: AddGate)
    ensures AddGate.WithRegisters(g.Registers()) == Ok(g)
  {
  }

  /**
    The docstring's V = U**e: one more unit of exponent is one more
    application of U|y> = |y * x mod n> (for y < n; U fixes y >= n), and the
    zero exponent is the identity.
  */
  lemma ApplyIsPowerOfU(t: nat, e: nat, b: int, n: int)
    ensures ModularExp.Apply(t, e + 1, b, n) == ModularExp.Apply(ModularExp.Apply(t, e, b, n), 1, b, n)
    ensures ModularExp.Apply(t, 0, b, n) == t
  {
    if t < n {
      var p := Pow(b, e);
      assert Pow(b, 1) == b;
      assert t * Pow(b, e + 1) == (t * p) * b by {
        assert Pow(b, e + 1) == b * p;
        Assoc(t, b, p);
        Assoc(t, p, b);
      }
      ModMulLeft(t * p, b, n);
      DivModUnique(t, n, 0, t);
    }
  }

  /** `Apply` with the inverse base undoes `Apply`, on every target value. */
  lemma ApplyUndoneByInverseBase(t: nat, e: nat, b: int, inv: int, n: int)
    requires n >= 1 && (b * inv) % n == 1 % n
    ensures ModularExp.Apply(ModularExp.Apply(t, e, b, n), e, inv, n) == t
  {
    if t < n {
      var pb, pi := Pow(b, e), Pow(inv, e);
      var u := (t * pb) % n;
      assert ModularExp.Apply(u, e, inv, n) == (u * pi) % n;
      ModMulLeft(t * pb, pi, n);
      assert (u * pi) % n == ((t * pb) * pi) % n;
      Assoc(t, pb, pi);
      PowMul(b, inv, e);
      assert (t * pb) * pi == t * Pow(b * inv, e);
      UnitPowerKeepsResidue(t, b * inv, e, n);
    }
  }

  /** Multiplying a residue by a power of a unit-congruent number keeps it. */
  lemma UnitPowerKeepsResidue(t: nat, u: int, e: nat, n: int)
    requires t < n && u % n == 1 % n
    ensures (t * Pow(u, e)) % n == t
  {
    var p := Pow(u, e);
    ModMul(t, p, n);
    PowOfUnitMod(u, e, n);
    DivModUnique(t, n, 0, t);
    assert (t * p) % n == (t * (1 % n)) % n;
    if n == 1 {
      assert t == 0;
    } else {
      DivModUnique(1, n, 0, 1);
      assert t * (1 % n) == t;
    }
  }

  /** With base and modulus coprime, `Apply` is one-to-one on [0, modulus). */
  lemma ApplyInjective(t1: nat, t2: nat, e: nat, b: int, n: int)
    requires n >= 1 && Gcd(Abs(b), n) == 1
    requires t1 < n && t2 < n
    requires ModularExp.Apply(t1, e, b, n) == ModularExp.Apply(t2, e, b, n)
    ensures t1 == t2
  {
    var inv := ModInverse(b, n);
    ApplyUndoneByInverseBase(t1, e, b, inv, n);
    ApplyUndoneByInverseBase(t2, e, b, inv, n);
  }

  /** With base and modulus coprime, every residue in [0, modulus) is reached. */
  lemma ApplySurjective(y: nat, e: nat, b: int, n: int) returns (t: nat)
    requires n >= 1 && Gcd(Abs(b), n) == 1 && y < n
    ensures t < n && ModularExp.Apply(t, e, b, n) == y
  {
    var inv := ModInverse(b, n);
    assert (inv * b) % n == 1 % n by { assert inv * b == b * inv; }
    t := ModularExp.Apply(y, e, inv, n);
    ApplyUndoneByInverseBase(y, e, inv, b, n);
  }

  /** The values `Apply` takes on the residues [0, modulus). */
  function Image(e: nat, b: int, n: int): set<nat>
  {
    set t: nat | t < n :: ModularExp.Apply(t, e, b, n)
  }

  /**
    The docstring's unitarity, as a statement on residues: with base and
    modulus coprime, `Apply` maps [0, modulus) onto itself one-to-one.
  */
  lemma ApplyPermutesResidues(e: nat, b: int, n: int)
    requires n >= 1 && Gcd(Abs(b), n) == 1
    ensures forall y: nat :: y in Image(e, b, n) <==> y < n
    ensures forall t1: nat, t2: nat :: t1 < n && t2 < n && ModularExp.Apply(t1, e, b, n) == ModularExp.Apply(t2, e, b, n) ==> t1 == t2
  {
    forall y: nat | y < n ensures y in Image(e, b, n) {
      var t := ApplySurjective(y, e, b, n);
    }
    forall t1: nat, t2: nat | t1 < n && t2 < n && ModularExp.Apply(t1, e, b, n) == ModularExp.Apply(t2, e, b, n)
      ensures t1 == t2
    {
      ApplyInjective(t1, t2, e, b, n);
    }
  }

  /**
    The converse: for a positive exponent, a base sharing a factor g > 1 with
    the modulus sends 0 and n / g to the same value, so `Apply` is not a
    permutation. The source does not check coprimality.
  */
  lemma ApplyCollidesWithoutCoprimality(e: nat, b: int, n: int)
    requires n >= 1 && e >= 1 && Gcd(Abs(b), n) > 1
    ensures var t := n / Gcd(Abs(b), n);
            0 < t < n && ModularExp.Apply(t, e, b, n) == ModularExp.Apply(0, e, b, n)
  {
    var g := Gcd(Abs(b), n);
    var t := n / g;
    assert n == g * t;
    assert 0 < t < n by { QuotientBelow(n, g, t); }
    FactorOfAbs(b, g);
    var c := b / g;
    var p := Pow(b, e - 1);
    assert t * Pow(b, e) == n * (c * p) by {
      assert Pow(b, e) == b * p;
      assert t * (b * p) == t * ((g * c) * p);
      assert t * ((g * c) * p) == (g * t) * (c * p);
    }
    MultipleMod(n, c * p, 0);
  }
}
