# Order finding for Shor's algorithm: a Dafny model of `Qmath.py`

This project models the classical arithmetic at the core of quantum order
finding in `Qmath.py`, and proves properties of it. It has two parts.

- **The arithmetic gates.** `Add` writes the sum of its register values.
  `ModularExp` is the reversible modular exponentiation
  `V|y>|e> = |y * x**e mod n>|e>` for `y < n`, and `V|y>|e> = |y>|e>` for
  `n <= y`. The model covers the constructor's size check, `registers`,
  `with_registers` with its four validation errors, and the pointwise
  `apply`.
- **The order extractor.** `process_measurement` reads the integer `a` from
  the `m`-bit exponent register. It approximates the phase `a / 2**m` by the
  closest fraction `s / r` with `r <= n`, using
  `Fraction.limit_denominator`. It rejects a zero numerator. It returns `r`
  only when `x**r % n == 1`.

Modules, one file each:

- `Outcomes`: `Option` and `Result`.
- `NumberTheory`: powers, `bit_length`, Euclid's gcd with Bezout
  coefficients, and modular-arithmetic lemmas.
- `ArithmeticGates`: `Add` and `ModularExp`.
- `ContinuedFractions`: `Fraction` and `limit_denominator`, written out as
  the continued-fraction loop. The loop is a recursive function over
  `(p0, q0, p1, q1, n, d)`.
- `OrderFinding`: `process_measurement`.

Main results:

- With `gcd(base, modulus) == 1`, `apply` permutes `[0, modulus)`. It is
  undone by `apply` with the inverse base. Without coprimality and with a
  positive exponent, two residues collide. So for `e >= 1` the gate is a
  permutation exactly when the base is coprime to the modulus.
- `limit_denominator` returns a fraction in lowest terms whose denominator is
  within the bound. No fraction with such a denominator is closer to the
  input.
- A value `r` returned by `process_measurement` satisfies `1 <= r <= n` and
  `x**r % n == 1`. That makes `r` a multiple of the order of `x` modulo `n`,
  but not necessarily the order itself (see "## Findings"). When the phase is
  exactly `k / r` in lowest terms with `r <= n`, it returns `r` if `r` passes
  the check and nothing otherwise.
- The apply step is the docstring's `V = U**e`: one more unit of exponent is
  one more application of `U|y> = |y * x mod n>`.

`limit_denominator` does not simply return the last convergent within the
bound: CPython compares it with the best semiconvergent
`(p0 + k*p1) / (q0 + k*q1)` and returns the closer one, preferring the
convergent on a tie. The model does the same.

## Model

| member | source | states |
|---|---|---|
| `ArithmeticGates.AddGate.Registers` | Qmath.py:15-16 | the two components, as many as `with_registers` accepts |
| `ArithmeticGates.AddGate.WithRegisters` | Qmath.py:18-21 | fails with a register-count error exactly when not given two components, and succeeds exactly when given two; on success `registers()` returns the components given |
| `ArithmeticGates.AddRegistersRoundTrip` | Qmath.py:15-21 | `with_registers(*g.registers())` rebuilds every `Add` gate `g` |
| `ArithmeticGates.AddGate.Apply` | Qmath.py:23-24 | for a target and an input value the result is their sum |
| `ArithmeticGates.AddGate.ApplyConcat` | Qmath.py:23-24 | the sum over concatenated register values is the sum of the two sums |
| `ArithmeticGates.ModularExp.Create` | Qmath.py:47-62 | fails with `RegisterTooSmall(len(target), modulus)` exactly when `len(target) < modulus.bit_length()`; otherwise stores the four components unchanged |
| `ArithmeticGates.CreateSucceedsIffTargetHoldsModulus` | Qmath.py:54-58 | construction succeeds exactly when `abs(modulus) < 2**len(target)`, i.e. the target register can hold the modulus |
| `NumberTheory.BitLength` | Qmath.py:54 | `int.bit_length()`, by halving; its meaning is stated by `BitLengthBound` |
| `NumberTheory.BitLengthBound` | Qmath.py:54 | `x.bit_length() <= L` exactly when `abs(x) < 2**L` |
| `ArithmeticGates.ModularExp.Registers` | Qmath.py:64-65 | four components: a register first, constants third and fourth; for a valid gate the target can hold the modulus, so they pass every check of `with_registers` |
| `ArithmeticGates.ModularExp.WithRegisters` | Qmath.py:67-89 | count error unless 4 components; then target-not-register, base-not-constant, modulus-not-constant, in that order; then the constructor's `RegisterTooSmall` when the target cannot hold the modulus; the exponent may be either kind; success exactly when all checks and the size check pass, and then `registers()` gives back the arguments |
| `ArithmeticGates.RegistersRoundTrip` | Qmath.py:64-89 | `with_registers(*g.registers())` rebuilds `g` for every valid gate `g` |
| `ArithmeticGates.ModularExp.Apply` | Qmath.py:104-108 | a target at or above the modulus is a fixed point; any other target maps into `[0, modulus)` |
| `ArithmeticGates.ApplyIsPowerOfU` | Qmath.py:40-45 | `V|y>|e+1> = U(V|y>|e>)` with `U|y> = |y * x mod n>` for `y < n` and `U` fixing `y >= n`, and exponent 0 is the identity: `V = U**e` |
| `ArithmeticGates.ApplyUndoneByInverseBase` | Qmath.py:28-46 | applying the gate with base `inv`, where `base * inv == 1 (mod n)`, undoes the gate on every target value |
| `ArithmeticGates.ApplyInjective` | Qmath.py:104-108 | with `gcd(base, modulus) == 1`, distinct targets in `[0, modulus)` have distinct images |
| `ArithmeticGates.ApplySurjective` | Qmath.py:104-108 | with `gcd(base, modulus) == 1`, every residue in `[0, modulus)` is the image of one in `[0, modulus)` |
| `ArithmeticGates.ApplyPermutesResidues` | Qmath.py:28-46 | the docstring's unitarity: with `gcd(base, modulus) == 1`, the image of `[0, modulus)` is exactly `[0, modulus)` and the map is one-to-one |
| `ArithmeticGates.ApplyCollidesWithoutCoprimality` | Qmath.py:104-108 | with a positive exponent and `g = gcd(base, modulus) > 1`, the targets 0 and `modulus / g` collide, so the map is not a permutation |
| `NumberTheory.ModInverse` | Qmath.py:28-46 | a base coprime to the modulus has an inverse modulo it, the base of the inverse gate |
| `ContinuedFractions.Reduce` | Qmath.py:150-153 | `Fraction(num, den)` is in lowest terms with a positive denominator, has the same value, stays non-negative for a non-negative numerator, and is zero exactly for a zero numerator |
| `ContinuedFractions.NormalizedUnique` | Qmath.py:153 | two fractions in lowest terms with the same value are equal |
| `ContinuedFractions.Expand` | Qmath.py:153 | the continued-fraction loop ends with the next convergent's denominator above the bound, keeping its invariant: the remainders are coprime, both convergent denominators are within the bound, and their determinant is +-1 |
| `ContinuedFractions.ExpandTracks` | Qmath.py:153 | throughout the loop the fraction equals `(p1*n + p0*d) / (q1*n + q0*d)` |
| `ContinuedFractions.Convergents` | Qmath.py:153 | the loop run from its initial state `(0, 1, 1, 0, num, den)` ends in a state that keeps the invariant, meets the exit test and tracks the input |
| `ContinuedFractions.Candidates` | Qmath.py:153 | the semiconvergent and the last convergent are both in lowest terms, within the bound, neighbours (cross-product difference 1), and they bracket the fraction |
| `ContinuedFractions.LimitDenominator` | Qmath.py:153 | `ValueError` exactly for a bound below 1; otherwise a non-negative fraction in lowest terms whose denominator is within the bound, and the input itself when its denominator already is |
| `ContinuedFractions.BetweenNeighbours` | Qmath.py:153 | a fraction strictly between two neighbours has a denominator at least the sum of theirs |
| `ContinuedFractions.LimitDenominatorIsClosest` | Qmath.py:153 | no fraction with a denominator within the bound is closer to the input than the result |
| `OrderFinding.Phase` | Qmath.py:148-150 | the measured phase `a / 2**m` in lowest terms; a zero measurement gives `0/1` |
| `OrderFinding.ProcessMeasurement` | Qmath.py:129-165 | raises exactly when `n < 1`; a zero measurement gives `None`; a returned `r` satisfies `1 <= r <= n` and `x**r % n == 1` |
| `OrderFinding.ReturnedOrderIsClosestDenominator` | Qmath.py:152-165 | a returned `r` is the denominator of a fraction with a positive numerator that is closest to the phase among all fractions with denominator at most `n` |
| `OrderFinding.ExactPhaseOutcome` | Qmath.py:157-165 | a phase exactly `k/r` in lowest terms with `1 <= k`, `r <= n` yields `r` when `x**r % n == 1` and `None` otherwise |
| `OrderFinding.OrderOfSevenModFifteen` | Qmath.py:129-165 | base 7, modulus 15: a sample of 2 in 3 bits yields order 4, a sample of 0 yields `None` |
| `OrderFinding.SpuriousQuarterModFiftyFive` | Qmath.py:157-165 | base 7, modulus 55 (the constants of `moreQbits.py`): the phase 1/4 gives the spurious denominator 4, which is rejected |
| `OrderFinding.UnitExponentIsMultipleOfOrder` | Qmath.py:144-145 | every exponent `r` with `x**r % n == 1` is a multiple of the order of `x` modulo `n` |
| `OrderFinding.FirstUnitExponent` | Qmath.py:144-145 | the least exponent passing the check is the order of `x` modulo `n` |
| `OrderFinding.ProcessMeasurementOrder` | Qmath.py:144-165 | fails exactly where `process_measurement` does and returns a value exactly when it does; that value is the order of `x` modulo `n` and divides what `process_measurement` returns |
| `OrderFinding.MultipleOfOrderReturned` | Qmath.py:144-165 | 7 has order 4 modulo 15, but the 3-bit sample 3 makes `process_measurement` return 8; the order-returning version returns 4 |

## Findings

| source | as written | input that shows it | evidently intended | confidence | as-written member | corrected member |
|---|---|---|---|---|---|---|
| Qmath.py:144-165 | returns any denominator `r <= n` with `x**r % n == 1`, which can be a proper multiple of the order | `x = 7`, `n = 15`, sample 3 of a 3-bit register (phase 3/8): returns 8, while the order is 4 | returns "r, the order of x modulo n", the least positive `r` with `x**r % n == 1` | not executed; proved in `OrderFinding.MultipleOfOrderReturned` | `OrderFinding.ProcessMeasurement` | `OrderFinding.ProcessMeasurementOrder` |

## Left out

- `ModularExp._circuit_diagram_info_` (diagram labels) has no effect on what the gate computes and is not modelled.
- The cirq `ArithmeticGate` machinery is not modelled: running `apply` over superposed register states, and sizing and allocating qubits.
- `process_measurement` takes the measured integer `a` and the register width `m` directly. Reading them out of a `cirq.Result` is not modelled, and neither is the diagnostic `print`.
- OrderFinding.ProcessMeasurement: the float `a / 2**m` is replaced by the exact fraction. This is exact only for `m <= 53`, which is a precondition, together with `a < 2**m`, which holds for any value read from an `m`-bit register.
- ContinuedFractions.LimitDenominator: modelled for non-negative fractions only. Those are the only ones `process_measurement` produces.
- ArithmeticGates.ModularExp.Apply: target and exponent values are non-negative integers, as register values are. A negative constant exponent, for which Python's `base ** exponent` is a float, is not modelled.
- Python values that are neither an `int` nor a `Sequence` are not modelled. A gate component is either a register (its qid shape) or an integer constant.
- `ModularExp.apply`'s `assert len(register_values) == 4` is not a separate check: the model's `Apply` takes exactly four values.
- `Add.__init__` only stores its two components; it is the `AddGate` datatype's constructor and carries no contract of its own.
- `myQFT.py` (the QFT circuit), `myDFT.py` (a numpy DFT and its plot) and `moreQbits.py` (the driver script) are not part of this model.
