/** LimbedRepresentationParameters: the constants derived from a limb width
    L and an intermediate-value capacity C, shared by every limb of a
    LimbedBigUint. */
module Representation {
  import opened Arith
  import opened Results
  import opened Field
  import ModularInverse

  datatype Params = Params(
    limbSizeBits: nat,
    limbMaxValue: nat,
    limbMaxIntermediateValue: nat,
    limbIntermediateValueCapacity: nat,
    shiftLeftByLimb: nat,
    shiftRightByLimb: nat,
    mulTwo: nat,
    divTwo: nat)

  /** The unwraps of LimbedRepresentationParameters::new that can fail: the
      shift constant 2^L mod p, or the element 2, has no inverse. */
  datatype ParamsError = ShiftNotInvertible | TwoNotInvertible

  /** 2^L as a field element: the residue the decimal parse of 2^L yields. */
  function ShiftConstant(f: PrimeField, limbSize: nat): (s: nat)
    requires f.WellFormed()
    ensures s < f.modulus && (Pow2(limbSize) < f.modulus ==> s == Pow2(limbSize))
  {
    BigUintToFe(f, Pow2(limbSize))
  }

  /** LimbedRepresentationParameters::new(L, C) over the field f. */
  function New(f: PrimeField, limbSize: nat, capacity: nat): (r: Result<Params, ParamsError>)
    requires f.WellFormed()
    ensures r == Failure(ShiftNotInvertible) <==> ModularInverse.Gcd(f.modulus, ShiftConstant(f, limbSize)) != 1
    ensures r == Failure(TwoNotInvertible)
      <==> ModularInverse.Gcd(f.modulus, ShiftConstant(f, limbSize)) == 1 && f.modulus % 2 == 0
    ensures r.Success? ==> r.value.limbSizeBits == limbSize
    ensures r.Success? ==> r.value.limbIntermediateValueCapacity == capacity
    ensures r.Success? ==> r.value.limbMaxValue + 1 == Pow2(limbSize)
    ensures r.Success? ==> r.value.limbMaxIntermediateValue + 1 == Pow2(capacity)
    ensures r.Success? ==> r.value.shiftLeftByLimb == BigUintToFe(f, Pow2(limbSize))
    ensures r.Success? ==> r.value.shiftRightByLimb < f.modulus
    ensures r.Success? ==> Mul(f, r.value.shiftLeftByLimb, r.value.shiftRightByLimb) == 1
    ensures r.Success? ==> r.value.mulTwo == 2
    ensures r.Success? ==> r.value.divTwo < f.modulus && Mul(f, r.value.mulTwo, r.value.divTwo) == 1
  {
    var limbMaxValue := Pow2(limbSize) - 1;
    var shiftLeft := ShiftConstant(f, limbSize);
    DivModUnique(2, f.modulus, 0, 2);
    TwoCoprime(f.modulus);
    match Inverse(f, shiftLeft)
    case None => Failure(ShiftNotInvertible)
    case Some(shiftRight) =>
      var two := Add(f, 1, 1);
      match Inverse(f, two)
      case None => Failure(TwoNotInvertible)
      case Some(divTwo) =>
        Success(Params(
          limbSize,
          limbMaxValue,
          Pow2(capacity) - 1,
          capacity,
          shiftLeft,
          shiftRight,
          two,
          divTwo))
  }

  /** 2 is coprime to an odd modulus and shares the factor 2 with an even one. */
  lemma TwoCoprime(p: nat)
    requires p > 2
    ensures ModularInverse.Gcd(p, 2) == 1 <==> p % 2 == 1
  {
    assert ModularInverse.Gcd(p, 2) == ModularInverse.Gcd(2, p % 2);
    if p % 2 == 1 {
      assert ModularInverse.Gcd(2, 1) == ModularInverse.Gcd(1, 0) == 1;
    } else {
      assert ModularInverse.Gcd(2, 0) == 2;
    }
  }

  /** A prime above 2 divides no power of two. */
  lemma {:induction false} PrimeDoesNotDividePow2(f: PrimeField, n: nat)
    requires f.WellFormed() && IsPrime(f.modulus)
    ensures Pow2(n) % f.modulus != 0
  {
    if n == 0 {
      DivModUnique(1, f.modulus, 0, 1);
    } else {
      PrimeDoesNotDividePow2(f, n - 1);
      if Pow2(n) % f.modulus == 0 {
        DivModUnique(2, f.modulus, 0, 2);
        PrimeDividesFactor(f, 2, Pow2(n - 1));
      }
    }
  }

  /** Over a prime field the construction always succeeds: the shift
      constant 2^L mod p is non-zero and p is odd. */
  lemma NewSucceedsInPrimeField(f: PrimeField, limbSize: nat, capacity: nat)
    requires f.WellFormed() && IsPrime(f.modulus)
    ensures New(f, limbSize, capacity).Success?
  {
    PrimeDoesNotDividePow2(f, limbSize);
    PrimeFieldInverse(f, ShiftConstant(f, limbSize));
    DivModUnique(2, f.modulus, 0, 2);
    PrimeFieldInverse(f, 2);
  }

  /** limb_max_value is the largest L-bit value: exactly the values of at
      most L bits lie at or below it. */
  lemma LimbMaxValueIsBitRange(f: PrimeField, limbSize: nat, capacity: nat, v: nat)
    requires f.WellFormed() && New(f, limbSize, capacity).Success?
    ensures v <= New(f, limbSize, capacity).value.limbMaxValue <==> Bits(v) <= limbSize
    ensures v <= New(f, limbSize, capacity).value.limbMaxIntermediateValue <==> Bits(v) <= capacity
  {
    BitsAtMost(v, limbSize);
    BitsAtMost(v, capacity);
  }

  /** Multiplying by shift_left_by_limb_constant is a left shift by L bits
      when the product does not wrap around p. */
  lemma ShiftLeftIsExact(f: PrimeField, limbSize: nat, capacity: nat, x: nat)
    requires f.WellFormed() && New(f, limbSize, capacity).Success?
    requires x * Pow2(limbSize) < f.modulus
    ensures Mul(f, x, New(f, limbSize, capacity).value.shiftLeftByLimb) == x * Pow2(limbSize)
  {
    if x > 0 {
      MulLe(1, x, Pow2(limbSize));
      DivModUnique(Pow2(limbSize), f.modulus, 0, Pow2(limbSize));
      DivModUnique(x * Pow2(limbSize), f.modulus, 0, x * Pow2(limbSize));
    } else {
      DivModUnique(0, f.modulus, 0, 0);
    }
  }

  /** Shifting left then right by one limb, or doubling then halving, is the
      identity on field elements. */
  lemma ShiftAndHalveRoundTrip(f: PrimeField, limbSize: nat, capacity: nat, x: nat)
    requires f.WellFormed() && New(f, limbSize, capacity).Success? && x < f.modulus
    ensures var p := New(f, limbSize, capacity).value;
      Mul(f, Mul(f, x, p.shiftLeftByLimb), p.shiftRightByLimb) == x
      && Mul(f, Mul(f, x, p.mulTwo), p.divTwo) == x
  {
    var p := New(f, limbSize, capacity).value;
    MulThenInverse(f, x, p.shiftLeftByLimb, p.shiftRightByLimb);
    MulThenInverse(f, x, p.mulTwo, p.divTwo);
  }
}
