/** The scalar field E::Fr as the limb code sees it: integers modulo a prime
    p, each element held canonically as a fixed number of 64-bit words,
    least-significant word first. Only the operations the limb engine calls
    are modelled, by their arithmetic meaning. */
module Field {
  import opened Arith
  import opened Radix
  import opened Results
  import opened Words
  import Split
  import ModularInverse

  /** F_p with p stored in numWords 64-bit words. */
  datatype PrimeField = PrimeField(modulus: nat, numWords: nat)
  {
    /** p > 2 (so 2 is a non-zero element) and every element fits the words. */
    predicate WellFormed()
    {
      modulus > 2 && modulus <= Pow2(WORD_BITS * numWords)
    }
  }

  /** p has no divisor strictly between 1 and p. */
  ghost predicate IsPrime(p: nat)
  {
    p > 1 && forall d :: 1 < d < p ==> !ModularInverse.Divides(d, p)
  }

  /** into_repr: the canonical word array of an element. */
  function Repr(f: PrimeField, x: nat): (words: seq<u64>)
    requires f.WellFormed() && x < f.modulus
    ensures |words| == f.numWords
    ensures ValueLsbFirst(words, WORD_BITS) == x
  {
    var digits := Split.SplitFixedNumber(x, WORD_BITS, f.numWords);
    Pow2WordBits();
    Split.SplitFixedNumberExact(x, WORD_BITS, f.numWords);
    var words := seq(|digits|, i requires 0 <= i < |digits| => digits[i] as u64);
    assert words == digits;
    words
  }

  /** get_num_bits(el): the word-array count applied to the element's
      canonical representation is the element's exact bit length. */
  method GetNumBits(f: PrimeField, x: nat) returns (n: nat)
    requires f.WellFormed() && x < f.modulus
    ensures n == Bits(x)
    ensures n <= WORD_BITS * f.numWords
    ensures x == 0 <==> n == 0
  {
    n := NumBitsOfRepr(Repr(f, x));
  }

  /** fe_to_biguint(el): repr_to_biguint of the canonical representation
      reads the element's own value back. */
  method FeToBigUint(f: PrimeField, x: nat) returns (v: nat)
    requires f.WellFormed() && x < f.modulus
    ensures v == x
  {
    v := ReprToBigUint(Repr(f, x));
  }

  /** biguint_to_fe(value): the value is printed in decimal and parsed by
      the field's from_str, which reads the digits as a congruent element:
      the result is the residue of the value modulo p. */
  function BigUintToFe(f: PrimeField, v: nat): (r: nat)
    requires f.WellFormed()
    ensures r < f.modulus
    ensures v < f.modulus ==> r == v
    ensures (v - r) % f.modulus == 0
  {
    var r := v % f.modulus;
    DivModUnique(v - r, f.modulus, v / f.modulus, 0);
    if v < f.modulus then
      DivModUnique(v, f.modulus, 0, v);
      r
    else r
  }

  /** Values that differ by a multiple of p convert to the same element. */
  lemma BigUintToFeCongruent(f: PrimeField, v: nat, k: nat)
    requires f.WellFormed()
    ensures BigUintToFe(f, v + k * f.modulus) == BigUintToFe(f, v)
  {
    ModAddMultiple(v, k, f.modulus);
  }

  /** Reading an element's representation and converting back gives the
      same element. */
  lemma ConversionRoundTrip(f: PrimeField, x: nat)
    requires f.WellFormed() && x < f.modulus
    ensures BigUintToFe(f, ValueLsbFirst(Repr(f, x), WORD_BITS)) == x
  {
  }

  function Add(f: PrimeField, a: nat, b: nat): (r: nat)
    requires f.WellFormed()
    ensures r < f.modulus
  {
    (a + b) % f.modulus
  }

  function Mul(f: PrimeField, a: nat, b: nat): (r: nat)
    requires f.WellFormed()
    ensures r < f.modulus
  {
    (a * b) % f.modulus
  }

  /** The additive inverse of an element. */
  function Neg(f: PrimeField, a: nat): (r: nat)
    requires f.WellFormed() && a < f.modulus
    ensures r < f.modulus
    ensures Add(f, a, r) == 0
  {
    DivModUnique(f.modulus, f.modulus, 1, 0);
    if a == 0 then 0 else f.modulus - a
  }

  /** Field::inverse: the multiplicative inverse, None for zero. */
  function Inverse(f: PrimeField, a: nat): (r: Option<nat>)
    requires f.WellFormed() && a < f.modulus
    ensures r.None? <==> a == 0 || ModularInverse.Gcd(f.modulus, a) != 1
    ensures r.Some? ==> r.value < f.modulus && Mul(f, r.value, a) == 1
  {
    match ModularInverse.ModInverse(a, f.modulus)
    case Success(y) => Some(y)
    case Failure(_) => None
  }

  /** In a prime field every non-zero element has an inverse. */
  lemma PrimeFieldInverse(f: PrimeField, a: nat)
    requires f.WellFormed() && IsPrime(f.modulus) && 0 < a < f.modulus
    ensures Inverse(f, a).Some?
  {
    var p := f.modulus;
    var g := ModularInverse.Gcd(p, a);
    ModularInverse.GcdDivides(p, a);
    ModularInverse.DividesLe(g, a);
    assert !(1 < g < p);
  }

  /** Euclid's lemma: a prime dividing a product and not the first factor
      divides the second. */
  lemma PrimeDividesFactor(f: PrimeField, a: nat, b: nat)
    requires f.WellFormed() && IsPrime(f.modulus)
    requires a % f.modulus != 0 && (a * b) % f.modulus == 0
    ensures b % f.modulus == 0
  {
    var p := f.modulus;
    var r := a % p;
    PrimeFieldInverse(f, r);
    var ri := Inverse(f, r).value;
    var rir, ab := ri * r, a * b;
    var k, qa, m := rir / p, a / p, ab / p;
    assert rir % p == 1;
    DivModSplit(rir, p);
    DivModSplit(a, p);
    DivModSplit(ab, p);
    FactorAlgebra(p, b, r, ri, k, qa, m, ab);
    DivModUnique(b, p, ri * (m - qa * b) - k * b, 0);
  }


  /** The integer identity behind Euclid's lemma: with ri * r == 1 (mod p)
      and a == r (mod p), a multiple of p in a * b makes b one too. */
  lemma FactorAlgebra(p: int, b: int, r: int, ri: int, k: int, qa: int, m: int, ab: int)
    requires ri * r == k * p + 1
    requires ab == (qa * p + r) * b && ab == m * p
    ensures b == (ri * (m - qa * b) - k * b) * p
  {
    assert ab == qa * p * b + r * b;
    assert r * b == (m - qa * b) * p;
    assert ri * (r * b) == (ri * r) * b;
    assert (ri * r) * b == k * p * b + b;
    assert ri * (r * b) == ri * (m - qa * b) * p;
  }

  /** Multiplying by c and then by an inverse of c returns the element. */
  lemma MulThenInverse(f: PrimeField, x: nat, c: nat, ci: nat)
    requires f.WellFormed() && x < f.modulus && Mul(f, c, ci) == 1
    ensures Mul(f, Mul(f, x, c), ci) == x
  {
    var p := f.modulus;
    var xc, cci := x * c, c * ci;
    var k := cci / p;
    DivModSplit(cci, p);
    ModMulLeft(xc, ci, p);
    MulDistrib(x, 1, p, k);
    assert xc * ci == x * cci;
    ModAddMultiple(x, x * k, p);
    DivModUnique(x, p, 0, x);
  }
}
