/** Limb: a constrained term paired with the tracked upper bound max_value.
    Some operations touch only the bound, the others only the term; the
    bound is kept valid only when the caller pairs them. */
module Limbs {
  import opened Arith
  import opened Results
  import opened Field

  /** The term carrying a limb's value: a field element when the witness is
      assigned, None while the circuit is synthesised without values. */
  datatype Term = Term(fieldValue: Option<nat>)

  /** A limb; the source's Limb::new is the constructor. */
  datatype Limb = Limb(term: Term, maxValue: nat)
  {
    /** An assigned witness is an element of f. */
    predicate WellFormed(f: PrimeField)
    {
      term.fieldValue.Some? ==> term.fieldValue.value < f.modulus
    }

    /** max_value bounds the value, when there is one. */
    predicate BoundHolds()
    {
      term.fieldValue.Some? ==> term.fieldValue.value <= maxValue
    }
  }

  /** max_bits: one bit more than the bound needs. */
  function MaxBits(l: Limb): (n: nat)
    ensures n >= 1
    ensures l.maxValue < Pow2(n - 1)
    ensures n >= 2 ==> Pow2(n - 2) <= l.maxValue
  {
    Bits(l.maxValue) + 1
  }

  /** inc_max: raise the bound by `amount`; the term is untouched. */
  function IncMax(l: Limb, amount: nat): (r: Limb)
    ensures r.term == l.term
    ensures r.maxValue == l.maxValue + amount
  {
    l.(maxValue := l.maxValue + amount)
  }

  /** scale_max: multiply the bound by `factor`; the term is untouched. */
  function ScaleMax(l: Limb, factor: nat): (r: Limb)
    ensures r.term == l.term
    ensures r.maxValue == l.maxValue * factor
  {
    l.(maxValue := l.maxValue * factor)
  }

  /** scale: multiply the term by the field constant `factor`; max_value is NOT
      updated. */
  function Scale(f: PrimeField, l: Limb, factor: nat): (r: Limb)
    requires f.WellFormed()
    ensures r.maxValue == l.maxValue
    ensures r.term.fieldValue.Some? <==> l.term.fieldValue.Some?
    ensures r.term.fieldValue.Some? ==> r.term.fieldValue.value == Mul(f, l.term.fieldValue.value, factor)
    ensures r.WellFormed(f)
  {
    match l.term.fieldValue
    case None => l
    case Some(x) => l.(term := Term(Some(Mul(f, x, factor))))
  }

  /** negate: the additive inverse of the term; max_value is unchanged. */
  function Negate(f: PrimeField, l: Limb): (r: Limb)
    requires f.WellFormed() && l.WellFormed(f)
    ensures r.maxValue == l.maxValue
    ensures r.term.fieldValue.Some? <==> l.term.fieldValue.Some?
    ensures r.term.fieldValue.Some? ==> Add(f, l.term.fieldValue.value, r.term.fieldValue.value) == 0
    ensures r.WellFormed(f)
  {
    match l.term.fieldValue
    case None => l
    case Some(x) => l.(term := Term(Some(Neg(f, x))))
  }

  /** add_constant: add the field constant c to the term; max_value is
      unchanged. */
  function AddConstant(f: PrimeField, l: Limb, c: nat): (r: Limb)
    requires f.WellFormed()
    ensures r.maxValue == l.maxValue
    ensures r.term.fieldValue.Some? <==> l.term.fieldValue.Some?
    ensures r.term.fieldValue.Some? ==> r.term.fieldValue.value == Add(f, l.term.fieldValue.value, c)
    ensures r.WellFormed(f)
  {
    match l.term.fieldValue
    case None => l
    case Some(x) => l.(term := Term(Some(Add(f, x, c))))
  }

  /** get_value: the term's value as an unsigned integer; None where the
      source's unwrap fails on an unassigned witness. */
  method GetValue(f: PrimeField, l: Limb) returns (v: Option<nat>)
    requires f.WellFormed() && l.WellFormed(f)
    ensures v == l.term.fieldValue
  {
    match l.term.fieldValue
    case None =>
      v := None;
    case Some(x) =>
      var value := FeToBigUint(f, x);
      v := Some(value);
  }

  /** A range check of MaxBits bits accepts the value with one bit to spare. */
  lemma MaxBitsCoversValue(l: Limb)
    requires l.BoundHolds() && l.term.fieldValue.Some?
    ensures l.term.fieldValue.value < Pow2(MaxBits(l) - 1)
    ensures Bits(l.term.fieldValue.value) + 1 <= MaxBits(l)
  {
    BitsAtMost(l.term.fieldValue.value, MaxBits(l) - 1);
  }

  /** Raising the bound keeps it valid. */
  lemma IncMaxKeepsBound(l: Limb, amount: nat)
    requires l.BoundHolds()
    ensures IncMax(l, amount).BoundHolds()
  {
  }

  /** scale paired with scale_max by the same factor keeps the bound valid
      when the product does not wrap around p. */
  lemma ScalePairedWithScaleMax(f: PrimeField, l: Limb, factor: nat)
    requires f.WellFormed() && l.BoundHolds()
    requires l.term.fieldValue.Some? ==> l.term.fieldValue.value * factor < f.modulus
    ensures ScaleMax(Scale(f, l, factor), factor).BoundHolds()
  {
    if l.term.fieldValue.Some? {
      var x := l.term.fieldValue.value;
      DivModUnique(x * factor, f.modulus, 0, x * factor);
      MulLe(x, l.maxValue, factor);
    }
  }

  /** add_constant paired with inc_max by the same constant keeps the bound
      valid when the sum does not wrap around p. */
  lemma AddConstantPairedWithIncMax(f: PrimeField, l: Limb, c: nat)
    requires f.WellFormed() && l.BoundHolds()
    requires l.term.fieldValue.Some? ==> l.term.fieldValue.value + c < f.modulus
    ensures IncMax(AddConstant(f, l, c), c).BoundHolds()
  {
    if l.term.fieldValue.Some? {
      var x := l.term.fieldValue.value;
      DivModUnique(x + c, f.modulus, 0, x + c);
    }
  }

  /** scale alone does not maintain the bound: a limb holding 1 with bound
      1, scaled by 2, holds 2. */
  lemma ScaleAloneLosesBound(f: PrimeField)
    requires f.WellFormed()
    ensures Limb(Term(Some(1)), 1).BoundHolds()
    ensures !Scale(f, Limb(Term(Some(1)), 1), 2).BoundHolds()
  {
    DivModUnique(2, f.modulus, 0, 2);
  }

  /** negate does not maintain the bound: the negation of 1 is p - 1. */
  lemma NegateLosesBound(f: PrimeField)
    requires f.WellFormed()
    ensures !Negate(f, Limb(Term(Some(1)), 1)).BoundHolds()
  {
  }
}
