/** LimbedBigUint: a big integer held as limbs that share one set of
    representation parameters; limbs[0] is the least significant. */
module LimbedBigUints {
  import opened Arith
  import opened Radix
  import opened Results
  import opened Field
  import opened Limbs
  import opened Representation
  import Split

  datatype LimbedBigUint = LimbedBigUint(params: Params, numLimbs: nat, limbs: seq<Limb>)
  {
    /** num_limbs counts the limbs and every assigned limb is a field element. */
    predicate WellFormed(f: PrimeField)
    {
      && numLimbs == |limbs|
      && forall i :: 0 <= i < |limbs| ==> limbs[i].WellFormed(f)
    }
  }

  /** Every limb carries a witness value. */
  predicate AllAssigned(limbs: seq<Limb>)
  {
    forall i :: 0 <= i < |limbs| ==> limbs[i].term.fieldValue.Some?
  }

  /** The limbs' witness values, in storage order. */
  function Values(limbs: seq<Limb>): (vs: seq<nat>)
    requires AllAssigned(limbs)
    ensures |vs| == |limbs|
    ensures forall i :: 0 <= i < |limbs| ==> vs[i] == limbs[i].term.fieldValue.value
  {
    seq(|limbs|, i requires 0 <= i < |limbs| => limbs[i].term.fieldValue.value)
  }

  /** LimbedBigUint::get_value: walk the limbs from the last to the first,
      shifting the accumulator left by the limb width and adding each limb's
      value. limbs[0] therefore lands in the lowest bits. None where a limb's
      get_value would fail on an unassigned witness. */
  method GetValue(f: PrimeField, x: LimbedBigUint) returns (r: Option<nat>)
    requires f.WellFormed()
    requires forall i :: 0 <= i < |x.limbs| ==> x.limbs[i].WellFormed(f)
    ensures r.Some? <==> AllAssigned(x.limbs)
    ensures r.Some? ==> r.value == ValueLsbFirst(Values(x.limbs), x.params.limbSizeBits)
  {
    var shift := x.params.limbSizeBits;
    var result := 0;
    var i := |x.limbs|;
    while i > 0
      invariant 0 <= i <= |x.limbs|
      invariant AllAssigned(x.limbs[i..])
      invariant result == ValueLsbFirst(Values(x.limbs[i..]), shift)
    {
      var limbValue := Limbs.GetValue(f, x.limbs[i - 1]);
      if limbValue.None? {
        return None;
      }
      assert Values(x.limbs[i - 1..])[1..] == Values(x.limbs[i..]);
      result := result * Pow2(shift) + limbValue.value;
      i := i - 1;
    }
    assert x.limbs[0..] == x.limbs;
    return Some(result);
  }

  /** Limbs holding split_into_fixed_number_of_limbs(v, w, n), in the order
      it returns them, recombine to v when v fits in n limbs. */
  lemma FixedNumberSplitRecombines(x: LimbedBigUint, v: nat)
    requires AllAssigned(x.limbs)
    requires Values(x.limbs) == Split.SplitFixedNumber(v, x.params.limbSizeBits, |x.limbs|)
    requires v < Pow2(x.params.limbSizeBits * |x.limbs|)
    ensures ValueLsbFirst(Values(x.limbs), x.params.limbSizeBits) == v
  {
    Split.SplitFixedNumberExact(v, x.params.limbSizeBits, |x.limbs|);
  }

  /** Limbs holding split_into_fixed_width_limbs(v, w) recombine to v only
      after reversal. */
  lemma FixedWidthSplitRecombinesReversed(x: LimbedBigUint, v: nat)
    requires x.params.limbSizeBits > 0 && AllAssigned(x.limbs)
    requires Values(x.limbs) == Reverse(Split.SplitFixedWidth(v, x.params.limbSizeBits).value)
    ensures ValueLsbFirst(Values(x.limbs), x.params.limbSizeBits) == v
  {
    Split.SplitFixedWidthRoundTrip(v, x.params.limbSizeBits);
  }
}
