/** Positional values of digit sequences in radix 2^w, in the two orders
    the limb code uses: least-significant digit first (the storage order of
    words and of LimbedBigUint) and most-significant digit first (the order
    split_into_fixed_width_limbs returns). */
module Radix {
  import opened Arith

  /** Sum of limbs[i] * 2^(w*i): index 0 is the least significant digit. */
  function ValueLsbFirst(limbs: seq<nat>, w: nat): nat
  {
    if |limbs| == 0 then 0 else limbs[0] + Pow2(w) * ValueLsbFirst(limbs[1..], w)
  }

  /** Left-to-right Horner fold acc * 2^w + limb: index 0 is the most
      significant digit. */
  function HornerMsbFirst(limbs: seq<nat>, w: nat): nat
  {
    if |limbs| == 0 then 0
    else HornerMsbFirst(limbs[..|limbs| - 1], w) * Pow2(w) + limbs[|limbs| - 1]
  }

  /** Digit k of v in radix 2^w. */
  function Digit(v: nat, w: nat, k: nat): nat
  {
    var shift: nat := w * k;
    (v / Pow2(shift)) % Pow2(w)
  }

  /** Every digit is below the radix 2^w. */
  predicate DigitsBelow(limbs: seq<nat>, w: nat)
  {
    forall i :: 0 <= i < |limbs| ==> limbs[i] < Pow2(w)
  }

  function Reverse<T>(s: seq<T>): (r: seq<T>)
    ensures |r| == |s|
    ensures forall i :: 0 <= i < |s| ==> r[i] == s[|s| - 1 - i]
  {
    if |s| == 0 then [] else Reverse(s[1..]) + [s[0]]
  }

  lemma ReverseReverse<T>(s: seq<T>)
    ensures Reverse(Reverse(s)) == s
  {
  }

  /** Reading a sequence most-significant-first is reading its reversal
      least-significant-first. */
  lemma {:induction false} HornerOfReverse(s: seq<nat>, w: nat)
    ensures HornerMsbFirst(Reverse(s), w) == ValueLsbFirst(s, w)
  {
    if |s| > 0 {
      var r := Reverse(s);
      assert r[..|r| - 1] == Reverse(s[1..]);
      assert r[|r| - 1] == s[0];
      HornerOfReverse(s[1..], w);
    }
  }

  /** k digits below 2^w encode a value below 2^(w*k). */
  lemma {:induction false} ValueLsbFirstBound(s: seq<nat>, w: nat)
    requires DigitsBelow(s, w)
    ensures ValueLsbFirst(s, w) < Pow2(w * |s|)
  {
    if |s| > 0 {
      var p, q := Pow2(w), Pow2(w * (|s| - 1));
      var rest := ValueLsbFirst(s[1..], w);
      assert DigitsBelow(s[1..], w) by {
        forall i | 0 <= i < |s| - 1 ensures s[1..][i] < p {
          assert s[1..][i] == s[i + 1];
        }
      }
      ValueLsbFirstBound(s[1..], w);
      DigitStep(s[0], rest, p, q);
      Pow2Add(w, w * (|s| - 1));
      MulSucc(w, |s| - 1);
    }
  }

  /** The value of a concatenation: the high part is shifted past the low one. */
  lemma {:induction false} ValueLsbFirstAppend(lo: seq<nat>, hi: seq<nat>, w: nat)
    ensures ValueLsbFirst(lo + hi, w) == ValueLsbFirst(lo, w) + Pow2(w * |lo|) * ValueLsbFirst(hi, w)
  {
    if |lo| > 0 {
      var p, q := Pow2(w), Pow2(w * (|lo| - 1));
      var vh := ValueLsbFirst(hi, w);
      assert (lo + hi)[1..] == lo[1..] + hi;
      ValueLsbFirstAppend(lo[1..], hi, w);
      MulDistrib(p, ValueLsbFirst(lo[1..], w), vh, q);
      Pow2Add(w, w * (|lo| - 1));
      MulSucc(w, |lo| - 1);
    } else {
      assert lo + hi == hi;
    }
  }

  /** Zero digits contribute nothing. */
  lemma {:induction false} ValueOfZeros(s: seq<nat>, w: nat)
    requires forall i :: 0 <= i < |s| ==> s[i] == 0
    ensures ValueLsbFirst(s, w) == 0
  {
    if |s| > 0 {
      ValueOfZeros(s[1..], w);
    }
  }

  /** Appending zero high digits does not change the value. */
  lemma ValueLsbFirstZeroExtend(s: seq<nat>, zeros: seq<nat>, w: nat)
    requires forall i :: 0 <= i < |zeros| ==> zeros[i] == 0
    ensures ValueLsbFirst(s + zeros, w) == ValueLsbFirst(s, w)
  {
    ValueLsbFirstAppend(s, zeros, w);
    ValueOfZeros(zeros, w);
  }
}
