/** The two limb splitters of the big-integer gadget. Both peel limbs off
    the low end (value mod 2^w, then value >> w); split_into_fixed_number_of_limbs
    returns them least-significant first, split_into_fixed_width_limbs reverses
    them to most-significant first. */
module Split {
  import opened Arith
  import opened Radix
  import opened Results

  /** v >> w. */
  function Shr(v: nat, w: nat): nat
  {
    DivNonNegative(v, Pow2(w));
    v / Pow2(w)
  }

  /** Exactly n limbs of w bits, least-significant first: the loop of
      split_into_fixed_number_of_limbs, run n times whether or not the value
      is exhausted. */
  function SplitFixedNumber(v: nat, w: nat, n: nat): (limbs: seq<nat>)
    ensures |limbs| == n
    ensures DigitsBelow(limbs, w)
    decreases n
  {
    if n == 0 then []
    else
      var rest := SplitFixedNumber(Shr(v, w), w, n - 1);
      assert forall i :: 1 <= i < n ==> ([v % Pow2(w)] + rest)[i] == rest[i - 1];
      [v % Pow2(w)] + rest
  }

  /** Limb i is digit i of v in radix 2^w. */
  lemma {:induction false} SplitFixedNumberDigit(v: nat, w: nat, n: nat, i: nat)
    requires i < n
    ensures SplitFixedNumber(v, w, n)[i] == Digit(v, w, i)
    decreases i
  {
    if i > 0 {
      SplitFixedNumberDigit(Shr(v, w), w, n - 1, i - 1);
      DivDiv(v, Pow2(w), Pow2(w * (i - 1)));
      Pow2Add(w, w * (i - 1));
      MulSucc(w, i - 1);
    }
  }

  /** Recombining the n limbs gives v reduced modulo 2^(w*n). */
  lemma {:induction false} SplitFixedNumberRoundTrip(v: nat, w: nat, n: nat)
    ensures ValueLsbFirst(SplitFixedNumber(v, w, n), w) == v % Pow2(w * n)
    decreases n
  {
    if n > 0 {
      var limbs := SplitFixedNumber(v, w, n);
      assert limbs[1..] == SplitFixedNumber(Shr(v, w), w, n - 1);
      SplitFixedNumberRoundTrip(Shr(v, w), w, n - 1);
      DivDiv(v, Pow2(w), Pow2(w * (n - 1)));
      Pow2Add(w, w * (n - 1));
      MulSucc(w, n - 1);
    }
  }

  /** When v fits in n limbs the split loses nothing. */
  lemma SplitFixedNumberExact(v: nat, w: nat, n: nat)
    requires v < Pow2(w * n)
    ensures ValueLsbFirst(SplitFixedNumber(v, w, n), w) == v
  {
    SplitFixedNumberRoundTrip(v, w, n);
    DivModUnique(v, Pow2(w * n), 0, v);
  }

  /** Limbs at or above the bit length of v are zero. */
  lemma SplitFixedNumberHighLimbsZero(v: nat, w: nat, n: nat, i: nat)
    requires i < n && w * i >= Bits(v)
    ensures SplitFixedNumber(v, w, n)[i] == 0
  {
    var d := Pow2(w * i);
    SplitFixedNumberDigit(v, w, n, i);
    Pow2Le(Bits(v), w * i);
    DivModUnique(v, d, 0, v);
    assert v / d == 0;
    DivModUnique(0, Pow2(w), 0, 0);
  }

  /** The other direction of the round trip: splitting the value of n
      in-range digits gives those digits back. */
  lemma {:induction false} SplitOfValue(s: seq<nat>, w: nat)
    requires DigitsBelow(s, w)
    ensures SplitFixedNumber(ValueLsbFirst(s, w), w, |s|) == s
  {
    if |s| > 0 {
      var p := Pow2(w);
      var v := ValueLsbFirst(s, w);
      var rest := ValueLsbFirst(s[1..], w);
      assert v == s[0] + rest * p;
      DivModUnique(v, p, rest, s[0]);
      assert DigitsBelow(s[1..], w) by {
        forall i | 0 <= i < |s| - 1 ensures s[1..][i] < p {
          assert s[1..][i] == s[i + 1];
        }
      }
      SplitOfValue(s[1..], w);
      assert s == [s[0]] + s[1..];
    }
  }

  /** The limb count of split_into_fixed_width_limbs: bits / w, plus one
      when w does not divide bits. */
  function NumLimbsFor(bits: nat, w: nat): (n: nat)
    requires w > 0
    ensures n == (bits + w - 1) / w
    ensures n * w >= bits
    ensures n > 0 ==> (n - 1) * w < bits
  {
    var q, r := bits / w, bits % w;
    assert bits == q * w + r;
    if r != 0 then
      assert bits + w - 1 == (q + 1) * w + (r - 1);
      DivModUnique(bits + w - 1, w, q + 1, r - 1);
      q + 1
    else
      assert bits + w - 1 == q * w + (w - 1);
      DivModUnique(bits + w - 1, w, q, w - 1);
      assert q > 0 ==> (q - 1) * w == q * w - w;
      q
  }

  /** split_into_fixed_width_limbs: as many w-bit limbs as v needs,
      most-significant first. It divides by w, so w == 0 is fatal. */
  function SplitFixedWidth(v: nat, w: nat): (r: Option<seq<nat>>)
    ensures r.None? <==> w == 0
    ensures r.Some? ==> |r.value| * w >= Bits(v)
    ensures r.Some? && |r.value| > 0 ==> (|r.value| - 1) * w < Bits(v)
    ensures r.Some? ==> DigitsBelow(r.value, w)
  {
    if w == 0 then None
    else
      var lsbFirst := SplitFixedNumber(v, w, NumLimbsFor(Bits(v), w));
      Some(Reverse(lsbFirst))
  }

  /** Limb i of the fixed-width split is digit |limbs| - 1 - i of v: the
      order is most-significant first. */
  lemma SplitFixedWidthDigits(v: nat, w: nat, i: nat)
    requires w > 0
    requires i < |SplitFixedWidth(v, w).value|
    ensures var limbs := SplitFixedWidth(v, w).value;
      limbs[i] == Digit(v, w, |limbs| - 1 - i)
  {
    var n := NumLimbsFor(Bits(v), w);
    var lsbFirst := SplitFixedNumber(v, w, n);
    var limbs := SplitFixedWidth(v, w).value;
    assert limbs == Reverse(lsbFirst);
    assert |limbs| == n;
    var j := n - 1 - i;
    assert limbs[i] == lsbFirst[j];
    SplitFixedNumberDigit(v, w, n, j);
  }

  /** Folding acc * 2^w + limb over the fixed-width split gives v back, and
      so does reading its reversal least-significant first. */
  lemma SplitFixedWidthRoundTrip(v: nat, w: nat)
    requires w > 0
    ensures HornerMsbFirst(SplitFixedWidth(v, w).value, w) == v
    ensures ValueLsbFirst(Reverse(SplitFixedWidth(v, w).value), w) == v
  {
    var n := NumLimbsFor(Bits(v), w);
    var lsbFirst := SplitFixedNumber(v, w, n);
    Pow2Le(Bits(v), n * w);
    assert n * w == w * n;
    SplitFixedNumberExact(v, w, n);
    HornerOfReverse(lsbFirst, w);
    ReverseReverse(lsbFirst);
  }

  /** Zero splits into no limbs at all; any other value into limbs whose
      leading (most significant) limb is non-zero. */
  lemma SplitFixedWidthMinimal(v: nat, w: nat)
    requires w > 0
    ensures |SplitFixedWidth(v, w).value| == 0 <==> v == 0
    ensures |SplitFixedWidth(v, w).value| > 0 ==> SplitFixedWidth(v, w).value[0] > 0
  {
    var limbs := SplitFixedWidth(v, w).value;
    var n := |limbs|;
    if n > 0 {
      var k := w * (n - 1);
      var d := Pow2(k);
      SplitFixedWidthDigits(v, w, 0);
      assert (n - 1) * w == k;
      Pow2Le(k, Bits(v) - 1);
      Pow2Le(Bits(v), w * n);
      MulSucc(w, n - 1);
      Pow2Add(k, w);
      DivBounds(v, d, Pow2(w));
      DivModUnique(v / d, Pow2(w), 0, v / d);
    }
  }

  /** The quotient of v by d is at least 1 and below b when d <= v < d * b. */
  lemma DivBounds(v: nat, d: nat, b: nat)
    requires 0 < d <= v < d * b
    ensures 1 <= v / d < b
  {
    if v / d >= b {
      MulLe(b, v / d, d);
    }
  }

  /** The worked example of 16-bit limbs for 0x1_2345: the fixed-width split
      is most-significant first, the three-limb split least-significant
      first, and reading the former least-significant first is wrong. */
  lemma SplitExample()
    ensures SplitFixedWidth(0x1_2345, 16) == Some([0x1, 0x2345])
    ensures SplitFixedNumber(0x1_2345, 16, 3) == [0x2345, 0x1, 0x0]
    ensures ValueLsbFirst([0x1, 0x2345], 16) != 0x1_2345
  {
    var v := 0x1_2345;
    assert Pow2(8) == 0x100;
    Pow2Add(8, 8);
    assert Pow2(17) == 2 * Pow2(16);
    BitsUnique(v, 17);
    assert NumLimbsFor(17, 16) == 2;
    assert Shr(v, 16) == 1 && Shr(1, 16) == 0;
    assert SplitFixedNumber(0, 16, 1) == [0];
    assert SplitFixedNumber(1, 16, 2) == [1, 0];
    assert SplitFixedNumber(v, 16, 2) == [0x2345, 1];
    assert Reverse([0x2345, 1]) == [1, 0x2345];
  }
}
