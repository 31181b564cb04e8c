/** The 64-bit word arrays that hold a field element's canonical
    representation, stored least-significant word first, and the two
    routines that read them: get_num_bits and repr_to_biguint. */
module Words {
  import opened Arith
  import opened Radix

  const WORD_BITS: nat := 64

  /** An unsigned 64-bit machine word. */
  type u64 = x: nat | x < 0x1_0000_0000_0000_0000

  lemma Pow2WordBits()
    ensures Pow2(WORD_BITS) == 0x1_0000_0000_0000_0000
  {
    assert Pow2(8) == 0x100;
    Pow2Add(8, 8);
    Pow2Add(16, 16);
    Pow2Add(32, 32);
  }

  /** Every element of a word array is below 2^64. */
  lemma WordsAreDigits(words: seq<u64>)
    ensures DigitsBelow(words, WORD_BITS)
  {
    Pow2WordBits();
  }

  /** u64::leading_zeros: the number of zero bits above the highest set bit
      of the word, 64 for the zero word. */
  function LeadingZeros(x: u64): (r: nat)
    ensures r <= WORD_BITS
    ensures r == WORD_BITS <==> x == 0
    ensures x < Pow2(WORD_BITS - r)
    ensures r < WORD_BITS ==> Pow2(WORD_BITS - 1 - r) <= x
  {
    Pow2WordBits();
    BitsAtMost(x, WORD_BITS);
    WORD_BITS - Bits(x)
  }

  /** The bit length of a word array is fixed by its highest non-zero word. */
  lemma ValueOfTopWord(words: seq<nat>, i: nat)
    requires DigitsBelow(words, WORD_BITS)
    requires 0 < i <= |words| && words[i - 1] != 0
    requires forall j :: i <= j < |words| ==> words[j] == 0
    ensures Bits(ValueLsbFirst(words, WORD_BITS)) == WORD_BITS * (i - 1) + Bits(words[i - 1])
  {
    var low, top, high := words[..i - 1], words[i - 1], words[i..];
    var k := WORD_BITS * (i - 1);
    assert words == low + ([top] + high);
    assert ([top] + high)[1..] == high;
    ValueOfZeros(high, WORD_BITS);
    assert ValueLsbFirst([top] + high, WORD_BITS) == top;
    ValueLsbFirstAppend(low, [top] + high, WORD_BITS);
    var lowValue := ValueLsbFirst(low, WORD_BITS);
    assert |low| == i - 1;
    var shifted := Pow2(WORD_BITS * |low|);
    assert shifted == Pow2(k);
    assert ValueLsbFirst(low + ([top] + high), WORD_BITS) == lowValue + shifted * top;
    assert ValueLsbFirst(words, WORD_BITS) == ValueLsbFirst(low + ([top] + high), WORD_BITS);
    assert DigitsBelow(low, WORD_BITS) by {
      forall j | 0 <= j < |low| ensures low[j] < Pow2(WORD_BITS) {
        assert low[j] == words[j];
      }
    }
    ValueLsbFirstBound(low, WORD_BITS);
    BitsOfHighWord(lowValue, top, k);
  }

  /** get_num_bits: start from the full width, drop 64 bits for every zero
      word from the top, then the leading zeros of the first non-zero word. */
  method NumBitsOfRepr(words: seq<u64>) returns (numBits: nat)
    ensures numBits == Bits(ValueLsbFirst(words, WORD_BITS))
    ensures numBits <= WORD_BITS * |words|
    ensures (forall j :: 0 <= j < |words| ==> words[j] == 0) <==> numBits == 0
    ensures numBits > 0 ==>
      Pow2(numBits - 1) <= ValueLsbFirst(words, WORD_BITS) < Pow2(numBits)
  {
    numBits := |words| * WORD_BITS;
    var i := |words|;
    while i > 0 && words[i - 1] == 0
      invariant 0 <= i <= |words|
      invariant numBits == WORD_BITS * i
      invariant forall j :: i <= j < |words| ==> words[j] == 0
    {
      numBits := numBits - WORD_BITS;
      i := i - 1;
    }
    WordsAreDigits(words);
    if i > 0 {
      numBits := numBits - LeadingZeros(words[i - 1]);
      ValueOfTopWord(words, i);
    } else {
      ValueOfZeros(words, WORD_BITS);
    }
  }

  /** repr_to_biguint: shift the accumulator left by 64 and add the next
      word, walking from the last (most significant) word down to word 0. */
  method ReprToBigUint(words: seq<u64>) returns (b: nat)
    ensures b == ValueLsbFirst(words, WORD_BITS)
    ensures b < Pow2(WORD_BITS * |words|)
  {
    b := 0;
    var i := |words|;
    while i > 0
      invariant 0 <= i <= |words|
      invariant b == ValueLsbFirst(words[i..], WORD_BITS)
    {
      assert words[i - 1..][1..] == words[i..];
      b := b * Pow2(WORD_BITS) + words[i - 1];
      i := i - 1;
    }
    assert words[0..] == words;
    WordsAreDigits(words);
    ValueLsbFirstBound(words, WORD_BITS);
  }
}
