/** Facts about powers of two, Euclidean division and bit lengths of
    natural numbers, shared by every radix conversion of the model. */
module Arith {

  /** 2^n. */
  function Pow2(n: nat): (r: nat)
    ensures r >= 1
  {
    if n == 0 then 1 else 2 * Pow2(n - 1)
  }

  lemma {:induction false} Pow2Add(a: nat, b: nat)
    ensures Pow2(a + b) == Pow2(a) * Pow2(b)
    decreases a
  {
    if a > 0 {
      Pow2Add(a - 1, b);
    }
  }

  lemma {:induction false} Pow2Le(a: nat, b: nat)
    requires a <= b
    ensures Pow2(a) <= Pow2(b)
    decreases b
  {
    if a < b {
      Pow2Le(a, b - 1);
    }
  }

  lemma Pow2Lt(a: nat, b: nat)
    requires a < b
    ensures Pow2(a) < Pow2(b)
  {
    Pow2Le(a, b - 1);
  }

  /** Monotonicity of multiplication by a non-negative factor. */
  lemma MulLe(a: int, b: int, c: int)
    requires a <= b && c >= 0
    ensures a * c <= b * c
  {
  }

  /** One more digit below p on top of a value below q stays below p * q. */
  lemma DigitStep(d: int, rest: int, p: int, q: int)
    requires 0 <= d < p && 0 <= rest < q
    ensures d + p * rest < p * q
  {
    MulLe(rest, q - 1, p);
    assert (q - 1) * p == q * p - p;
  }

  lemma MulDistrib(p: int, a: int, b: int, q: int)
    ensures p * (a + q * b) == p * a + (p * q) * b
  {
    assert p * (q * b) == (p * q) * b;
  }

  lemma MulSucc(w: nat, n: nat)
    ensures w + w * n == w * (n + 1)
  {
  }

  lemma DivNonNegative(v: nat, d: nat)
    requires d > 0
    ensures v / d >= 0
  {
  }

  lemma DivModSplit(v: int, d: int)
    requires d > 0
    ensures v == (v / d) * d + v % d
  {
  }

  /** Quotient and remainder are determined by the division identity. */
  lemma DivModUnique(v: int, d: int, q: int, r: int)
    requires d > 0 && 0 <= r < d && v == q * d + r
    ensures v / d == q && v % d == r
  {
    var k := q - v / d;
    assert k * d == v % d - r;
    if k > 0 {
      MulLe(1, k, d);
      assert false;
    } else if k < 0 {
      MulLe(k, -1, d);
      assert false;
    }
  }

  /** Adding a multiple of the divisor leaves the remainder unchanged. */
  lemma ModAddMultiple(x: int, k: int, d: int)
    requires d > 0
    ensures (x + k * d) % d == x % d
    ensures (x + k * d) / d == x / d + k
  {
    DivModUnique(x + k * d, d, x / d + k, x % d);
  }

  /** The remainder of a product depends only on the remainder of a factor. */
  lemma ModMulLeft(a: int, b: int, d: int)
    requires d > 0
    ensures (a * b) % d == ((a % d) * b) % d
  {
    var q := a / d;
    assert a * b == (a % d) * b + (q * b) * d;
    ModAddMultiple((a % d) * b, q * b, d);
  }

  /** Dividing by x then by y is dividing by x * y, and the remainder
      modulo x * y splits into the two digit remainders. */
  lemma DivDiv(v: nat, x: nat, y: nat)
    requires x > 0 && y > 0
    ensures v / x / y == v / (x * y)
    ensures v % (x * y) == v % x + x * ((v / x) % y)
  {
    var q1, r1 := v / x, v % x;
    var q2, r2 := q1 / y, q1 % y;
    assert v == q2 * (x * y) + (r2 * x + r1);
    MulLe(r2, y - 1, x);
    DivModUnique(v, x * y, q2, r2 * x + r1);
  }

  /** The number of bits of v: position of the highest set bit plus one,
      and 0 for v == 0. */
  function Bits(v: nat): (n: nat)
    ensures n == 0 <==> v == 0
    ensures v < Pow2(n)
    ensures v > 0 ==> Pow2(n - 1) <= v
  {
    if v == 0 then 0 else 1 + Bits(v / 2)
  }

  /** The bit length is the unique n with 2^(n-1) <= v < 2^n. */
  lemma {:induction false} BitsUnique(v: nat, n: nat)
    requires v < Pow2(n)
    requires n > 0 ==> Pow2(n - 1) <= v
    ensures Bits(v) == n
    decreases n
  {
    if n > 0 {
      BitsUnique(v / 2, n - 1);
    }
  }

  /** v fits in k bits exactly when its bit length is at most k. */
  lemma BitsAtMost(v: nat, k: nat)
    ensures v < Pow2(k) <==> Bits(v) <= k
  {
    if Bits(v) <= k {
      Pow2Le(Bits(v), k);
    } else {
      Pow2Le(k, Bits(v) - 1);
    }
  }

  lemma {:induction false} BitsOfPow2(k: nat)
    ensures Bits(Pow2(k)) == k + 1
    ensures Bits(Pow2(k) - 1) == k
  {
    var p := Pow2(k);
    assert Pow2(k + 1) == 2 * p;
    BitsUnique(p, k + 1);
    if k > 0 {
      Pow2Lt(k - 1, k);
    }
    BitsUnique(p - 1, k);
  }

  /** Placing w above a k-bit value shifts w's bit length by k. */
  lemma {:induction false} BitsOfHighWord(low: nat, w: nat, k: nat)
    requires low < Pow2(k) && w > 0
    ensures Bits(low + Pow2(k) * w) == k + Bits(w)
  {
    var b := Bits(w);
    var pk := Pow2(k);
    var v := low + pk * w;
    assert pk * w == w * pk;
    Pow2Add(b - 1, k);
    Pow2Add(b, k);
    MulLe(Pow2(b - 1), w, pk);
    MulLe(w, Pow2(b) - 1, pk);
    assert (Pow2(b) - 1) * pk == Pow2(b) * pk - pk;
    assert Pow2(k + b - 1) <= v;
    assert v < Pow2(k + b);
    BitsUnique(v, k + b);
  }
}
