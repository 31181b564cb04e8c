/** mod_inverse: the inverse of el modulo a modulus by the extended
    Euclidean algorithm, with a negative Bezout coefficient moved into
    [0, modulus) by adding the modulus once. */
module ModularInverse {
  import opened Arith
  import opened Results

  /** d is a positive divisor of n. */
  predicate Divides(d: int, n: int)
  {
    d > 0 && n % d == 0
  }

  /** Euclid's greatest common divisor, the reference the inverse is judged by. */
  function Gcd(a: nat, b: nat): nat
    decreases b
  {
    if b == 0 then a else Gcd(b, a % b)
  }

  /** A gcd together with Bezout coefficients: gcd == a * x + b * y. */
  datatype Bezout = Bezout(gcd: nat, x: int, y: int)

  function Max1(a: nat): nat
  {
    if a > 1 then a else 1
  }

  lemma MulBetween(q: int, y: int, b: int)
    requires q >= 0 && -b <= y <= b
    ensures -(q * b) <= q * y <= q * b
  {
    MulLe(y, b, q);
    MulLe(-b, y, q);
  }

  /** The extended Euclidean algorithm on naturals. Besides the Bezout
      identity it keeps both coefficients small: |x| <= b and, for b > 0,
      -a <= y <= max(a, 1). */
  function ExtendedGcd(a: nat, b: nat): (r: Bezout)
    ensures r.gcd == a * r.x + b * r.y
    ensures b == 0 ==> r.x == 1 && r.y == 0
    ensures b > 0 ==> -(b as int) <= r.x <= b && -(a as int) <= r.y <= Max1(a)
    decreases b
  {
    if b == 0 then Bezout(a, 1, 0)
    else
      var q, rem := a / b, a % b;
      DivModSplit(a, b);
      var e := ExtendedGcd(b, rem);
      BezoutStep(a, b, q, rem, e.gcd, e.x, e.y);
      Bezout(e.gcd, e.y, e.x - q * e.y)
  }

  /** The extended algorithm computes the same gcd as Euclid's. */
  lemma {:induction false} ExtendedGcdIsGcd(a: nat, b: nat)
    ensures ExtendedGcd(a, b).gcd == Gcd(a, b)
    decreases b
  {
    if b > 0 {
      ExtendedGcdIsGcd(b, a % b);
    }
  }

  /** One step of the extended Euclidean algorithm keeps the Bezout identity
      and the coefficient bounds. */
  lemma BezoutStep(a: int, b: int, q: int, rem: int, g: int, x: int, y: int)
    requires b > 0 && q >= 0 && 0 <= rem < b && a == q * b + rem
    requires g == b * x + rem * y
    requires rem > 0 ==> -rem <= x <= rem && -b <= y <= b
    requires rem == 0 ==> x == 1 && y == 0
    ensures g == a * y + b * (x - q * y)
    ensures -b <= y <= b
    ensures -a <= x - q * y <= (if a > 1 then a else 1)
  {
    assert a * y == q * b * y + rem * y;
    if rem > 0 {
      MulBetween(q, y, b);
    }
  }

  /** A common divisor of a and b divides every integer combination of them. */
  lemma DividesLinear(d: int, a: int, b: int, x: int, y: int)
    requires Divides(d, a) && Divides(d, b)
    ensures Divides(d, a * x + b * y)
  {
    var ka, kb := a / d, b / d;
    assert a == ka * d;
    assert b == kb * d;
    assert a * x + b * y == (ka * x + kb * y) * d;
    ModAddMultiple(0, ka * x + kb * y, d);
  }

  /** A positive divisor of a positive number is at most that number. */
  lemma DividesLe(d: int, n: int)
    requires Divides(d, n) && n > 0
    ensures d <= n
  {
    var k := n / d;
    assert n == k * d;
    MulLe(1, k, d);
  }

  /** The gcd divides both arguments. */
  lemma {:induction false} GcdDivides(a: nat, b: nat)
    requires a > 0 || b > 0
    ensures Divides(Gcd(a, b), a) && Divides(Gcd(a, b), b)
    decreases b
  {
    if b == 0 {
      DivModUnique(a, a, 1, 0);
    } else {
      var q, rem := a / b, a % b;
      GcdDivides(b, rem);
      var g := Gcd(b, rem);
      DivModUnique(0, g, 0, 0);
      DividesLinear(g, b, rem, q, 1);
      assert a == b * q + rem * 1;
    }
  }

  /** The gcd is the greatest common divisor: every common divisor divides it. */
  lemma CommonDivisorDividesGcd(d: int, a: nat, b: nat)
    requires Divides(d, a) && Divides(d, b)
    ensures Divides(d, Gcd(a, b))
  {
    var e := ExtendedGcd(a, b);
    ExtendedGcdIsGcd(a, b);
    DividesLinear(d, a, b, e.x, e.y);
  }

  /** No multiple of a modulus above 1 equals 1. */
  lemma NoMultipleIsOne(m: int, k: int)
    requires m > 1
    ensures m * k != 1
  {
    if k >= 1 {
      MulLe(1, k, m);
    } else {
      MulLe(k, 0, m);
    }
  }

  /** The ways mod_inverse stops: el == 0 is a division by zero and
      gcd(modulus, el) != 1 fails an assertion. (The conversion of the
      normalised coefficient to an unsigned integer cannot fail: the model
      proves it non-negative.) */
  datatype InverseError = DivisionByZero | NotCoprime

  /** mod_inverse(el, modulus). */
  function ModInverse(el: nat, modulus: nat): (r: Result<nat, InverseError>)
    ensures r == Failure(DivisionByZero) <==> el == 0
    ensures r == Failure(NotCoprime) <==> el != 0 && Gcd(modulus, el) != 1
    ensures r.Success? && modulus > 1 ==> r.value < modulus && (r.value * el) % modulus == 1
  {
    if el == 0 then Failure(DivisionByZero)
    else
      var e := ExtendedGcd(modulus, el);
      ExtendedGcdIsGcd(modulus, el);
      if e.gcd != 1 then Failure(NotCoprime)
      else
        InverseOfBezout(el, modulus, e);
        if e.y < 0 then
          var y: nat := e.y + modulus;
          Success(y)
        else Success(e.y)
  }

  lemma BezoutRearrange(m: int, el: int, x: int, y: int)
    requires m * x + el * y == 1
    ensures y * el == 1 + (-x) * m
  {
    assert el * y == y * el;
    assert m * x == x * m;
  }

  /** The coefficient of el in a Bezout identity with gcd 1 is, after at
      most one addition of the modulus, the inverse in [0, modulus). */
  lemma InverseOfBezout(el: nat, modulus: nat, e: Bezout)
    requires el > 0 && e == ExtendedGcd(modulus, el) && e.gcd == 1
    ensures e.y + modulus >= 0
    ensures modulus > 1 ==> e.y < modulus
    ensures modulus > 1 ==> (e.y * el) % modulus == 1
    ensures modulus > 1 ==> ((e.y + modulus) * el) % modulus == 1
  {
    if modulus == 0 {
      assert ExtendedGcd(el, 0) == Bezout(el, 1, 0);
      assert e.y == 1;
    }
    if modulus > 1 {
      CoefficientIsInverse(el, modulus, e.x, e.y);
    }
  }

  lemma CoefficientIsInverse(el: int, m: int, x: int, y: int)
    requires m > 1 && m * x + el * y == 1 && y <= m
    ensures y < m
    ensures (y * el) % m == 1
    ensures ((y + m) * el) % m == 1
  {
    BezoutRearrange(m, el, x, y);
    ModAddMultiple(1, -x, m);
    DivModUnique(1, m, 0, 1);
    assert (y + m) * el == y * el + el * m;
    ModAddMultiple(y * el, el, m);
    if y == m {
      assert m * (x + el) == 1;
      NoMultipleIsOne(m, x + el);
      assert false;
    }
  }

  /** Completeness: whenever el has an inverse modulo modulus > 1,
      mod_inverse finds one. */
  lemma InverseExistsImpliesSuccess(el: nat, modulus: nat, z: int)
    requires modulus > 1 && (z * el) % modulus == 1
    ensures ModInverse(el, modulus).Success?
  {
    if el == 0 {
      DivModUnique(0, modulus, 0, 0);
    } else {
      var g := Gcd(modulus, el);
      GcdDivides(modulus, el);
      var k := (z * el) / modulus;
      assert el * z + modulus * (-k) == 1;
      DividesLinear(g, el, modulus, z, -k);
      DividesLe(g, 1);
    }
  }

  /** With modulus 1 the code still returns a value, 1, which is not below
      the modulus: the final debug assertion is the only guard there. */
  lemma ModulusOneReturnsOne()
    ensures ModInverse(1, 1) == Success(1)
  {
    assert ExtendedGcd(1, 0) == Bezout(1, 1, 0);
    assert ExtendedGcd(1, 1) == Bezout(1, 0, 1);
  }
}
