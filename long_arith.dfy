/** Java `long` arithmetic over mathematical integers: the int64 range, the
    truncating `/` and `%` of Java, the shift and mask idioms used by the
    rounding code, and the table of powers of ten shared by the library. */
module LongArith {

  const LONG_MIN: int := -0x8000_0000_0000_0000
  const LONG_MAX: int := 0x7FFF_FFFF_FFFF_FFFF
  const INT_MIN: int := -0x8000_0000
  const INT_MAX: int := 0x7FFF_FFFF

  /** x fits a Java `long`. */
  predicate IsLong(x: int) {
    LONG_MIN <= x <= LONG_MAX
  }

  /** x fits a Java `int`. */
  predicate IsInt(x: int) {
    INT_MIN <= x <= INT_MAX
  }

  function Abs(x: int): nat {
    if x < 0 then -x else x
  }

  function Max(a: int, b: int): int {
    if a >= b then a else b
  }

  function Min(a: int, b: int): int {
    if a <= b then a else b
  }

  /** Long.signum. */
  function Sign(x: int): (r: int)
    ensures r == -1 || r == 0 || r == 1
    ensures r < 0 <==> x < 0
    ensures r > 0 <==> x > 0
  {
    if x < 0 then -1 else if x == 0 then 0 else 1
  }

  /** 10^k as a mathematical integer. */
  function Pow10(k: nat): (r: nat)
    ensures r >= 1
  {
    if k == 0 then 1 else 10 * Pow10(k - 1)
  }

  lemma {:induction false} Pow10Add(i: nat, j: nat)
    ensures Pow10(i + j) == Pow10(i) * Pow10(j)
  {
    if i > 0 {
      Pow10Add(i - 1, j);
      assert Pow10(i + j) == 10 * Pow10(i - 1 + j);
    }
  }

  lemma {:induction false} Pow10Monotone(i: nat, j: nat)
    requires i <= j
    ensures Pow10(i) <= Pow10(j)
  {
    if i < j {
      Pow10Monotone(i, j - 1);
    }
  }

  lemma Pow10Even(k: nat)
    requires k >= 1
    ensures Pow10(k) % 2 == 0
  {
    assert Pow10(k) == 2 * (5 * Pow10(k - 1));
  }

  lemma Pow10FitsLong(k: nat)
    requires k <= 18
    ensures IsLong(Pow10(k))
  {
    Pow10Monotone(k, 18);
    PowersOfTenTable();
    assert Pow10(18) == POWERS_OF_TEN[18];
  }

  /** 10^18, the number 1 on the finest grid any value can use. */
  const E18: int := 1000000000000000000

  /** Scaling by 10^s and then by 10^(18 - s) scales by 10^18. */
  lemma Pow10Complement(s: nat)
    requires s <= 18
    ensures Pow10(s) * Pow10(18 - s) == E18
  {
    var t := 18 - s;
    Pow10Add(s, t);
    Pow10Eighteen();
  }

  lemma Pow10Eighteen()
    ensures Pow10(18) == E18
  {
    PowersOfTenTable();
    assert POWERS_OF_TEN[18] == Pow10(18);
  }

  /** The `powersOfTen` table of FixedPointBase and FixedPointNative: 10^0 .. 10^18. */
  const POWERS_OF_TEN: seq<int> := [
    1, 10, 100, 1000, 10000, 100000, 1000000, 10000000, 100000000, 1000000000,
    10000000000,
    100000000000,
    1000000000000,
    10000000000000,
    100000000000000,
    1000000000000000,
    10000000000000000,
    100000000000000000,
    1000000000000000000
  ]

  lemma PowersOfTenTable()
    ensures |POWERS_OF_TEN| == 19
    ensures forall k :: 0 <= k < 19 ==> POWERS_OF_TEN[k] == Pow10(k)
  {
    var k := 0;
    while k < 19
      invariant 0 <= k <= 19
      invariant forall i :: 0 <= i < k ==> POWERS_OF_TEN[i] == Pow10(i)
    {
      if k > 0 {
        assert POWERS_OF_TEN[k] == 10 * POWERS_OF_TEN[k - 1];
      }
      k := k + 1;
    }
  }

  /** `powersOfTen[k]`; the requires is the array bound, so every use of the
      table in the model is proved to stay inside it. */
  function PowerOfTen(k: int): (r: int)
    requires 0 <= k <= 18
    ensures k >= 0 && r == Pow10(k)
    ensures IsLong(r)
  {
    PowersOfTenTable();
    Pow10FitsLong(k);
    POWERS_OF_TEN[k]
  }

  /** Java `a / b` on longs: the quotient truncated toward zero. */
  function JavaDiv(a: int, b: int): int
    requires b != 0
  {
    var q := Abs(a) / Abs(b);
    if (a >= 0) == (b > 0) then q else -q
  }

  /** Java `a % b` on longs: the remainder takes the sign of the dividend,
      so that `(a / b) * b + a % b == a` (JavaDivRem). */
  function JavaRem(a: int, b: int): int
    requires b != 0
  {
    if a >= 0 then Abs(a) % Abs(b) else -(Abs(a) % Abs(b))
  }

  lemma JavaDivRem(a: int, b: int)
    requires b != 0
    ensures a == JavaDiv(a, b) * b + JavaRem(a, b)
    ensures Abs(JavaRem(a, b)) < Abs(b)
    ensures JavaRem(a, b) == 0 || (JavaRem(a, b) > 0 <==> a > 0)
    ensures Abs(JavaDiv(a, b) * b) <= Abs(a)
  {
    JavaRemSign(a, b);
    JavaDivRemSum(a, b);
  }

  lemma JavaDivRemSum(a: int, b: int)
    requires b != 0
    ensures a == JavaDiv(a, b) * b + JavaRem(a, b)
    ensures Abs(JavaDiv(a, b) * b) <= Abs(a)
  {
    var q := Abs(a) / Abs(b);
    var r := Abs(a) % Abs(b);
    var qb := q * Abs(b);
    assert Abs(a) == qb + r;
    assert qb >= 0 by {
      MulLeMonotone(0, q, Abs(b));
    }
    JavaDivTimes(a, b, q);
    assert JavaDiv(a, b) * b == (if a >= 0 then qb else -qb);
  }

  lemma JavaRemSign(a: int, b: int)
    requires b != 0
    ensures Abs(JavaRem(a, b)) < Abs(b)
    ensures JavaRem(a, b) == 0 || (JavaRem(a, b) > 0 <==> a > 0)
  {
    if a == 0 {
      assert 0 % Abs(b) == 0;
    }
  }

  /** For a positive divisor, Java's quotient and remainder in terms of
      Dafny's Euclidean ones. */
  lemma JavaDivPositive(a: int, b: int)
    requires b > 0
    ensures a >= 0 ==> JavaDiv(a, b) == a / b && JavaRem(a, b) == a % b
    ensures a < 0 ==> JavaDiv(a, b) == -((-a) / b) && JavaRem(a, b) == -((-a) % b)
  {
  }

  lemma JavaDivTimes(a: int, b: int, q: int)
    requires b != 0 && q == Abs(a) / Abs(b)
    ensures JavaDiv(a, b) * b == (if a >= 0 then q * Abs(b) else -(q * Abs(b)))
  {
    if a >= 0 && b > 0 {
      assert JavaDiv(a, b) == q;
    } else if a < 0 && b > 0 {
      assert JavaDiv(a, b) == -q;
      assert (-q) * b == -(q * b);
    } else if a >= 0 && b < 0 {
      assert JavaDiv(a, b) == -q;
      assert (-q) * b == q * (-b);
    } else {
      assert JavaDiv(a, b) == q;
      assert q * b == -(q * (-b));
    }
  }

  /** Dividing a long by an int other than 0, 1 and -1 cannot overflow: the
      quotient, the product quotient * divisor and the remainder fit a long. */
  lemma JavaDivFits(a: int, b: int)
    requires IsLong(a) && IsInt(b) && Abs(b) >= 2
    ensures IsLong(JavaDiv(a, b)) && IsLong(JavaDiv(a, b) * b) && IsLong(a - JavaDiv(a, b) * b)
    ensures a - JavaDiv(a, b) * b == JavaRem(a, b)
  {
    var n: int, c: int := Abs(a), Abs(b);
    var q: int := n / c;
    QuotientBounds(n, c, q);
    var d: int := JavaDiv(a, b);
    assert d == q || d == -q;
    JavaDivTimes(a, b, q);
    var p: int := d * b;
    var qc: int := q * c;
    assert p == if a >= 0 then qc else -qc;
    JavaDivRem(a, b);
    assert Abs(JavaRem(a, b)) < c;
  }

  lemma QuotientBounds(n: int, c: int, q: int)
    requires n >= 0 && c >= 2 && q == n / c
    ensures 0 <= q * c <= n && 2 * q <= n
  {
    assert n == q * c + n % c;
    MulLeMonotone(0, q, c);
    MulLeMonotone(2, c, q);
  }

  /** Euclidean quotient and remainder are unique. */
  lemma EuclidUnique(n: int, c: int, q: int, r: int)
    requires c > 0 && n == q * c + r && 0 <= r < c
    ensures n / c == q && n % c == r
  {
    var q0, r0 := n / c, n % c;
    assert q0 * c + r0 == q * c + r;
    assert (q0 - q) * c == r - r0;
    if q0 > q {
      MulLeMonotone(1, q0 - q, c);
    } else if q0 < q {
      MulLeMonotone(1, q - q0, c);
    }
  }

  /** `x >> 1` on a long: an arithmetic shift rounds toward minus infinity,
      which is what Dafny's Euclidean division by 2 does. */
  function ShiftRightOne(x: int): int {
    x / 2
  }

  /** `x & 1` on a long: the low bit of the two's complement representation,
      0 for even and 1 for odd x, whatever the sign. */
  function LowBit(x: int): int {
    x % 2
  }

  /** 2^64, the modulus of Java long arithmetic. */
  const LONG_MODULUS: int := 0x1_0000_0000_0000_0000

  /** How far x lies outside the long range. */
  function WrapDistance(x: int): nat {
    if x < LONG_MIN then LONG_MIN - x else if x > LONG_MAX then x - LONG_MAX else 0
  }

  /** The two's complement wrap-around of a Java long operation: the long
      congruent to x modulo 2^64, found by stepping by 2^64 into range. */
  function Wrap64(x: int): (r: int)
    ensures IsLong(r)
    decreases WrapDistance(x)
  {
    if x < LONG_MIN then Wrap64(x + LONG_MODULUS)
    else if x > LONG_MAX then Wrap64(x - LONG_MODULUS)
    else x
  }

  /** A result that fits a long does not wrap. */
  lemma Wrap64Exact(x: int)
    ensures IsLong(x) ==> Wrap64(x) == x
  {
  }

  lemma ModShift(a: int)
    ensures (a + LONG_MODULUS) % LONG_MODULUS == a % LONG_MODULUS
  {
    EuclidUnique(a + LONG_MODULUS, LONG_MODULUS, a / LONG_MODULUS + 1, a % LONG_MODULUS);
  }

  /** The closed form: Wrap64 is the Euclidean remainder, shifted. */
  lemma {:induction false} Wrap64Closed(x: int)
    ensures Wrap64(x) == (x - LONG_MIN) % LONG_MODULUS + LONG_MIN
    decreases WrapDistance(x)
  {
    if x < LONG_MIN {
      Wrap64Closed(x + LONG_MODULUS);
      ModShift(x - LONG_MIN);
    } else if x > LONG_MAX {
      Wrap64Closed(x - LONG_MODULUS);
      ModShift(x - LONG_MODULUS - LONG_MIN);
    } else {
      EuclidUnique(x - LONG_MIN, LONG_MODULUS, 0, x - LONG_MIN);
    }
  }

  /** Congruent integers wrap to the same long. */
  lemma Wrap64Congruent(x: int, y: int, k: int)
    requires x - y == k * LONG_MODULUS
    ensures Wrap64(x) == Wrap64(y)
  {
    Wrap64Closed(x);
    Wrap64Closed(y);
    var q, r := (y - LONG_MIN) / LONG_MODULUS, (y - LONG_MIN) % LONG_MODULUS;
    assert x - LONG_MIN == (q + k) * LONG_MODULUS + r;
    EuclidUnique(x - LONG_MIN, LONG_MODULUS, q + k, r);
  }

  /** Wrapping differs from x by a multiple of 2^64. */
  lemma Wrap64Offset(x: int)
    ensures x - Wrap64(x) == ((x - LONG_MIN) / LONG_MODULUS) * LONG_MODULUS
  {
    Wrap64Closed(x);
  }

  /** An operand that wrapped early gives the same final long: wrapping
      commutes with addition and subtraction. */
  lemma Wrap64Left(a: int, b: int)
    ensures Wrap64(Wrap64(a) + b) == Wrap64(a + b)
    ensures Wrap64(Wrap64(a) - b) == Wrap64(a - b)
  {
    Wrap64Offset(a);
    Wrap64Congruent(a + b, Wrap64(a) + b, (a - LONG_MIN) / LONG_MODULUS);
    Wrap64Congruent(a - b, Wrap64(a) - b, (a - LONG_MIN) / LONG_MODULUS);
  }

  lemma Wrap64Right(a: int, b: int)
    ensures Wrap64(a + Wrap64(b)) == Wrap64(a + b)
    ensures Wrap64(a - Wrap64(b)) == Wrap64(a - b)
  {
    Wrap64Offset(b);
    Wrap64Congruent(a + b, a + Wrap64(b), (b - LONG_MIN) / LONG_MODULUS);
    Wrap64Congruent(a - b, a - Wrap64(b), -((b - LONG_MIN) / LONG_MODULUS));
  }

  /** The two wrapped ways of computing a difference, a - b and b - a with
      a negated first, give the wrapped exact ones. */
  lemma Wrap64Differences(a: int, b: int, d: int, e: int)
    requires d == a - b && e == b - a
    ensures Wrap64(a - Wrap64(b)) == Wrap64(d)
    ensures Wrap64(Wrap64(-a) + Wrap64(b)) == Wrap64(e)
  {
    Wrap64Right(a, b);
    Wrap64Left(-a, Wrap64(b));
    Wrap64Right(-a, b);
    assert -a + b == e;
  }

  /** The wrapped sum a + b, with b wrapped first, gives the wrapped exact
      one. */
  lemma Wrap64Sum(a: int, b: int, t: int)
    requires t == a + b
    ensures Wrap64(a + Wrap64(b)) == Wrap64(t)
  {
    Wrap64Right(a, b);
  }

  /** Adding n * p, where n is the wrapped negation of m, is subtracting
      m * p. */
  lemma Wrap64NegScaled(a: int, m: int, n: int, p: int, c: int, d: int)
    requires n == Wrap64(-m) && c == n * p && d == a - m * p
    ensures Wrap64(a + c) == Wrap64(d)
  {
    Wrap64Mul(-m, p);
    Wrap64Right(a, c);
    Wrap64Right(a, -m * p);
    assert a + -m * p == d;
  }

  lemma Wrap64Mul(a: int, c: int)
    ensures Wrap64(Wrap64(a) * c) == Wrap64(a * c)
    ensures Wrap64(c * Wrap64(a)) == Wrap64(c * a)
  {
    var q := (a - LONG_MIN) / LONG_MODULUS;
    Wrap64Offset(a);
    assert a * c - Wrap64(a) * c == (q * c) * LONG_MODULUS by {
      assert a * c - Wrap64(a) * c == (a - Wrap64(a)) * c;
    }
    Wrap64Congruent(a * c, Wrap64(a) * c, q * c);
  }

  /** `a - b` on longs where the model shows that no wrap-around can happen. */
  function Sub64(a: int, b: int): int
    requires IsLong(a) && IsLong(b) && IsLong(a - b)
  {
    a - b
  }

  /** `a * b` on longs where the model shows that no wrap-around can happen. */
  function Mul64(a: int, b: int): int
    requires IsLong(a) && IsLong(b) && IsLong(a * b)
  {
    a * b
  }

  /** Multiplying by a positive factor keeps the sign. */
  lemma SignMulPos(x: int, c: int)
    requires c > 0
    ensures Sign(x * c) == Sign(x)
  {
    if x > 0 {
      MulLeMonotone(1, x, c);
    } else if x < 0 {
      MulLeMonotone(1, -x, c);
      assert x * c == -((-x) * c);
    }
  }

  lemma MulLeMonotone(a: int, b: int, c: int)
    requires a <= b && c >= 0
    ensures a * c <= b * c
  {
    assert b * c - a * c == (b - a) * c;
  }

  lemma MulAssoc(a: int, b: int, c: int)
    ensures (a * b) * c == a * (b * c)
  {
  }

  lemma MulDistrib(a: int, b: int, c: int)
    ensures (a + b) * c == a * c + b * c
    ensures (a - b) * c == a * c - b * c
  {
  }
}
