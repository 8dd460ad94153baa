/** `FixedPointBase`: the immutable fixed-point value (a long mantissa and a
    decimal scale, worth mantissa * 10^-scale) and every operation shared by
    the fixed-scale types and VariableUnits. */
module FixedPointBase {
  import opened Wrappers
  import opened LongArith
  import opened Rounding
  import opened FixedPointNative

  /** The concrete class of a value.  Each fixed-scale class has a constant
      number of decimals; VariableUnits carries its scale per instance. */
  datatype ScaleType = Units | MilliUnits | MicroUnits | PicoUnits | VariableUnits {

    predicate IsFixed() {
      !VariableUnits?
    }

    /** The class constant DECIMALS. */
    function Decimals(): nat
      requires IsFixed()
    {
      match this
      case Units => 0
      case MilliUnits => 3
      case MicroUnits => 6
      case PicoUnits => 12
    }

    /** The class constant UNIT_MANTISSA, the mantissa of the number 1. */
    function UnitMantissa(): (r: int)
      requires IsFixed()
      ensures r == Pow10(Decimals())
    {
      PowersOfTenTable();
      assert POWERS_OF_TEN[Decimals()] == Pow10(Decimals());
      match this
      case Units => 1
      case MilliUnits => 1000
      case MicroUnits => 1000000
      case PicoUnits => 1000000000000
    }
  }

  /** A fixed-point value of class `tag`.  Value equality of two FixedPoint
      values is the source's `equals`: same class, scale and mantissa. */
  datatype FixedPoint = FixedPoint(tag: ScaleType, mantissa: int, scale: int)

  /** The mantissa is a long, the scale lies in 0..18, and a fixed-scale class
      always has its own number of decimals. */
  predicate Valid(x: FixedPoint) {
    IsLong(x.mantissa) && 0 <= x.scale <= 18 &&
    (x.tag.IsFixed() ==> x.scale == x.tag.Decimals())
  }

  /** The number x stands for, as an integer multiple of 10^-18. */
  function Value18(x: FixedPoint): int
    requires 0 <= x.scale <= 18
  {
    x.mantissa * Pow10(18 - x.scale)
  }

  /** getUnitAsLong: the mantissa of the number 1 at x's scale. */
  function UnitAsLong(x: FixedPoint): (r: int)
    requires Valid(x)
    ensures r == Pow10(x.scale) && IsLong(r)
  {
    if x.tag.IsFixed() then x.tag.UnitMantissa() else PowerOfTen(x.scale)
  }

  /** getZero: 0 in the class and scale of x. */
  function Zero(x: FixedPoint): FixedPoint {
    FixedPoint(x.tag, 0, x.scale)
  }

  /** getUnit: 1 in the class and scale of x. */
  function One(x: FixedPoint): (r: FixedPoint)
    requires Valid(x)
    ensures Valid(r) && Value18(r) == E18
  {
    Pow10Complement(x.scale);
    FixedPoint(x.tag, UnitAsLong(x), x.scale)
  }

  /** newInstanceOf(m): the cached zero or one, x itself when m is its own
      mantissa, otherwise a new value; all of them are the value (class of x,
      m, scale of x), so the caching cannot be observed. */
  function NewInstanceOf(x: FixedPoint, m: int): (r: FixedPoint)
    requires Valid(x) && IsLong(m)
    ensures Valid(r) && r == FixedPoint(x.tag, m, x.scale)
    ensures m == 0 ==> r == Zero(x)
    ensures m == UnitAsLong(x) ==> r == One(x)
    ensures m == x.mantissa ==> r == x
  {
    if m == 0 then Zero(x)
    else if m == UnitAsLong(x) then One(x)
    else if m == x.mantissa then x
    else FixedPoint(x.tag, m, x.scale)
  }

  /** signum. */
  function Signum(x: FixedPoint): (r: int)
    requires Valid(x)
    ensures r == Sign(Value18(x))
  {
    SignMulPos(x.mantissa, Pow10(18 - x.scale));
    Sign(x.mantissa)
  }

  /** isOne: numerically equal to 1. */
  function IsOne(x: FixedPoint): (b: bool)
    requires Valid(x)
    ensures b <==> Value18(x) == E18
  {
    Pow10Complement(x.scale);
    ScaledEq(x.mantissa, Pow10(x.scale), Pow10(18 - x.scale));
    x.mantissa == UnitAsLong(x)
  }

  /** isMinusOne: numerically equal to -1. */
  function IsMinusOne(x: FixedPoint): (b: bool)
    requires Valid(x)
    ensures b <==> Value18(x) == -E18
  {
    MinusOneScaled(x.mantissa, x.scale);
    x.mantissa == -UnitAsLong(x)
  }

  /** isZero. */
  function IsZero(x: FixedPoint): (b: bool)
    requires Valid(x)
    ensures b <==> Value18(x) == 0
  {
    ScaledEq(x.mantissa, 0, Pow10(18 - x.scale));
    x.mantissa == 0
  }

  lemma MinusOneScaled(m: int, s: nat)
    requires s <= 18
    ensures m == -(Pow10(s) as int) <==> m * Pow10(18 - s) == -E18
  {
    Pow10Complement(s);
    NegatedProduct(Pow10(s), Pow10(18 - s), E18);
    ScaledEq(m, -(Pow10(s) as int), Pow10(18 - s));
  }

  lemma NegatedProduct(a: int, b: int, c: int)
    requires a * b == c
    ensures (-a) * b == -c
  {
  }

  /** isNotZero. */
  function IsNotZero(x: FixedPoint): (b: bool)
    requires Valid(x)
    ensures b <==> Value18(x) != 0
  {
    ScaledEq(x.mantissa, 0, Pow10(18 - x.scale));
    x.mantissa != 0
  }

  /** Multiplying both sides by a positive factor keeps equality both ways. */
  lemma ScaledEq(a: int, b: int, c: int)
    requires c > 0
    ensures a == b <==> a * c == b * c
  {
    if a != b {
      SignMulPos(a - b, c);
      assert (a - b) * c == a * c - b * c;
    }
  }

  /** equals: the same class, scale and mantissa. */
  function Equals(x: FixedPoint, y: FixedPoint): (b: bool)
    ensures b <==> x == y
  {
    x.scale == y.scale && x.mantissa == y.mantissa && x.tag == y.tag
  }

  // ---------------------------------------------------------------- compareTo

  lemma JavaDivShrinks(a: int, p: int)
    requires p >= 1
    ensures Abs(JavaDiv(a, p)) <= Abs(a)
    ensures a >= 0 ==> JavaDiv(a, p) >= 0
    ensures a <= 0 ==> JavaDiv(a, p) <= 0
  {
    var q := Abs(a) / p;
    assert Abs(a) == q * p + Abs(a) % p;
    MulLeMonotone(1, p, q);
  }

  /** Where m stands against n = q * p + rem with |rem| < p. */
  lemma CompareQuotient(m: int, n: int, q: int, rem: int, p: int)
    requires p >= 1 && n == q * p + rem && -p < rem < p
    ensures m > q ==> m * p > n
    ensures m < q ==> m * p < n
  {
    if m > q {
      MulLeMonotone(q + 1, m, p);
      assert (q + 1) * p == q * p + p;
    } else if m < q {
      MulLeMonotone(m, q - 1, p);
      assert (q - 1) * p == q * p - p;
    }
  }

  /** this has the smaller scale: compare m1 with the truncated m2 / p. */
  lemma ScaledDownLeft(m1: int, m2: int, p: int)
    requires IsLong(m1) && IsLong(m2) && p >= 1 && Sign(m1) == Sign(m2) && m1 != 0
    ensures IsLong(m1 - JavaDiv(m2, p))
    ensures m1 != JavaDiv(m2, p) ==> Sign(m1 - JavaDiv(m2, p)) == Sign(m1 * p - m2)
    ensures m1 == JavaDiv(m2, p) ==> IsLong(m1 * p) && IsLong(m1 * p - m2)
  {
    var q := JavaDiv(m2, p);
    JavaDivShrinks(m2, p);
    JavaDivRem(m2, p);
    CompareQuotient(m1, m2, q, JavaRem(m2, p), p);
  }

  /** this has the larger scale: compare the truncated m1 / p with m2.  The
      difference overflows only for m2 == Long.MIN_VALUE and m1 / p == 0. */
  lemma ScaledDownRight(m1: int, m2: int, p: int)
    requires IsLong(m1) && IsLong(m2) && p >= 1 && Sign(m1) == Sign(m2) && m1 != 0
    ensures JavaDiv(m1, p) != m2 ==> Sign(JavaDiv(m1, p) - m2) == Sign(m1 - m2 * p)
    ensures JavaDiv(m1, p) == m2 ==> IsLong(m2 * p) && IsLong(m1 - m2 * p)
    ensures !(m2 == LONG_MIN && JavaDiv(m1, p) == 0) ==> IsLong(JavaDiv(m1, p) - m2)
  {
    var q := JavaDiv(m1, p);
    JavaDivShrinks(m1, p);
    JavaDivRem(m1, p);
    CompareQuotient(m2, m1, q, JavaRem(m1, p), p);
  }

  /** Cross-multiplication at differing scales reduces to one power of ten,
      on the side of the smaller scale. */
  lemma CrossScale(m1: int, m2: int, s1: nat, s2: nat)
    ensures s1 <= s2 ==> Sign(m1 * Pow10(s2) - m2 * Pow10(s1)) == Sign(m1 * Pow10(s2 - s1) - m2)
    ensures s2 <= s1 ==> Sign(m1 * Pow10(s2) - m2 * Pow10(s1)) == Sign(m1 - m2 * Pow10(s1 - s2))
  {
    if s1 <= s2 {
      Pow10Add(s2 - s1, s1);
      FactorSign(m1, m2, Pow10(s2 - s1), Pow10(s1), Pow10(s2));
    } else {
      Pow10Add(s1 - s2, s2);
      FactorSign(m2, m1, Pow10(s1 - s2), Pow10(s2), Pow10(s1));
      NegatedSign(m1 * Pow10(s2) - m2 * Pow10(s1), m2 * Pow10(s1 - s2) - m1);
    }
  }

  /** Factoring a positive power out of a cross difference keeps its sign. */
  lemma FactorSign(m1: int, m2: int, p: int, q: int, pq: int)
    requires q >= 1 && pq == p * q
    ensures Sign(m1 * pq - m2 * q) == Sign(m1 * p - m2)
  {
    MulAssoc(m1, p, q);
    assert (m1 * p - m2) * q == (m1 * p) * q - m2 * q;
    SignMulPos(m1 * p - m2, q);
  }

  lemma NegatedSign(a: int, b: int)
    requires Sign(-a) == Sign(b)
    ensures Sign(a) == Sign(-b)
  {
  }

  /** Signs of the two scaled mantissas decide a comparison when they differ. */
  lemma CrossSigns(m1: int, m2: int, s1: nat, s2: nat)
    ensures Sign(m1) < Sign(m2) ==> Sign(m1 * Pow10(s2) - m2 * Pow10(s1)) == -1
    ensures Sign(m1) > Sign(m2) ==> Sign(m1 * Pow10(s2) - m2 * Pow10(s1)) == 1
    ensures m1 == 0 && m2 == 0 ==> Sign(m1 * Pow10(s2) - m2 * Pow10(s1)) == 0
  {
    SignMulPos(m1, Pow10(s2));
    SignMulPos(m2, Pow10(s1));
  }

  /** The branch of compareTo for a smaller scale of x, with p the power of
      ten between the two scales: the truncated m2 / p decides unless it
      equals m1, and then scaling m1 up cannot overflow. */
  function CompareSmallerScale(m1: int, m2: int, p: int): (r: int)
    requires IsLong(m1) && IsLong(m2) && IsLong(p) && p >= 1
    requires Sign(m1) == Sign(m2) && m1 != 0
    ensures r == Sign(m1 * p - m2)
  {
    ScaledDownLeft(m1, m2, p);
    var diff := Sub64(m1, JavaDiv(m2, p));
    if diff != 0 then
      (if diff < 0 then -1 else 1)
    else
      var diff2 := Sub64(Mul64(m1, p), m2);
      if diff2 != 0 then (if diff2 < 0 then -1 else 1) else 0
  }

  /** The branch of compareTo for a larger scale of x: the truncated m1 / p
      is compared with m2 and decides unless the two are equal. */
  function CompareLargerScale(m1: int, m2: int, p: int): (r: int)
    requires IsLong(m1) && IsLong(m2) && IsLong(p) && p >= 1
    requires Sign(m1) == Sign(m2) && m1 != 0
    ensures r == Sign(m1 - m2 * p)
  {
    ScaledDownRight(m1, m2, p);
    var q := JavaDiv(m1, p);
    if q != m2 then
      (if q < m2 then -1 else 1)
    else
      var diff2 := Sub64(m1, Mul64(m2, p));
      if diff2 != 0 then (if diff2 < 0 then -1 else 1) else 0
  }

  /** An equal scale: the mantissas decide. */
  lemma CrossSameScale(m1: int, m2: int, s: nat)
    ensures Sign(m1 * Pow10(s) - m2 * Pow10(s)) == Sign(m1 - m2)
  {
    assert m1 * Pow10(s) - m2 * Pow10(s) == (m1 - m2) * Pow10(s);
    SignMulPos(m1 - m2, Pow10(s));
  }

  /** compareTo: -1, 0 or 1 as x is numerically below, equal to or above y,
      for every pair of long mantissas and scales 0..18.  Every long operation
      it performs goes through a checked Sub64/Mul64, so the definition itself
      shows that none of them overflows.  The branch for a larger scale of x
      compares the scaled-down mantissa with y's instead of subtracting them
      (see CompareToAsWritten). */
  function CompareTo(x: FixedPoint, y: FixedPoint): (r: int)
    requires Valid(x) && Valid(y)
    ensures r == -1 || r == 0 || r == 1
  {
    var m1, m2 := x.mantissa, y.mantissa;
    var signumThis, signumThat := Sign(m1), Sign(m2);
    if signumThis != signumThat then
      (if signumThis < signumThat then -1 else 1)
    else if signumThat == 0 then
      0
    else
      var scaleDiff := x.scale - y.scale;
      if scaleDiff == 0 then
        if m1 == m2 then 0 else if m1 < m2 then -1 else 1
      else if scaleDiff < 0 then
        CompareSmallerScale(m1, m2, PowerOfTen(-scaleDiff))
      else
        CompareLargerScale(m1, m2, PowerOfTen(scaleDiff))
  }

  /** compareTo is the sign of the cross product m1 * 10^s2 - m2 * 10^s1. */
  lemma CompareToCross(x: FixedPoint, y: FixedPoint)
    requires Valid(x) && Valid(y)
    ensures CompareTo(x, y) == Sign(x.mantissa * Pow10(y.scale) - y.mantissa * Pow10(x.scale))
  {
    var m1, m2 := x.mantissa, y.mantissa;
    if Sign(m1) != Sign(m2) || m2 == 0 {
      CrossSigns(m1, m2, x.scale, y.scale);
    } else if x.scale == y.scale {
      CrossSameScale(m1, m2, x.scale);
    } else if x.scale < y.scale {
      CompareToCrossSmaller(x, y);
    } else {
      CompareToCrossLarger(x, y);
    }
  }

  lemma CompareToCrossSmaller(x: FixedPoint, y: FixedPoint)
    requires Valid(x) && Valid(y) && Sign(x.mantissa) == Sign(y.mantissa) && y.mantissa != 0
    requires x.scale < y.scale
    ensures CompareTo(x, y) == Sign(x.mantissa * Pow10(y.scale) - y.mantissa * Pow10(x.scale))
  {
    var k := y.scale - x.scale;
    assert -(x.scale - y.scale) == k;
    var p := PowerOfTen(k);
    var c := CompareSmallerScale(x.mantissa, y.mantissa, p);
    assert CompareTo(x, y) == c;
    CrossScaleLeft(x.mantissa, y.mantissa, x.scale, y.scale, c);
  }

  lemma CompareToCrossLarger(x: FixedPoint, y: FixedPoint)
    requires Valid(x) && Valid(y) && Sign(x.mantissa) == Sign(y.mantissa) && y.mantissa != 0
    requires x.scale > y.scale
    ensures CompareTo(x, y) == Sign(x.mantissa * Pow10(y.scale) - y.mantissa * Pow10(x.scale))
  {
    var k := x.scale - y.scale;
    assert k != 0 && !(k < 0) && Sign(x.mantissa) != 0;
    var p := PowerOfTen(k);
    var c := CompareLargerScale(x.mantissa, y.mantissa, p);
    assert CompareTo(x, y) == c;
    CrossScaleRight(x.mantissa, y.mantissa, x.scale, y.scale, c);
  }

  lemma CrossScaleLeft(m1: int, m2: int, s1: nat, s2: nat, c: int)
    requires s1 <= s2 && c == Sign(m1 * Pow10(s2 - s1) - m2)
    ensures c == Sign(m1 * Pow10(s2) - m2 * Pow10(s1))
  {
    CrossScale(m1, m2, s1, s2);
  }

  lemma CrossScaleRight(m1: int, m2: int, s1: nat, s2: nat, c: int)
    requires s2 <= s1 && c == Sign(m1 - m2 * Pow10(s1 - s2))
    ensures c == Sign(m1 * Pow10(s2) - m2 * Pow10(s1))
  {
    CrossScale(m1, m2, s1, s2);
  }

  /** compareTo exactly as written: every long subtraction and product wraps
      around. */
  function CompareToAsWritten(x: FixedPoint, y: FixedPoint): (r: int)
    requires Valid(x) && Valid(y)
    ensures r == -1 || r == 0 || r == 1
  {
    var m1, m2 := x.mantissa, y.mantissa;
    var signumThis, signumThat := Sign(m1), Sign(m2);
    if signumThis != signumThat then
      (if signumThis < signumThat then -1 else 1)
    else if signumThat == 0 then
      0
    else
      var scaleDiff := x.scale - y.scale;
      if scaleDiff == 0 then
        if m1 == m2 then 0 else if m1 < m2 then -1 else 1
      else if scaleDiff < 0 then
        SmallerScaleAsWritten(m1, m2, PowerOfTen(-scaleDiff))
      else
        LargerScaleAsWritten(m1, m2, PowerOfTen(scaleDiff))
  }

  /** The smaller-scale branch as written, with wrapping long arithmetic. */
  function SmallerScaleAsWritten(m1: int, m2: int, p: int): (r: int)
    requires p >= 1
    ensures r == -1 || r == 0 || r == 1
  {
    var diff := Wrap64(m1 - JavaDiv(m2, p));
    if diff != 0 then
      (if diff < 0 then -1 else 1)
    else
      var diff2 := Wrap64(Wrap64(m1 * p) - m2);
      if diff2 != 0 then (if diff2 < 0 then -1 else 1) else 0
  }

  /** The larger-scale branch as written: m1 / p - m2 is a wrapping long
      subtraction. */
  function LargerScaleAsWritten(m1: int, m2: int, p: int): (r: int)
    requires p >= 1
    ensures r == -1 || r == 0 || r == 1
  {
    var diff := Wrap64(JavaDiv(m1, p) - m2);
    if diff != 0 then
      (if diff < 0 then -1 else 1)
    else
      var diff2 := Wrap64(m1 - Wrap64(m2 * p));
      if diff2 != 0 then (if diff2 < 0 then -1 else 1) else 0
  }

  /** In the smaller-scale branch the code as written never overflows. */
  lemma SmallerScaleAgrees(m1: int, m2: int, p: int)
    requires IsLong(m1) && IsLong(m2) && IsLong(p) && p >= 1
    requires Sign(m1) == Sign(m2) && m1 != 0
    ensures SmallerScaleAsWritten(m1, m2, p) == CompareSmallerScale(m1, m2, p)
  {
    ScaledDownLeft(m1, m2, p);
    Wrap64Exact(m1 - JavaDiv(m2, p));
    Wrap64Exact(m1 * p);
    if m1 == JavaDiv(m2, p) {
      Wrap64Exact(m1 * p - m2);
    }
  }

  /** In the larger-scale branch it overflows only where m2 is
      Long.MIN_VALUE and m1 / p is 0. */
  lemma LargerScaleAgrees(m1: int, m2: int, p: int)
    requires IsLong(m1) && IsLong(m2) && IsLong(p) && p >= 1
    requires Sign(m1) == Sign(m2) && m1 != 0
    requires !(m2 == LONG_MIN && JavaDiv(m1, p) == 0)
    ensures LargerScaleAsWritten(m1, m2, p) == CompareLargerScale(m1, m2, p)
  {
    ScaledDownRight(m1, m2, p);
    Wrap64Exact(JavaDiv(m1, p) - m2);
    Wrap64Exact(m2 * p);
    if JavaDiv(m1, p) == m2 {
      Wrap64Exact(m1 - m2 * p);
    }
  }

  /** The inputs on which compareTo as written overflows: y has mantissa
      Long.MIN_VALUE at a smaller scale than a negative x whose scaled-down
      mantissa is 0, so `0 - Long.MIN_VALUE` wraps. */
  predicate CompareOverflows(x: FixedPoint, y: FixedPoint)
    requires Valid(x) && Valid(y)
  {
    x.scale > y.scale && y.mantissa == LONG_MIN && x.mantissa < 0 &&
    JavaDiv(x.mantissa, Pow10(x.scale - y.scale)) == 0
  }

  /** Outside that corner the code as written computes the same as
      CompareTo. */
  lemma CompareToAsWrittenAgrees(x: FixedPoint, y: FixedPoint)
    requires Valid(x) && Valid(y)
    requires !CompareOverflows(x, y)
    ensures CompareToAsWritten(x, y) == CompareTo(x, y)
  {
    var m1, m2 := x.mantissa, y.mantissa;
    if Sign(m1) == Sign(m2) && m2 != 0 {
      if x.scale < y.scale {
        SmallerScaleAgrees(m1, m2, PowerOfTen(y.scale - x.scale));
      } else if x.scale > y.scale {
        LargerScaleAgrees(m1, m2, PowerOfTen(x.scale - y.scale));
      }
    }
  }

  /** Inside the corner the two always disagree: the code as written answers
      -1, although x is the larger number. */
  lemma CompareToAsWrittenCorner(x: FixedPoint, y: FixedPoint)
    requires Valid(x) && Valid(y)
    requires CompareOverflows(x, y)
    ensures CompareToAsWritten(x, y) == -1
    ensures CompareTo(x, y) == 1
  {
    assert Wrap64(0 - LONG_MIN) == LONG_MIN;
  }

  /** Both halves together, in the form the as-written min and max use. */
  lemma CompareToAsWrittenCases(x: FixedPoint, y: FixedPoint)
    requires Valid(x) && Valid(y)
    ensures CompareOverflows(x, y) ==> CompareToAsWritten(x, y) == -1 && CompareTo(x, y) == 1
    ensures !CompareOverflows(x, y) ==> CompareToAsWritten(x, y) == CompareTo(x, y)
  {
    if CompareOverflows(x, y) {
      CompareToAsWrittenCorner(x, y);
    } else {
      CompareToAsWrittenAgrees(x, y);
    }
  }

  /** The corner itself: -0.001 (MilliUnits) against Long.MIN_VALUE (Units).
      `0 - Long.MIN_VALUE` wraps to Long.MIN_VALUE, so the code answers -1
      although -0.001 is the larger number. */
  lemma CompareToAsWrittenOverflows()
    ensures Valid(FixedPoint(MilliUnits, -1, 3)) && Valid(FixedPoint(Units, LONG_MIN, 0))
    ensures CompareToAsWritten(FixedPoint(MilliUnits, -1, 3), FixedPoint(Units, LONG_MIN, 0)) == -1
    ensures CompareTo(FixedPoint(MilliUnits, -1, 3), FixedPoint(Units, LONG_MIN, 0)) == 1
  {
    assert JavaDiv(-1, 1000) == 0;
    assert Wrap64(0 - LONG_MIN) == LONG_MIN;
  }

  /** (m * a) * k == (m * b) * c whenever a * k == c * b. */
  lemma MulRegroup(m: int, a: int, k: int, b: int, c: int)
    requires a * k == c * b
    ensures (m * a) * k == (m * b) * c
  {
    calc {
      (m * a) * k;
      m * (a * k);
      m * (c * b);
      (m * b) * c;
    }
  }

  lemma DiffRegroup(m1: int, a1: int, m2: int, a2: int, k: int, b1: int, b2: int, c: int)
    requires a1 * k == c * b2 && a2 * k == c * b1
    ensures (m1 * a1 - m2 * a2) * k == (m1 * b2 - m2 * b1) * c
  {
    MulRegroup(m1, a1, k, b2, c);
    MulRegroup(m2, a2, k, b1, c);
    assert (m1 * a1 - m2 * a2) * k == (m1 * a1) * k - (m2 * a2) * k;
    assert (m1 * b2 - m2 * b1) * c == (m1 * b2) * c - (m2 * b1) * c;
  }

  /** With a1 * b1 == a2 * b2 == e, the product b1 * b2 is a common
      multiple. */
  lemma CommonMultiple(a1: int, b1: int, a2: int, b2: int, e: int)
    requires b1 >= 1 && b2 >= 1 && b1 * a1 == e && b2 * a2 == e
    ensures a1 * (b1 * b2) == e * b2 && a2 * (b1 * b2) == e * b1
    ensures b1 * b2 >= 1
  {
    MulLeMonotone(1, b1, b2);
    MulAssoc(a1, b1, b2);
    assert a2 * (b1 * b2) == (b2 * a2) * b1;
  }

  /** Two integers whose positive multiples agree have the same sign. */
  lemma SignOfMultiples(e: int, k: int, d: int, j: int)
    requires k > 0 && j > 0 && e * k == d * j
    ensures Sign(e) == Sign(d)
  {
    SignMulPos(e, k);
    SignMulPos(d, j);
  }

  /** Cross-multiplication and the common 10^-18 grid order the same way. */
  lemma CrossIsValue(m1: int, m2: int, s1: nat, s2: nat)
    requires s1 <= 18 && s2 <= 18
    ensures Sign(m1 * Pow10(18 - s1) - m2 * Pow10(18 - s2)) == Sign(m1 * Pow10(s2) - m2 * Pow10(s1))
  {
    Pow10Complement(s1);
    Pow10Complement(s2);
    CrossMultiples(m1, m2, Pow10(18 - s1), Pow10(18 - s2), Pow10(s1), Pow10(s2));
  }

  /** With a1 and a2 the cofactors of b1 and b2 in 10^18, comparing m1 * a1
      with m2 * a2 is comparing m1 * b2 with m2 * b1. */
  lemma CrossMultiples(m1: int, m2: int, a1: int, a2: int, b1: int, b2: int)
    requires b1 >= 1 && b2 >= 1 && b1 * a1 == E18 && b2 * a2 == E18
    ensures Sign(m1 * a1 - m2 * a2) == Sign(m1 * b2 - m2 * b1)
  {
    CommonMultiple(a1, b1, a2, b2, E18);
    DiffRegroup(m1, a1, m2, a2, b1 * b2, b1, b2, E18);
    SignOfMultiples(m1 * a1 - m2 * a2, b1 * b2, m1 * b2 - m2 * b1, E18);
  }

  /** compareTo orders by the numbers the values stand for. */
  lemma CompareToValue(x: FixedPoint, y: FixedPoint)
    requires Valid(x) && Valid(y)
    ensures CompareTo(x, y) == Sign(Value18(x) - Value18(y))
  {
    CompareToCross(x, y);
    ValueOrder(x, y, CompareTo(x, y));
  }

  /** The order of the cross-multiplied mantissas is the order of the
      values. */
  lemma ValueOrder(x: FixedPoint, y: FixedPoint, c: int)
    requires Valid(x) && Valid(y)
    requires c == Sign(x.mantissa * Pow10(y.scale) - y.mantissa * Pow10(x.scale))
    ensures c == Sign(Value18(x) - Value18(y))
  {
    CrossIsValue(x.mantissa, y.mantissa, x.scale, y.scale);
  }

  /** Numeric comparison is antisymmetric and transitive across scales. */
  lemma CompareToOrder(x: FixedPoint, y: FixedPoint, z: FixedPoint)
    requires Valid(x) && Valid(y) && Valid(z)
    ensures CompareTo(x, y) == -CompareTo(y, x)
    ensures CompareTo(x, y) <= 0 && CompareTo(y, z) <= 0 ==> CompareTo(x, z) <= 0
    ensures CompareTo(x, y) == 0 && CompareTo(y, z) == 0 ==> CompareTo(x, z) == 0
  {
    CompareToValue(x, y);
    CompareToValue(y, x);
    CompareToValue(y, z);
    CompareToValue(x, z);
  }

  /** equals implies numeric equality, not conversely: 1 (Units) and 1.000
      (MilliUnits) compare equal but are not equal. */
  lemma EqualsAndCompareTo(x: FixedPoint, y: FixedPoint)
    requires Valid(x) && Valid(y)
    ensures Equals(x, y) ==> CompareTo(x, y) == 0
    ensures CompareTo(FixedPoint(Units, 1, 0), FixedPoint(MilliUnits, 1000, 3)) == 0
    ensures !Equals(FixedPoint(Units, 1, 0), FixedPoint(MilliUnits, 1000, 3))
  {
    CompareToCross(x, y);
    var one, milliOne := FixedPoint(Units, 1, 0), FixedPoint(MilliUnits, 1000, 3);
    CompareToCross(one, milliOne);
    assert Pow10(0) == 1 && Pow10(3) == 1000 by {
      PowersOfTenTable();
    }
  }

  // ------------------------------------------------- sign, unit, percent

  /** abs: x itself when not negative, otherwise the negated mantissa, which
      for Long.MIN_VALUE wraps around to itself. */
  function Absolute(x: FixedPoint): (r: FixedPoint)
    requires Valid(x)
    ensures Valid(r) && r.tag == x.tag && r.scale == x.scale
    ensures x.mantissa != LONG_MIN ==> r.mantissa == LongArith.Abs(x.mantissa)
    ensures x.mantissa == LONG_MIN ==> r == x
  {
    if x.mantissa >= 0 then x
    else
      NegatedMantissa(x.mantissa);
      NewInstanceOf(x, Wrap64(-x.mantissa))
  }

  /** Except at Long.MIN_VALUE, abs is the absolute value. */
  lemma AbsoluteValue(x: FixedPoint)
    requires Valid(x)
    ensures x.mantissa != LONG_MIN ==> Value18(Absolute(x)) == LongArith.Abs(Value18(x))
  {
    var r := Absolute(x);
    AbsScaled(x.mantissa, Pow10(18 - x.scale));
    assert r.scale == x.scale;
  }

  lemma AbsScaled(m: int, c: int)
    requires c > 0
    ensures LongArith.Abs(m) * c == LongArith.Abs(m * c)
  {
    SignMulPos(m, c);
    if m < 0 {
      assert (-m) * c == -(m * c);
    }
  }

  /** `-m` on a long: exact except that -Long.MIN_VALUE is Long.MIN_VALUE. */
  lemma NegatedMantissa(m: int)
    requires IsLong(m)
    ensures Wrap64(-m) == if m == LONG_MIN then LONG_MIN else -m
  {
    if m == LONG_MIN {
      Wrap64Congruent(-LONG_MIN, LONG_MIN, 1);
      Wrap64Exact(LONG_MIN);
    } else {
      Wrap64Exact(-m);
    }
  }

  /** negate: the opposite number, with the two's complement exception of
      Long.MIN_VALUE, which is its own negation. */
  function Negate(x: FixedPoint): (r: FixedPoint)
    requires Valid(x)
    ensures Valid(r) && r.tag == x.tag && r.scale == x.scale
    ensures x.mantissa != LONG_MIN ==> r.mantissa == -x.mantissa
    ensures x.mantissa == LONG_MIN ==> r == x
  {
    NegatedMantissa(x.mantissa);
    NewInstanceOf(x, Wrap64(-x.mantissa))
  }

  /** Except at Long.MIN_VALUE, negate is the negated value. */
  lemma NegateValue(x: FixedPoint)
    requires Valid(x)
    ensures x.mantissa != LONG_MIN ==> Value18(Negate(x)) == -Value18(x)
  {
    NegatedValueOf(x, Negate(x));
  }

  lemma NegatedValueOf(x: FixedPoint, r: FixedPoint)
    requires Valid(x) && r.scale == x.scale && (x.mantissa != LONG_MIN ==> r.mantissa == -x.mantissa)
    ensures x.mantissa != LONG_MIN ==> Value18(r) == -Value18(x)
  {
    if x.mantissa != LONG_MIN {
      var p := Pow10(18 - x.scale);
      assert Value18(x) == x.mantissa * p && Value18(r) == -x.mantissa * p;
      NegatedProduct(x.mantissa, p, Value18(x));
    }
  }

  /** Negation is an involution on every value, Long.MIN_VALUE included. */
  lemma NegateNegate(x: FixedPoint)
    requires Valid(x)
    ensures Negate(Negate(x)) == x
    ensures Absolute(Negate(x)) == Absolute(x)
  {
  }

  /** ulp: one unit in the last place, 10^-scale. */
  function Ulp(x: FixedPoint): (r: FixedPoint)
    requires Valid(x)
    ensures Valid(r) && r.tag == x.tag && r.scale == x.scale
    ensures Value18(r) == Pow10(18 - x.scale)
  {
    NewInstanceOf(x, 1)
  }

  /** The ulp is the step of the scale: between two values of one scale the
      distance is at least one ulp. */
  lemma UlpIsStep(x: FixedPoint, y: FixedPoint)
    requires Valid(x) && Valid(y) && x.scale == y.scale
    requires Value18(x) < Value18(y)
    ensures Value18(y) - Value18(x) >= Value18(Ulp(x))
  {
    var c := Pow10(18 - x.scale);
    assert Value18(y) - Value18(x) == (y.mantissa - x.mantissa) * c;
    if y.mantissa - x.mantissa < 1 {
      MulLeMonotone(y.mantissa - x.mantissa, 0, c);
    }
    MulLeMonotone(1, y.mantissa - x.mantissa, c);
  }

  /** Division by 10^k scaled up on both sides: the truncated quotient does
      not change. */
  lemma JavaDivCancel(a: int, b: int, k: int)
    requires b > 0 && k > 0
    ensures JavaDiv(a * k, b * k) == JavaDiv(a, b)
  {
    var q, r := LongArith.Abs(a) / b, LongArith.Abs(a) % b;
    AbsScaled(a, k);
    SignMulPos(a, k);
    SignMulPos(b, k);
    assert LongArith.Abs(a) * k == q * (b * k) + r * k by {
      assert LongArith.Abs(a) == q * b + r;
    }
    MulLeMonotone(0, r, k);
    MulLeMonotone(r + 1, b, k);
    assert (r + 1) * k == r * k + k;
    EuclidUnique(LongArith.Abs(a * k), b * k, q, r * k);
  }

  /** percent: the value times 0.01, obtained by adding two to the scale as
      long as the scale stays within 18, otherwise by truncating division of
      the mantissa.  The result is always a VariableUnits. */
  function Percent(x: FixedPoint): (r: FixedPoint)
    requires Valid(x)
    ensures Valid(r) && r.tag == VariableUnits && r.scale == Min(x.scale + 2, 18)
    ensures Value18(r) == JavaDiv(Value18(x), 100)
    ensures x.scale <= 16 ==> 100 * Value18(r) == Value18(x)
  {
    if x.scale == 18 then
      PercentAt18(x.mantissa);
      FixedPoint(VariableUnits, JavaDiv(x.mantissa, 100), 18)
    else if x.scale == 17 then
      PercentAt17(x.mantissa);
      FixedPoint(VariableUnits, JavaDiv(x.mantissa, 10), 18)
    else
      PercentByScale(x.mantissa, x.scale);
      FixedPoint(VariableUnits, x.mantissa, x.scale + 2)
  }

  lemma PercentAt18(m: int)
    ensures JavaDiv(m * Pow10(0), 100) == JavaDiv(m, 100) * Pow10(0)
  {
  }

  lemma PercentAt17(m: int)
    ensures JavaDiv(m * Pow10(1), 100) == JavaDiv(m, 10) * Pow10(0)
  {
    JavaDivCancel(m, 10, 10);
  }

  lemma PercentByScale(m: int, s: nat)
    requires s <= 16
    ensures m * Pow10(18 - s) == 100 * (m * Pow10(16 - s))
    ensures JavaDiv(m * Pow10(18 - s), 100) == m * Pow10(16 - s)
  {
    var k := m * Pow10(16 - s);
    Pow10Add(16 - s, 2);
    MulAssoc(m, Pow10(16 - s), Pow10(2));
    JavaDivCancel(k, 1, 100);
  }

  // ---------------------------------------------------------- min and max

  /** gmin: the numerically smaller operand, x on a tie, of any classes. */
  function GMin(x: FixedPoint, y: FixedPoint): (r: FixedPoint)
    requires Valid(x) && Valid(y)
    ensures r == x || r == y
    ensures Value18(r) <= Value18(x) && Value18(r) <= Value18(y)
    ensures Value18(x) == Value18(y) ==> r == x
  {
    CompareToValue(x, y);
    if CompareTo(x, y) <= 0 then x else y
  }

  /** gmax: the numerically larger operand, x on a tie. */
  function GMax(x: FixedPoint, y: FixedPoint): (r: FixedPoint)
    requires Valid(x) && Valid(y)
    ensures r == x || r == y
    ensures Value18(r) >= Value18(x) && Value18(r) >= Value18(y)
    ensures Value18(x) == Value18(y) ==> r == x
  {
    CompareToValue(x, y);
    if CompareTo(x, y) >= 0 then x else y
  }

  /** min for two values of one class: the result keeps that class. */
  function Minimum(x: FixedPoint, y: FixedPoint): (r: FixedPoint)
    requires Valid(x) && Valid(y) && x.tag == y.tag
    ensures r.tag == x.tag && (r == x || r == y)
    ensures Value18(r) <= Value18(x) && Value18(r) <= Value18(y)
  {
    GMin(x, y)
  }

  /** max for two values of one class. */
  function Maximum(x: FixedPoint, y: FixedPoint): (r: FixedPoint)
    requires Valid(x) && Valid(y) && x.tag == y.tag
    ensures r.tag == x.tag && (r == x || r == y)
    ensures Value18(r) >= Value18(x) && Value18(r) >= Value18(y)
  {
    GMax(x, y)
  }

  /** gmin as written, deciding by the overflowing compareTo: it is GMin
      except on the corner, where it returns x although y is smaller. */
  function GMinAsWritten(x: FixedPoint, y: FixedPoint): (r: FixedPoint)
    requires Valid(x) && Valid(y)
    ensures r == x || r == y
    ensures !CompareOverflows(x, y) ==> r == GMin(x, y)
    ensures CompareOverflows(x, y) ==> r == x && GMin(x, y) == y
  {
    CompareToAsWrittenCases(x, y);
    if CompareToAsWritten(x, y) <= 0 then x else y
  }

  /** gmax as written: GMax except on the corner, where it returns the
      smaller y. */
  function GMaxAsWritten(x: FixedPoint, y: FixedPoint): (r: FixedPoint)
    requires Valid(x) && Valid(y)
    ensures r == x || r == y
    ensures !CompareOverflows(x, y) ==> r == GMax(x, y)
    ensures CompareOverflows(x, y) ==> r == y && GMax(x, y) == x
  {
    CompareToAsWrittenCases(x, y);
    if CompareToAsWritten(x, y) >= 0 then x else y
  }

  /** min as written, for two values of one class. */
  function MinimumAsWritten(x: FixedPoint, y: FixedPoint): (r: FixedPoint)
    requires Valid(x) && Valid(y) && x.tag == y.tag
    ensures r.tag == x.tag
    ensures !CompareOverflows(x, y) ==> r == Minimum(x, y)
    ensures CompareOverflows(x, y) ==> r == x && Minimum(x, y) == y
  {
    GMinAsWritten(x, y)
  }

  /** max as written, for two values of one class. */
  function MaximumAsWritten(x: FixedPoint, y: FixedPoint): (r: FixedPoint)
    requires Valid(x) && Valid(y) && x.tag == y.tag
    ensures r.tag == x.tag
    ensures !CompareOverflows(x, y) ==> r == Maximum(x, y)
    ensures CompareOverflows(x, y) ==> r == y && Maximum(x, y) == x
  {
    GMaxAsWritten(x, y)
  }

  /** The corner seen through min and max: with -0.001 against
      Long.MIN_VALUE, gmin and min as written return -0.001 and gmax and max
      return Long.MIN_VALUE; only one class can hold both scales for min and
      max, so those two are shown on VariableUnits. */
  lemma MinMaxAsWrittenOverflows()
    ensures var x, y := FixedPoint(MilliUnits, -1, 3), FixedPoint(Units, LONG_MIN, 0);
      Valid(x) && Valid(y) &&
      GMinAsWritten(x, y) == x && GMin(x, y) == y && GMaxAsWritten(x, y) == y && GMax(x, y) == x
    ensures var x, y := FixedPoint(VariableUnits, -1, 3), FixedPoint(VariableUnits, LONG_MIN, 0);
      Valid(x) && Valid(y) &&
      MinimumAsWritten(x, y) == x && Minimum(x, y) == y && MaximumAsWritten(x, y) == y && Maximum(x, y) == x
  {
    assert JavaDiv(-1, 1000) == 0;
    assert CompareOverflows(FixedPoint(MilliUnits, -1, 3), FixedPoint(Units, LONG_MIN, 0));
    assert CompareOverflows(FixedPoint(VariableUnits, -1, 3), FixedPoint(VariableUnits, LONG_MIN, 0));
  }

  /** min and max of a pair are the pair itself, in order. */
  lemma MinMaxPair(x: FixedPoint, y: FixedPoint)
    requires Valid(x) && Valid(y)
    ensures Value18(x) != Value18(y) ==> {GMin(x, y), GMax(x, y)} == {x, y}
    ensures Value18(GMin(x, y)) + Value18(GMax(x, y)) == Value18(x) + Value18(y)
  {
  }

  // -------------------------------------- integral factor, increment, decrement

  /** multiply(int): the mantissa times the factor, in the class and scale of
      x, wrapping around as a long product does. */
  function MultiplyInt(x: FixedPoint, factor: int): (r: FixedPoint)
    requires Valid(x) && IsInt(factor)
    ensures Valid(r) && r.tag == x.tag && r.scale == x.scale
    ensures r.mantissa == Wrap64(x.mantissa * factor)
    ensures IsLong(x.mantissa * factor) ==> Value18(r) == Value18(x) * factor
  {
    Wrap64Exact(x.mantissa * factor);
    assert (x.mantissa * factor) * Pow10(18 - x.scale) == (x.mantissa * Pow10(18 - x.scale)) * factor;
    NewInstanceOf(x, Wrap64(x.mantissa * factor))
  }

  /** Two integral factors in a row are one factor, even where the long
      products wrap around. */
  lemma MultiplyIntTwice(x: FixedPoint, a: int, b: int)
    requires Valid(x) && IsInt(a) && IsInt(b) && IsInt(a * b)
    ensures MultiplyInt(MultiplyInt(x, a), b) == MultiplyInt(x, a * b)
  {
    Wrap64Mul(x.mantissa * a, b);
    assert (x.mantissa * a) * b == x.mantissa * (a * b);
  }

  /** increment: x + 1, wrapping around as the long addition does. */
  function Increment(x: FixedPoint): (r: FixedPoint)
    requires Valid(x)
    ensures Valid(r) && r == FixedPoint(x.tag, Wrap64(x.mantissa + Pow10(x.scale)), x.scale)
  {
    NewInstanceOf(x, Wrap64(x.mantissa + PowerOfTen(x.scale)))
  }

  /** decrement: x - 1. */
  function Decrement(x: FixedPoint): (r: FixedPoint)
    requires Valid(x)
    ensures Valid(r) && r == FixedPoint(x.tag, Wrap64(x.mantissa - Pow10(x.scale)), x.scale)
  {
    NewInstanceOf(x, Wrap64(x.mantissa - PowerOfTen(x.scale)))
  }

  /** Away from the ends of the long range, increment and decrement add and
      subtract exactly one. */
  lemma IncrementValue(x: FixedPoint)
    requires Valid(x)
    ensures IsLong(x.mantissa + Pow10(x.scale)) ==> Value18(Increment(x)) == Value18(x) + E18
    ensures IsLong(x.mantissa - Pow10(x.scale)) ==> Value18(Decrement(x)) == Value18(x) - E18
  {
    IncrementStep(x);
    DecrementStep(x);
  }

  lemma IncrementStep(x: FixedPoint)
    requires Valid(x)
    ensures IsLong(x.mantissa + Pow10(x.scale)) ==> Value18(Increment(x)) == Value18(x) + E18
  {
    var m, s := x.mantissa, x.scale;
    if IsLong(m + Pow10(s)) {
      var p, q := Pow10(s), Pow10(18 - s);
      Pow10Complement(s);
      UnitStep(m, p, q, E18);
      var r := Increment(x);
      Wrap64Exact(m + p);
      assert r.mantissa == m + p && r.scale == s;
      assert Value18(r) == (m + p) * q;
    }
  }

  lemma DecrementStep(x: FixedPoint)
    requires Valid(x)
    ensures IsLong(x.mantissa - Pow10(x.scale)) ==> Value18(Decrement(x)) == Value18(x) - E18
  {
    var m, s := x.mantissa, x.scale;
    if IsLong(m - Pow10(s)) {
      var p, q := Pow10(s), Pow10(18 - s);
      Pow10Complement(s);
      UnitStep(m, p, q, E18);
      var r := Decrement(x);
      Wrap64Exact(m - p);
      assert r.mantissa == m - p && r.scale == s;
      assert Value18(r) == (m - p) * q;
    }
  }

  lemma UnitStep(m: int, p: int, q: int, e: int)
    requires p * q == e
    ensures (m + p) * q == m * q + e
    ensures (m - p) * q == m * q - e
  {
    MulDistrib(m, p, q);
  }

  /** increment and decrement undo each other on every value: the long
      arithmetic wraps around in both directions. */
  lemma IncrementDecrement(x: FixedPoint)
    requires Valid(x)
    ensures Decrement(Increment(x)) == x
    ensures Increment(Decrement(x)) == x
  {
    DecrementAfterIncrement(x);
    IncrementAfterDecrement(x);
  }

  lemma DecrementAfterIncrement(x: FixedPoint)
    requires Valid(x)
    ensures Decrement(Increment(x)) == x
  {
    var u := Increment(x);
    StepBack(x, Pow10(x.scale), u, Decrement(u));
  }

  lemma IncrementAfterDecrement(x: FixedPoint)
    requires Valid(x)
    ensures Increment(Decrement(x)) == x
  {
    var d := Decrement(x);
    var p: int := Pow10(x.scale);
    StepBack(x, -p, d, Increment(d));
  }

  lemma StepBack(x: FixedPoint, p: int, u: FixedPoint, r: FixedPoint)
    requires Valid(x)
    requires u.tag == x.tag && u.scale == x.scale && u.mantissa == Wrap64(x.mantissa + p)
    requires r.tag == x.tag && r.scale == x.scale && r.mantissa == Wrap64(u.mantissa - p)
    ensures r == x
  {
    WrapBack(x.mantissa, p);
  }

  lemma WrapBack(m: int, p: int)
    requires IsLong(m)
    ensures Wrap64(Wrap64(m + p) - p) == m
    ensures Wrap64(Wrap64(m - p) + p) == m
  {
    Wrap64Left(m + p, p);
    Wrap64Left(m - p, p);
    assert m + p - p == m && m - p + p == m;
    Wrap64Exact(m);
  }

  // ------------------------------------------------- addition, subtraction

  /** The mantissa of x at a scale s not below its own: exact. */
  function Aligned(x: FixedPoint, s: int): int
    requires 0 <= x.scale <= s
  {
    x.mantissa * Pow10(s - x.scale)
  }

  /** The common scale of a sum or difference. */
  function JointScale(x: FixedPoint, y: FixedPoint): int {
    Max(x.scale, y.scale)
  }

  lemma AlignedValue(x: FixedPoint, s: int)
    requires 0 <= x.scale <= s <= 18
    ensures Aligned(x, s) * Pow10(18 - s) == Value18(x)
  {
    var i, j := s - x.scale, 18 - s;
    Pow10Add(i, j);
    assert i + j == 18 - x.scale;
    MulAssoc(x.mantissa, Pow10(i), Pow10(j));
  }

  /** The aligned mantissas of an exact sum and difference, and what they
      stand for. */
  lemma AlignedSum(x: FixedPoint, y: FixedPoint)
    requires Valid(x) && Valid(y)
    ensures (Aligned(x, JointScale(x, y)) + Aligned(y, JointScale(x, y))) * Pow10(18 - JointScale(x, y))
      == Value18(x) + Value18(y)
    ensures (Aligned(x, JointScale(x, y)) - Aligned(y, JointScale(x, y))) * Pow10(18 - JointScale(x, y))
      == Value18(x) - Value18(y)
  {
    var s := JointScale(x, y);
    AlignedValue(x, s);
    AlignedValue(y, s);
    MulDistrib(Aligned(x, s), Aligned(y, s), Pow10(18 - s));
  }

  /** The mantissa of the exact sum at the joint scale. */
  function SumMantissa(x: FixedPoint, y: FixedPoint): int
    requires 0 <= x.scale && 0 <= y.scale
  {
    Aligned(x, JointScale(x, y)) + Aligned(y, JointScale(x, y))
  }

  /** The mantissa of the exact difference at the joint scale. */
  function DifferenceMantissa(x: FixedPoint, y: FixedPoint): int
    requires 0 <= x.scale && 0 <= y.scale
  {
    Aligned(x, JointScale(x, y)) - Aligned(y, JointScale(x, y))
  }

  /** Aligning at the larger of the two scales leaves that operand as it is. */
  lemma AlignedAtLarger(x: FixedPoint, y: FixedPoint)
    requires 0 <= y.scale <= x.scale
    ensures JointScale(x, y) == JointScale(y, x) == x.scale
    ensures Aligned(x, x.scale) == x.mantissa
    ensures Aligned(y, x.scale) == Pow10(x.scale - y.scale) * y.mantissa
  {
    assert Pow10(0) == 1;
  }

  /** The addition add and gadd share: the operand with the smaller scale is
      scaled up by a power of ten, and the sum takes the class and scale of
      the other one (of x on equal scales).  Both long operations wrap
      around. */
  function ScaledSum(x: FixedPoint, y: FixedPoint): (r: FixedPoint)
    requires Valid(x) && Valid(y)
    ensures Valid(r) && r.scale == JointScale(x, y)
    ensures r.tag == if x.scale >= y.scale then x.tag else y.tag
    ensures r.mantissa == Wrap64(SumMantissa(x, y))
  {
    var diff := x.scale - y.scale;
    if diff >= 0 then
      var m := Wrap64(x.mantissa + Wrap64(PowerOfTen(diff) * y.mantissa));
      SumAtLarger(x, y, diff, m);
      NewInstanceOf(x, m)
    else
      var m := Wrap64(y.mantissa + Wrap64(PowerOfTen(-diff) * x.mantissa));
      SumAtLarger(y, x, -diff, m);
      NewInstanceOf(y, m)
  }

  /** The wrapped sum computed with x at the larger scale is the wrapped
      exact sum, in either order of the operands. */
  lemma SumAtLarger(x: FixedPoint, y: FixedPoint, k: int, m: int)
    requires Valid(x) && Valid(y) && k == x.scale - y.scale && k >= 0
    requires m == Wrap64(x.mantissa + Wrap64(PowerOfTen(k) * y.mantissa))
    ensures m == Wrap64(SumMantissa(x, y)) && m == Wrap64(SumMantissa(y, x))
  {
    var c := PowerOfTen(k) * y.mantissa;
    AlignedAtLarger(x, y);
    assert SumMantissa(x, y) == x.mantissa + c == SumMantissa(y, x);
    Wrap64Sum(x.mantissa, c, SumMantissa(x, y));
  }

  /** The wrapped difference computed with x at the larger scale is the
      wrapped exact difference x - y. */
  lemma DifferenceAtLarger(x: FixedPoint, y: FixedPoint, k: int, m: int)
    requires Valid(x) && Valid(y) && k == x.scale - y.scale && k >= 0
    requires m == Wrap64(x.mantissa - Wrap64(PowerOfTen(k) * y.mantissa))
    ensures m == Wrap64(DifferenceMantissa(x, y))
  {
    var c := PowerOfTen(k) * y.mantissa;
    AlignedAtLarger(x, y);
    assert DifferenceMantissa(x, y) == x.mantissa - c;
    Wrap64Differences(x.mantissa, c, x.mantissa - c, c - x.mantissa);
  }

  /** With y at the larger scale, -y.mantissa + 10^k * x.mantissa in long
      arithmetic is the wrapped exact difference x - y. */
  lemma DifferenceAtSmaller(x: FixedPoint, y: FixedPoint, k: int, m: int)
    requires Valid(x) && Valid(y) && k == y.scale - x.scale && k >= 0
    requires m == Wrap64(Wrap64(-y.mantissa) + Wrap64(PowerOfTen(k) * x.mantissa))
    ensures m == Wrap64(DifferenceMantissa(x, y))
  {
    var c := PowerOfTen(k) * x.mantissa;
    AlignedAtLarger(y, x);
    assert DifferenceMantissa(x, y) == c - y.mantissa;
    Wrap64Differences(y.mantissa, c, y.mantissa - c, c - y.mantissa);
  }

  /** The subtraction subtract and gsubtract share; with the scales the other
      way round the subtrahend's mantissa is negated first. */
  function ScaledDifference(x: FixedPoint, y: FixedPoint): (r: FixedPoint)
    requires Valid(x) && Valid(y)
    ensures Valid(r) && r.scale == JointScale(x, y)
    ensures r.tag == if x.scale >= y.scale then x.tag else y.tag
    ensures r.mantissa == Wrap64(DifferenceMantissa(x, y))
  {
    var diff := x.scale - y.scale;
    if diff >= 0 then
      var m := Wrap64(x.mantissa - Wrap64(PowerOfTen(diff) * y.mantissa));
      DifferenceAtLarger(x, y, diff, m);
      NewInstanceOf(x, m)
    else
      var m := Wrap64(Wrap64(-y.mantissa) + Wrap64(PowerOfTen(-diff) * x.mantissa));
      DifferenceAtSmaller(x, y, -diff, m);
      NewInstanceOf(y, m)
  }

  /** gadd: the sum at the larger scale, in the class of the operand with
      that scale (x on equal scales); a zero operand returns the other one
      unchanged.  The long arithmetic wraps around (see SumValue for where
      the result is the exact sum). */
  function GAdd(x: FixedPoint, y: FixedPoint): (r: FixedPoint)
    requires Valid(x) && Valid(y)
    ensures Valid(r)
    ensures x.mantissa == 0 ==> r == y
    ensures x.mantissa != 0 && y.mantissa == 0 ==> r == x
    ensures x.mantissa != 0 && y.mantissa != 0 ==>
      r.scale == JointScale(x, y) && r.tag == (if x.scale >= y.scale then x.tag else y.tag) &&
      r.mantissa == Wrap64(SumMantissa(x, y))
  {
    if x.mantissa == 0 then y
    else if y.mantissa == 0 then x
    else ScaledSum(x, y)
  }

  /** add: two values of one class, summed at the larger scale. */
  function Add(x: FixedPoint, y: FixedPoint): (r: FixedPoint)
    requires Valid(x) && Valid(y) && x.tag == y.tag
    ensures Valid(r) && r.tag == x.tag && r.scale == JointScale(x, y)
    ensures r.mantissa == Wrap64(SumMantissa(x, y))
  {
    ScaledSum(x, y)
  }

  /** gsubtract: the difference at the larger scale, in the class of the
      operand with that scale; a zero subtrahend returns x, a zero x the
      negated subtrahend. */
  function GSubtract(x: FixedPoint, y: FixedPoint): (r: FixedPoint)
    requires Valid(x) && Valid(y)
    ensures Valid(r)
    ensures y.mantissa == 0 ==> r == x
    ensures y.mantissa != 0 && x.mantissa == 0 ==> r == Negate(y)
    ensures x.mantissa != 0 && y.mantissa != 0 ==>
      r.scale == JointScale(x, y) && r.tag == (if x.scale >= y.scale then x.tag else y.tag) &&
      r.mantissa == Wrap64(DifferenceMantissa(x, y))
  {
    if y.mantissa == 0 then x
    else if x.mantissa == 0 then Negate(y)
    else ScaledDifference(x, y)
  }

  /** subtract: two values of one class, subtracted at the larger scale. */
  function Subtract(x: FixedPoint, y: FixedPoint): (r: FixedPoint)
    requires Valid(x) && Valid(y) && x.tag == y.tag
    ensures Valid(r) && r.tag == x.tag && r.scale == JointScale(x, y)
    ensures r.mantissa == Wrap64(DifferenceMantissa(x, y))
  {
    ScaledDifference(x, y)
  }

  lemma ScaledSumValue(x: FixedPoint, y: FixedPoint)
    requires Valid(x) && Valid(y)
    ensures IsLong(SumMantissa(x, y)) ==> Value18(ScaledSum(x, y)) == Value18(x) + Value18(y)
  {
    SumValueOf(x, y, ScaledSum(x, y));
  }

  lemma ScaledDifferenceValue(x: FixedPoint, y: FixedPoint)
    requires Valid(x) && Valid(y)
    ensures IsLong(DifferenceMantissa(x, y)) ==> Value18(ScaledDifference(x, y)) == Value18(x) - Value18(y)
  {
    DifferenceValueOf(x, y, ScaledDifference(x, y));
  }

  /** A result at the joint scale holding the wrapped exact sum stands for
      the sum wherever that fits a long. */
  lemma SumValueOf(x: FixedPoint, y: FixedPoint, r: FixedPoint)
    requires Valid(x) && Valid(y)
    requires r.scale == JointScale(x, y) && r.mantissa == Wrap64(SumMantissa(x, y))
    ensures IsLong(SumMantissa(x, y)) ==> Value18(r) == Value18(x) + Value18(y)
  {
    if IsLong(SumMantissa(x, y)) {
      Wrap64Exact(SumMantissa(x, y));
      AlignedSum(x, y);
    }
  }

  /** The same for a difference. */
  lemma DifferenceValueOf(x: FixedPoint, y: FixedPoint, r: FixedPoint)
    requires Valid(x) && Valid(y)
    requires r.scale == JointScale(x, y) && r.mantissa == Wrap64(DifferenceMantissa(x, y))
    ensures IsLong(DifferenceMantissa(x, y)) ==> Value18(r) == Value18(x) - Value18(y)
  {
    if IsLong(DifferenceMantissa(x, y)) {
      Wrap64Exact(DifferenceMantissa(x, y));
      AlignedSum(x, y);
    }
  }

  /** A zero mantissa stands for zero at every scale. */
  lemma ZeroValue(x: FixedPoint)
    requires 0 <= x.scale <= 18 && x.mantissa == 0
    ensures Value18(x) == 0
  {
  }

  /** Where the exact sum fits a long, gadd returns it. */
  lemma SumValue(x: FixedPoint, y: FixedPoint)
    requires Valid(x) && Valid(y)
    ensures IsLong(SumMantissa(x, y)) ==> Value18(GAdd(x, y)) == Value18(x) + Value18(y)
  {
    if x.mantissa == 0 {
      ZeroValue(x);
    } else if y.mantissa == 0 {
      ZeroValue(y);
    } else {
      SumValueOf(x, y, GAdd(x, y));
    }
  }

  /** Subtracting Long.MIN_VALUE scaled up by any power of ten from zero
      leaves the long range. */
  lemma NegatedMinScaled(a: int, m: int, p: int)
    requires a == 0 && m == LONG_MIN && p >= 1
    ensures !IsLong(a - m * p)
  {
    MulLeMonotone(1, p, -LONG_MIN);
  }

  /** Where the exact difference fits a long, gsubtract returns it. */
  lemma DifferenceValue(x: FixedPoint, y: FixedPoint)
    requires Valid(x) && Valid(y)
    ensures IsLong(DifferenceMantissa(x, y)) ==> Value18(GSubtract(x, y)) == Value18(x) - Value18(y)
  {
    if y.mantissa == 0 {
      ZeroValue(y);
    } else if x.mantissa == 0 {
      ZeroValue(x);
      NegateValue(y);
      if y.mantissa == LONG_MIN {
        var s := JointScale(x, y);
        assert Aligned(x, s) == 0;
        NegatedMinScaled(Aligned(x, s), y.mantissa, Pow10(s - y.scale));
      }
    } else {
      DifferenceValueOf(x, y, GSubtract(x, y));
    }
  }

  /** Where the exact sum fits a long, add returns it. */
  lemma AddValue(x: FixedPoint, y: FixedPoint)
    requires Valid(x) && Valid(y) && x.tag == y.tag
    ensures IsLong(SumMantissa(x, y)) ==> Value18(Add(x, y)) == Value18(x) + Value18(y)
  {
    SumValueOf(x, y, Add(x, y));
  }

  /** Where the exact difference fits a long, subtract returns it. */
  lemma SubtractValue(x: FixedPoint, y: FixedPoint)
    requires Valid(x) && Valid(y) && x.tag == y.tag
    ensures IsLong(DifferenceMantissa(x, y)) ==> Value18(Subtract(x, y)) == Value18(x) - Value18(y)
  {
    DifferenceValueOf(x, y, Subtract(x, y));
  }

  /** add is commutative, exactly, for two values of one class. */
  lemma AddCommutes(x: FixedPoint, y: FixedPoint)
    requires Valid(x) && Valid(y) && x.tag == y.tag
    ensures Add(x, y) == Add(y, x)
  {
  }

  /** add and gadd agree unless gadd's zero short-cut keeps the scale of a
      zero operand smaller than the joint one. */
  lemma AddIsGAdd(x: FixedPoint, y: FixedPoint)
    requires Valid(x) && Valid(y) && x.tag == y.tag
    requires x.scale == y.scale || (x.mantissa != 0 && y.mantissa != 0)
    ensures Add(x, y) == GAdd(x, y)
  {
    if x.mantissa == 0 || y.mantissa == 0 {
      ZeroSumMantissa(x, y);
      SumIsOperand(x, y, Add(x, y), GAdd(x, y));
    }
  }

  /** On equal scales a zero operand leaves the other mantissa as the sum. */
  lemma ZeroSumMantissa(x: FixedPoint, y: FixedPoint)
    requires Valid(x) && Valid(y) && x.scale == y.scale
    ensures x.mantissa == 0 ==> Wrap64(SumMantissa(x, y)) == y.mantissa
    ensures y.mantissa == 0 ==> Wrap64(SumMantissa(x, y)) == x.mantissa
  {
    assert Pow10(0) == 1;
    assert JointScale(x, y) == x.scale;
    assert SumMantissa(x, y) == x.mantissa + y.mantissa;
    Wrap64Exact(y.mantissa);
    Wrap64Exact(x.mantissa);
  }

  lemma SumIsOperand(x: FixedPoint, y: FixedPoint, a: FixedPoint, g: FixedPoint)
    requires x.tag == y.tag && x.scale == y.scale && (x.mantissa == 0 || y.mantissa == 0)
    requires a.tag == x.tag && a.scale == x.scale
    requires x.mantissa == 0 ==> a.mantissa == y.mantissa && g == y
    requires x.mantissa != 0 ==> a.mantissa == x.mantissa && g == x
    ensures a == g
  {
  }

  /** x - y is x + (-y), also where the long arithmetic wraps around. */
  lemma SubtractIsAddNegate(x: FixedPoint, y: FixedPoint)
    requires Valid(x) && Valid(y) && x.tag == y.tag
    ensures Subtract(x, y) == Add(x, Negate(y))
  {
    NegatedMantissa(y.mantissa);
    SubtractAsAdd(x, y, Negate(y), Add(x, Negate(y)), Subtract(x, y));
  }

  lemma SubtractAsAdd(x: FixedPoint, y: FixedPoint, ny: FixedPoint, sum: FixedPoint, difference: FixedPoint)
    requires Valid(x) && Valid(y) && Valid(ny)
    requires ny.scale == y.scale && ny.mantissa == Wrap64(-y.mantissa)
    requires sum.tag == x.tag && sum.scale == JointScale(x, ny) && sum.mantissa == Wrap64(SumMantissa(x, ny))
    requires difference.tag == x.tag && difference.scale == JointScale(x, y)
    requires difference.mantissa == Wrap64(DifferenceMantissa(x, y))
    ensures sum == difference
  {
    var s := JointScale(x, y);
    var a, c := Aligned(x, s), Aligned(ny, s);
    assert SumMantissa(x, ny) == a + c;
    var p := Pow10(s - y.scale);
    assert c == ny.mantissa * p;
    assert DifferenceMantissa(x, y) == a - y.mantissa * p;
    Wrap64NegScaled(a, y.mantissa, ny.mantissa, p, c, DifferenceMantissa(x, y));
  }

  /** Subtracting what was added gives x back, whatever wrapped, as long as
      the sum kept the scale of x. */
  lemma AddThenSubtract(x: FixedPoint, y: FixedPoint)
    requires Valid(x) && Valid(y) && x.tag == y.tag && x.scale >= y.scale
    ensures Subtract(Add(x, y), y) == x
  {
    var c := Aligned(y, x.scale);
    var sum := Add(x, y);
    SumAtOwnScale(x, y, sum);
    var d := Subtract(sum, y);
    DifferenceAtOwnScale(sum, y, d);
    assert sum.scale == x.scale;
    assert Aligned(y, sum.scale) == c;
    StepBack(x, c, sum, d);
  }

  lemma SumAtOwnScale(x: FixedPoint, y: FixedPoint, r: FixedPoint)
    requires Valid(x) && Valid(y) && x.tag == y.tag && x.scale >= y.scale && r == Add(x, y)
    ensures r.tag == x.tag && r.scale == x.scale && r.mantissa == Wrap64(x.mantissa + Aligned(y, x.scale))
  {
    AlignedAtLarger(x, y);
  }

  lemma DifferenceAtOwnScale(x: FixedPoint, y: FixedPoint, r: FixedPoint)
    requires Valid(x) && Valid(y) && x.tag == y.tag && x.scale >= y.scale && r == Subtract(x, y)
    ensures r.tag == x.tag && r.scale == x.scale && r.mantissa == Wrap64(x.mantissa - Aligned(y, x.scale))
  {
    AlignedAtLarger(x, y);
  }

  // ------------------------------------------------ multiplication, division

  /** The exact product x * y, whose mantissa m1 * m2 has scale s1 + s2,
      brought to scale target: scaled up exactly, or divided by the power of
      ten in between and rounded by mode. */
  function ProductAtScale(x: FixedPoint, y: FixedPoint, target: int, mode: RoundingMode): Result<int>
    requires 0 <= x.scale && 0 <= y.scale && 0 <= target
  {
    var d := x.scale + y.scale - target;
    if d <= 0 then Ok(x.mantissa * y.mantissa * Pow10(-d))
    else RoundQuotient(x.mantissa * y.mantissa, Pow10(d), mode)
  }

  /** `longValue()` of a computed mantissa: the low 64 bits of it. */
  function LongValue(t: Result<int>): (r: Result<int>)
    ensures r.Ok? <==> t.Ok?
    ensures r.Ok? ==> IsLong(r.value)
    ensures FitsLong(t) ==> r == t
  {
    if t.Ok? then Wrap64Exact(t.value); Ok(Wrap64(t.value)) else t
  }

  /** mantissa_of_multiplication: no rounding when the scales of x and y
      add up to at most target (two wrapping long products), otherwise
      multiply_and_scale on the exact product.  Either way the low 64 bits of
      the exact product at scale target. */
  function MantissaOfMultiplication(nativeAvailable: bool, x: FixedPoint, y: FixedPoint, target: int,
                                    mode: RoundingMode): (r: Result<int>)
    requires Valid(x) && Valid(y) && 0 <= target <= 18 && x.scale + y.scale - target <= 18
    requires x.scale + y.scale > target ==> FitsLong(ProductAtScale(x, y, target, mode))
    ensures r == LongValue(ProductAtScale(x, y, target, mode))
  {
    var d := x.scale + y.scale - target;
    if d <= 0 then
      var m := Wrap64(Wrap64(x.mantissa * y.mantissa) * PowerOfTen(-d));
      Wrap64Mul(x.mantissa * y.mantissa, Pow10(-d));
      assert m == Wrap64(x.mantissa * y.mantissa * Pow10(-d));
      Ok(m)
    else
      MultiplyAndScale(nativeAvailable, x.mantissa, y.mantissa, d, mode)
  }

  /** mantissa_of_multiplication_using_BD, the reference through BigDecimal:
      the exact product set to scale target, its unscaled value narrowed to a
      long.  It computes what mantissa_of_multiplication computes. */
  function MantissaOfMultiplicationUsingBD(x: FixedPoint, y: FixedPoint, target: int, mode: RoundingMode)
    : (r: Result<int>)
    requires Valid(x) && Valid(y) && 0 <= target <= 18
    ensures r == LongValue(ProductAtScale(x, y, target, mode))
  {
    var product := BigMultiply(BigDecimal(x.mantissa, x.scale), BigDecimal(y.mantissa, y.scale));
    var scaled := BigSetScale(product, target, mode);
    if scaled.Ok? then Ok(Wrap64(BigScaleByPowerOfTen(scaled.value, target).unscaled)) else Err(scaled.error)
  }

  /** The result of a multiplication of x by y in the class and scale of x:
      the exact product rounded onto the scale of x, narrowed to a long. */
  function ProductOf(x: FixedPoint, y: FixedPoint, mode: RoundingMode): Result<FixedPoint>
    requires Valid(x) && Valid(y)
  {
    var t := LongValue(ProductAtScale(x, y, x.scale, mode));
    if t.Ok? then Ok(FixedPoint(x.tag, t.value, x.scale)) else Err(t.error)
  }

  /** At the scale of x the product divides by 10^s2, exactly when s2 is 0. */
  lemma ProductAtOwnScale(x: FixedPoint, y: FixedPoint, mode: RoundingMode)
    requires Valid(x) && Valid(y)
    ensures ProductAtScale(x, y, x.scale, mode) == RoundQuotient(x.mantissa * y.mantissa, Pow10(y.scale), mode)
  {
    assert x.scale + y.scale - x.scale == y.scale;
    if y.scale == 0 {
      RoundQuotientMultiple(x.mantissa * y.mantissa, 1, mode);
    }
  }

  /** Multiplying by a zero operand, by 1 or by -1 needs no rounding. */
  lemma ProductShortcuts(x: FixedPoint, y: FixedPoint, mode: RoundingMode)
    requires Valid(x) && Valid(y)
    ensures x.mantissa == 0 || y.mantissa == 0 ==> ProductAtScale(x, y, x.scale, mode) == Ok(0)
    ensures y.mantissa == Pow10(y.scale) ==> ProductAtScale(x, y, x.scale, mode) == Ok(x.mantissa)
    ensures y.mantissa == -(Pow10(y.scale) as int) ==> ProductAtScale(x, y, x.scale, mode) == Ok(-x.mantissa)
  {
    ProductAtOwnScale(x, y, mode);
    ShortcutQuotients(x.mantissa, y.mantissa, Pow10(y.scale), mode);
  }

  lemma ShortcutQuotients(m1: int, m2: int, p: int, mode: RoundingMode)
    requires p >= 1
    ensures m1 == 0 || m2 == 0 ==> RoundQuotient(m1 * m2, p, mode) == Ok(0)
    ensures m2 == p ==> RoundQuotient(m1 * m2, p, mode) == Ok(m1)
    ensures m2 == -p ==> RoundQuotient(m1 * m2, p, mode) == Ok(-m1)
  {
    if m1 == 0 || m2 == 0 {
      assert m1 * m2 == 0;
      RoundQuotientMultiple(0, p, mode);
    } else if m2 == p {
      RoundQuotientMultiple(m1, p, mode);
    } else if m2 == -p {
      assert m1 * m2 == (-m1) * p;
      RoundQuotientMultiple(-m1, p, mode);
    }
  }

  /** multiply: x * y in the class and scale of x, rounded by mode; the
      short-cuts for a zero operand and for y = 1 or -1 give what the
      general rule gives.  A result that does not fit is narrowed. */
  function Multiply(nativeAvailable: bool, x: FixedPoint, y: FixedPoint, mode: RoundingMode): (r: Result<FixedPoint>)
    requires Valid(x) && Valid(y)
    requires (!(x.mantissa == 0 || y.mantissa == 0 || IsOne(y) || IsMinusOne(y)) && y.scale > 0) ==>
               FitsLong(ProductAtScale(x, y, x.scale, mode))
    ensures r == ProductOf(x, y, mode)
    ensures r.Ok? ==> Valid(r.value) && r.value.tag == x.tag && r.value.scale == x.scale
  {
    ProductShortcuts(x, y, mode);
    NegatedMantissa(x.mantissa);
    if x.mantissa == 0 || y.mantissa == 0 then Ok(Zero(x))
    else if IsOne(y) then Ok(x)
    else if IsMinusOne(y) then Ok(Negate(x))
    else
      var m := MantissaOfMultiplication(nativeAvailable, x, y, x.scale, mode);
      if m.Ok? then Ok(NewInstanceOf(x, m.value)) else Err(m.error)
  }

  /** The short-cuts of gmultiply return one operand or its negation, each
      exactly the product, except where a negation of Long.MIN_VALUE wraps. */
  lemma ShortcutProductValue(x: FixedPoint, y: FixedPoint, r: FixedPoint)
    requires Valid(x) && Valid(y) && Valid(r)
    requires (x.mantissa == 0 && r == x) || (y.mantissa == 0 && r == y) ||
             (IsOne(x) && r == y) || (IsOne(y) && r == x) ||
             (IsMinusOne(x) && y.mantissa != LONG_MIN && r.scale == y.scale && r.mantissa == -y.mantissa) ||
             (IsMinusOne(y) && x.mantissa != LONG_MIN && r.scale == x.scale && r.mantissa == -x.mantissa)
    ensures Value18(r) * E18 == Value18(x) * Value18(y)
  {
    if x.mantissa == 0 { ZeroValue(x); }
    if y.mantissa == 0 { ZeroValue(y); }
    if IsMinusOne(x) && y.mantissa != LONG_MIN && r.scale == y.scale && r.mantissa == -y.mantissa {
      NegatedValueOf(y, r);
    } else if IsMinusOne(y) && x.mantissa != LONG_MIN && r.scale == x.scale && r.mantissa == -x.mantissa {
      NegatedValueOf(x, r);
    }
    UnitProducts(Value18(x), Value18(y), Value18(r), E18);
  }

  /** Multiplying by 0, 1 or -1 (1 being e) in integers. */
  lemma UnitProducts(a: int, b: int, v: int, e: int)
    ensures a == 0 && v == 0 ==> v * e == a * b
    ensures b == 0 && v == 0 ==> v * e == a * b
    ensures a == e && v == b ==> v * e == a * b
    ensures b == e && v == a ==> v * e == a * b
    ensures a == -e && v == -b ==> v * e == a * b
    ensures b == -e && v == -a ==> v * e == a * b
  {
  }

  /** multiply rounds the exact product to the scale of x: the error is
      less than one unit of the last place, |m1 * m2 - q * 10^s2| < 10^s2;
      with UNNECESSARY the result is the exact product, and it fails exactly
      when the product has more than s1 decimals. */
  lemma MultiplyRounding(nativeAvailable: bool, x: FixedPoint, y: FixedPoint, mode: RoundingMode)
    requires Valid(x) && Valid(y)
    requires FitsLong(ProductAtScale(x, y, x.scale, mode))
    ensures var r := Multiply(nativeAvailable, x, y, mode);
      r.Ok? ==> Abs(x.mantissa * y.mantissa - r.value.mantissa * Pow10(y.scale)) < Pow10(y.scale)
    ensures var r := Multiply(nativeAvailable, x, y, mode);
      r.Ok? && mode == UNNECESSARY ==> Value18(r.value) * E18 == Value18(x) * Value18(y)
    ensures Multiply(nativeAvailable, x, y, mode).Err? <==>
      mode == UNNECESSARY && (x.mantissa * y.mantissa) % Pow10(y.scale) != 0
  {
    var n, c := x.mantissa * y.mantissa, Pow10(y.scale);
    ProductAtOwnScale(x, y, mode);
    var t := RoundQuotient(n, c, mode);
    RoundSignedQuotientPositive(n, c, mode);
    RoundSignedQuotientError(n, c, mode);
    if t.Ok? {
      Wrap64Exact(t.value);
      if mode == UNNECESSARY {
        ExactProductValue(x, y, FixedPoint(x.tag, t.value, x.scale));
      }
    }
    ProductResult(x, y, mode, Multiply(nativeAvailable, x, y, mode), t);
  }

  lemma ExactProductValue(x: FixedPoint, y: FixedPoint, r: FixedPoint)
    requires Valid(x) && Valid(y) && r.scale == x.scale
    requires r.mantissa * Pow10(y.scale) == x.mantissa * y.mantissa
    ensures Value18(r) * E18 == Value18(x) * Value18(y)
  {
    Pow10Complement(y.scale);
    ExactProductRegroup(x.mantissa, y.mantissa, r.mantissa, Pow10(y.scale), Pow10(18 - x.scale), Pow10(18 - y.scale));
  }

  lemma ProductResult(x: FixedPoint, y: FixedPoint, mode: RoundingMode, r: Result<FixedPoint>, t: Result<int>)
    requires Valid(x) && Valid(y)
    requires t == ProductAtScale(x, y, x.scale, mode) && FitsLong(t)
    requires r == ProductOf(x, y, mode)
    ensures r.Ok? <==> t.Ok?
    ensures r.Ok? ==> r.value == FixedPoint(x.tag, t.value, x.scale)
  {
    if t.Ok? {
      Wrap64Exact(t.value);
    }
  }

  lemma ExactProductRegroup(a: int, b: int, q: int, p: int, p1: int, p2: int)
    requires q * p == a * b
    ensures (q * p1) * (p * p2) == (a * p1) * (b * p2)
  {
    assert (q * p1) * (p * p2) == (q * p) * (p1 * p2);
    assert (a * b) * (p1 * p2) == (a * p1) * (b * p2);
  }

  /** gmultiply: like multiply, but a zero operand or a factor of 1 or -1
      returns the other operand (or its negation) in its own class and
      scale. */
  function GMultiply(nativeAvailable: bool, x: FixedPoint, y: FixedPoint, mode: RoundingMode): (r: Result<FixedPoint>)
    requires Valid(x) && Valid(y)
    requires (!(x.mantissa == 0 || y.mantissa == 0 || IsOne(x) || IsMinusOne(x) || IsOne(y) || IsMinusOne(y)) &&
              y.scale > 0) ==> FitsLong(ProductAtScale(x, y, x.scale, mode))
    ensures r.Ok? ==> Valid(r.value)
    ensures x.mantissa != 0 && y.mantissa != 0 && !IsOne(x) && !IsMinusOne(x) ==> r == Multiply(nativeAvailable, x, y, mode)
  {
    if x.mantissa == 0 then Ok(x)
    else if y.mantissa == 0 then Ok(y)
    else if IsOne(x) then Ok(y)
    else if IsMinusOne(x) then Ok(Negate(y))
    else if IsOne(y) then Ok(x)
    else if IsMinusOne(y) then Ok(Negate(x))
    else
      var m := MantissaOfMultiplication(nativeAvailable, x, y, x.scale, mode);
      if m.Ok? then Ok(NewInstanceOf(x, m.value)) else Err(m.error)
  }

  /** The short-cuts of gmultiply are exact: the result is the product of
      the two numbers, except where a negation of Long.MIN_VALUE wraps. */
  lemma GMultiplyShortcuts(nativeAvailable: bool, x: FixedPoint, y: FixedPoint, mode: RoundingMode)
    requires Valid(x) && Valid(y)
    requires x.mantissa == 0 || y.mantissa == 0 || IsOne(x) || IsOne(y) ||
             (IsMinusOne(x) && y.mantissa != LONG_MIN) || (IsMinusOne(y) && x.mantissa != LONG_MIN)
    ensures var r := GMultiply(nativeAvailable, x, y, mode); r.Ok? && Value18(r.value) * E18 == Value18(x) * Value18(y)
  {
    NegatedMantissa(x.mantissa);
    NegatedMantissa(y.mantissa);
    ShortcutResult(x, y, GMultiply(nativeAvailable, x, y, mode));
  }

  lemma ShortcutResult(x: FixedPoint, y: FixedPoint, r: Result<FixedPoint>)
    requires Valid(x) && Valid(y)
    requires x.mantissa == 0 || y.mantissa == 0 || IsOne(x) || IsOne(y) ||
             (IsMinusOne(x) && y.mantissa != LONG_MIN) || (IsMinusOne(y) && x.mantissa != LONG_MIN)
    requires r == if x.mantissa == 0 then Ok(x) else if y.mantissa == 0 then Ok(y)
      else if IsOne(x) then Ok(y) else if IsMinusOne(x) then Ok(Negate(y))
      else if IsOne(y) then Ok(x) else Ok(Negate(x))
    ensures r.Ok? && Valid(r.value) && Value18(r.value) * E18 == Value18(x) * Value18(y)
  {
    ShortcutProductValue(x, y, r.value);
  }

  // ---------------------------------------------------------------- division

  /** The quotient x / y at the scale of x: the exact x.mantissa * 10^s2 /
      y.mantissa rounded by mode, then taken as a long. */
  function QuotientOf(x: FixedPoint, y: FixedPoint, mode: RoundingMode): Result<FixedPoint>
    requires Valid(x) && Valid(y) && y.mantissa != 0
  {
    var t := LongValue(RoundSignedQuotient(x.mantissa * Pow10(y.scale), y.mantissa, mode));
    if t.Ok? then Ok(FixedPoint(x.tag, t.value, x.scale)) else Err(t.error)
  }

  /** divide(that, rounding): a zero dividend gives zero (whatever the
      divisor), a divisor of 1 gives x and one of -1 gives negate(x);
      otherwise `scale_and_divide(mantissa, that.scale, that.mantissa)` at
      the class and scale of x. */
  function Divide(nativeAvailable: bool, x: FixedPoint, y: FixedPoint, mode: RoundingMode): (r: Result<FixedPoint>)
    requires Valid(x) && Valid(y)
    requires (x.mantissa != 0 && !IsOne(y) && !IsMinusOne(y) && nativeAvailable) ==> y.mantissa > 0
    requires (x.mantissa != 0 && !IsOne(y) && !IsMinusOne(y) && y.mantissa != 0) ==>
               FitsLong(RoundSignedQuotient(x.mantissa * Pow10(y.scale), y.mantissa, mode))
    ensures x.mantissa == 0 ==> r == Ok(Zero(x))
    ensures x.mantissa != 0 && y.mantissa == 0 ==> r == Err(DivisionByZero)
    ensures y.mantissa != 0 ==> r == QuotientOf(x, y, mode)
    ensures r.Ok? ==> Valid(r.value) && r.value.tag == x.tag && r.value.scale == x.scale
  {
    if x.mantissa == 0 then
      ShortcutQuotient(x, y, mode, Ok(Zero(x)));
      Ok(Zero(x))
    else if IsOne(y) then
      ShortcutQuotient(x, y, mode, Ok(x));
      Ok(x)
    else if IsMinusOne(y) then
      ShortcutQuotient(x, y, mode, Ok(Negate(x)));
      Ok(Negate(x))
    else
      var t := ScaleAndDivide(nativeAvailable, x.mantissa, y.scale, y.mantissa, mode);
      var r := if t.Ok? then Ok(NewInstanceOf(x, t.value)) else Err(t.error);
      GeneralQuotient(x, y, mode, t, r);
      r
  }

  /** The short-cut results of divide are the rounded quotient. */
  lemma ShortcutQuotient(x: FixedPoint, y: FixedPoint, mode: RoundingMode, r: Result<FixedPoint>)
    requires Valid(x) && Valid(y)
    requires (x.mantissa == 0 && r == Ok(Zero(x))) || (IsOne(y) && r == Ok(x)) || (IsMinusOne(y) && r == Ok(Negate(x)))
    ensures y.mantissa != 0 ==> r == QuotientOf(x, y, mode)
  {
    DivideShortcuts(x, y, mode);
    NegatedMantissa(x.mantissa);
    Wrap64Exact(x.mantissa);
  }

  /** The general path of divide is the rounded quotient, or the division
      by zero that scale_and_divide reports. */
  lemma GeneralQuotient(x: FixedPoint, y: FixedPoint, mode: RoundingMode, t: Result<int>, r: Result<FixedPoint>)
    requires Valid(x) && Valid(y)
    requires y.mantissa != 0 ==> t == RoundSignedQuotient(x.mantissa * Pow10(y.scale), y.mantissa, mode) && FitsLong(t)
    requires y.mantissa == 0 ==> t == Err(DivisionByZero)
    requires r == if t.Ok? then Ok(FixedPoint(x.tag, t.value, x.scale)) else Err(t.error)
    ensures y.mantissa != 0 ==> r == QuotientOf(x, y, mode)
    ensures y.mantissa == 0 ==> r == Err(DivisionByZero)
  {
    if t.Ok? {
      Wrap64Exact(t.value);
    }
  }

  /** The short-cuts of divide agree with the rounded quotient: 0 / y is 0,
      x / 1 is x and x / -1 is -x. */
  lemma DivideShortcuts(x: FixedPoint, y: FixedPoint, mode: RoundingMode)
    requires Valid(x) && Valid(y)
    ensures y.mantissa != 0 && x.mantissa == 0 ==>
      RoundSignedQuotient(x.mantissa * Pow10(y.scale), y.mantissa, mode) == Ok(0)
    ensures IsOne(y) ==> RoundSignedQuotient(x.mantissa * Pow10(y.scale), y.mantissa, mode) == Ok(x.mantissa)
    ensures IsMinusOne(y) ==> RoundSignedQuotient(x.mantissa * Pow10(y.scale), y.mantissa, mode) == Ok(-x.mantissa)
  {
    SignedQuotientShortcuts(x.mantissa, y.mantissa, Pow10(y.scale), mode);
  }

  lemma SignedQuotientShortcuts(m: int, c: int, p: int, mode: RoundingMode)
    requires p > 0
    ensures c != 0 && m == 0 ==> RoundSignedQuotient(m * p, c, mode) == Ok(0)
    ensures c == p ==> RoundSignedQuotient(m * p, c, mode) == Ok(m)
    ensures c == -p ==> RoundSignedQuotient(m * p, c, mode) == Ok(-m)
  {
    RoundQuotientMultiple(m, p, mode);
    if c != 0 && m == 0 {
      assert m * p == 0 * Abs(c);
      RoundQuotientMultiple(0, Abs(c), mode);
    }
  }

  /** The quotient is within one unit of the last place of x's scale of the
      exact x / y: |x.mantissa * 10^s2 - q * y.mantissa| < |y.mantissa|.
      With UNNECESSARY it is exact, value(q) * value(y) == value(x), and it
      fails exactly when the division does not come out even. */
  lemma DivideRounding(nativeAvailable: bool, x: FixedPoint, y: FixedPoint, mode: RoundingMode)
    requires Valid(x) && Valid(y) && y.mantissa != 0
    requires FitsLong(RoundSignedQuotient(x.mantissa * Pow10(y.scale), y.mantissa, mode))
    requires (x.mantissa != 0 && !IsOne(y) && !IsMinusOne(y) && nativeAvailable) ==> y.mantissa > 0
    ensures var r := Divide(nativeAvailable, x, y, mode);
      r.Ok? ==> Abs(x.mantissa * Pow10(y.scale) - r.value.mantissa * y.mantissa) < Abs(y.mantissa)
    ensures var r := Divide(nativeAvailable, x, y, mode);
      r.Ok? && mode == UNNECESSARY ==> Value18(r.value) * Value18(y) == Value18(x) * E18
    ensures Divide(nativeAvailable, x, y, mode).Err? <==>
      mode == UNNECESSARY && (x.mantissa * Pow10(y.scale)) % Abs(y.mantissa) != 0
  {
    var n := x.mantissa * Pow10(y.scale);
    var t := RoundSignedQuotient(n, y.mantissa, mode);
    RoundSignedQuotientError(n, y.mantissa, mode);
    if t.Ok? {
      Wrap64Exact(t.value);
      if mode == UNNECESSARY {
        ExactQuotientValue(x.mantissa, y.mantissa, t.value, x.scale, y.scale);
      }
    }
    QuotientResult(x, y, mode, Divide(nativeAvailable, x, y, mode), t);
  }

  lemma QuotientResult(x: FixedPoint, y: FixedPoint, mode: RoundingMode, r: Result<FixedPoint>, t: Result<int>)
    requires Valid(x) && Valid(y) && y.mantissa != 0
    requires t == RoundSignedQuotient(x.mantissa * Pow10(y.scale), y.mantissa, mode) && FitsLong(t)
    requires r == QuotientOf(x, y, mode)
    ensures r.Ok? <==> t.Ok?
    ensures r.Ok? ==> r.value == FixedPoint(x.tag, t.value, x.scale)
  {
    if t.Ok? {
      Wrap64Exact(t.value);
    }
  }

  /** An exact quotient q of a by b at the scales s1 and s2 has the value of
      x / y. */
  lemma ExactQuotientValue(a: int, b: int, q: int, s1: nat, s2: nat)
    requires s1 <= 18 && s2 <= 18 && q * b == a * Pow10(s2)
    ensures (q * Pow10(18 - s1)) * (b * Pow10(18 - s2)) == (a * Pow10(18 - s1)) * E18
  {
    Pow10Complement(s2);
    ExactQuotientRegroup(a, b, q, Pow10(s2), Pow10(18 - s1), Pow10(18 - s2));
  }

  lemma ExactQuotientRegroup(a: int, b: int, q: int, p: int, p1: int, p2: int)
    requires q * b == a * p
    ensures (q * p1) * (b * p2) == (a * p1) * (p * p2)
  {
    assert (q * p1) * (b * p2) == (q * b) * (p1 * p2);
    assert (a * p) * (p1 * p2) == (a * p1) * (p * p2);
  }

  /** divide(int): 0 throws, 1 gives x, -1 gives negate(x), any other
      divisor the Java long quotient `mantissa / divisor`, truncated toward
      zero. */
  function DivideByInt(x: FixedPoint, divisor: int): (r: Result<FixedPoint>)
    requires Valid(x) && IsInt(divisor)
    ensures r.Err? <==> divisor == 0
    ensures r.Err? ==> r.error == DivisionByZero
    ensures r.Ok? ==> Valid(r.value) && r.value == FixedPoint(x.tag, Wrap64(JavaDiv(x.mantissa, divisor)), x.scale)
  {
    if divisor == 0 then Err(DivisionByZero)
    else if divisor == 1 then
      QuotientByOne(x);
      Ok(x)
    else if divisor == -1 then
      QuotientByMinusOne(x, Negate(x));
      Ok(Negate(x))
    else
      JavaDivFits(x.mantissa, divisor);
      Wrap64Exact(JavaDiv(x.mantissa, divisor));
      Ok(NewInstanceOf(x, JavaDiv(x.mantissa, divisor)))
  }

  lemma QuotientByOne(x: FixedPoint)
    requires Valid(x)
    ensures x == FixedPoint(x.tag, Wrap64(JavaDiv(x.mantissa, 1)), x.scale)
  {
    var m := x.mantissa;
    assert Abs(m) / 1 == Abs(m);
    assert JavaDiv(m, 1) == m;
    Wrap64Exact(m);
  }

  lemma QuotientByMinusOne(x: FixedPoint, r: FixedPoint)
    requires Valid(x) && r == Negate(x)
    ensures r == FixedPoint(x.tag, Wrap64(JavaDiv(x.mantissa, -1)), x.scale)
  {
    var m := x.mantissa;
    assert Abs(m) / 1 == Abs(m);
    assert JavaDiv(m, -1) == -m;
    NegatedMantissa(m);
    assert r.mantissa == Wrap64(-m);
  }

  /** remainder(int): 0 throws, 1 and -1 give zero, any other divisor
      `mantissa - (mantissa / divisor) * divisor`, which is Java's `%`.
      (The source's second test for -1 comes after the one that already
      returns zero for it, so that branch is never taken and is not part
      of the model.) */
  function Remainder(x: FixedPoint, divisor: int): (r: Result<FixedPoint>)
    requires Valid(x) && IsInt(divisor)
    ensures r.Err? <==> divisor == 0
    ensures r.Err? ==> r.error == DivisionByZero
    ensures r.Ok? ==> Valid(r.value) && r.value == FixedPoint(x.tag, JavaRem(x.mantissa, divisor), x.scale)
  {
    if divisor == 0 then Err(DivisionByZero)
    else if divisor == 1 || divisor == -1 then
      assert Abs(x.mantissa) % 1 == 0;
      Ok(Zero(x))
    else
      JavaDivFits(x.mantissa, divisor);
      var quotient := JavaDiv(x.mantissa, divisor);
      Ok(NewInstanceOf(x, Sub64(x.mantissa, Mul64(quotient, divisor))))
  }

  /** divide(int) and remainder(int) together give back x: in long
      arithmetic quotient * divisor + remainder == mantissa; the remainder
      is smaller than the divisor in magnitude and has the sign of x. */
  lemma DivideRemainder(x: FixedPoint, divisor: int)
    requires Valid(x) && IsInt(divisor) && divisor != 0
    ensures var q, m := DivideByInt(x, divisor).value, Remainder(x, divisor).value;
      q.scale == m.scale == x.scale && Wrap64(q.mantissa * divisor + m.mantissa) == x.mantissa
    ensures var m := Remainder(x, divisor).value.mantissa;
      Abs(m) < Abs(divisor) && (m == 0 || (m > 0 <==> x.mantissa > 0))
  {
    var q, m := DivideByInt(x, divisor).value.mantissa, Remainder(x, divisor).value.mantissa;
    JavaDivRem(x.mantissa, divisor);
    if Abs(divisor) >= 2 {
      JavaDivFits(x.mantissa, divisor);
      Wrap64Exact(JavaDiv(x.mantissa, divisor));
      Wrap64Exact(x.mantissa);
    } else {
      Wrap64Mul(-x.mantissa, divisor);
      Wrap64Exact(x.mantissa);
      assert JavaDiv(x.mantissa, divisor) == x.mantissa * divisor;
      assert x.mantissa * divisor * divisor == x.mantissa;
    }
  }
}
