/** The fixed-scale classes Units, MilliUnits, MicroUnits and PicoUnits.
    The four Java classes differ only in the constants DECIMALS and
    UNIT_MANTISSA, so they are modelled once, parametrised by the class tag
    (see ScaleType.Decimals and ScaleType.UnitMantissa). */
module FixedScaleTypes {
  import opened Wrappers
  import opened LongArith
  import opened Rounding
  import opened LongDivision
  import opened FixedPointBase

  /** ZERO: the cached zero of the class. */
  function ZeroOf(t: ScaleType): (r: FixedPoint)
    requires t.IsFixed()
    ensures Valid(r) && r.tag == t && r.scale == t.Decimals() && r.mantissa == 0
    ensures Value18(r) == 0
  {
    FixedPoint(t, 0, t.Decimals())
  }

  /** ONE: the cached one of the class, with mantissa UNIT_MANTISSA. */
  function OneOf(t: ScaleType): (r: FixedPoint)
    requires t.IsFixed()
    ensures Valid(r) && r.tag == t && r.scale == t.Decimals() && r.mantissa == t.UnitMantissa()
    ensures Value18(r) == E18
  {
    One(ZeroOf(t))
  }

  /** of(long mantissa): the value with exactly that mantissa (ZERO.newInstanceOf). */
  function Of(t: ScaleType, mantissa: int): (r: FixedPoint)
    requires t.IsFixed() && IsLong(mantissa)
    ensures Valid(r) && r == FixedPoint(t, mantissa, t.Decimals())
    ensures mantissa == 0 ==> r == ZeroOf(t)
    ensures mantissa == t.UnitMantissa() ==> r == OneOf(t)
  {
    NewInstanceOf(ZeroOf(t), mantissa)
  }

  /** valueOf(long value): the integral number `value`, whose mantissa is
      value * UNIT_MANTISSA in long arithmetic (Units takes the value itself,
      which is the same thing, UNIT_MANTISSA being 1). */
  function ValueOf(t: ScaleType, value: int): (r: FixedPoint)
    requires t.IsFixed() && IsLong(value)
    ensures Valid(r) && r.tag == t && r.scale == t.Decimals()
    ensures r.mantissa == Wrap64(value * Pow10(t.Decimals()))
  {
    Of(t, Wrap64(value * t.UnitMantissa()))
  }

  /** Where value * UNIT_MANTISSA fits a long, valueOf stands for the
      integer value. */
  lemma ValueOfValue(t: ScaleType, value: int)
    requires t.IsFixed() && IsLong(value) && IsLong(value * Pow10(t.Decimals()))
    ensures Value18(ValueOf(t, value)) == value * E18
  {
    var d := t.Decimals();
    Wrap64Exact(value * Pow10(d));
    Pow10Complement(d);
    ScaledProduct(value, Pow10(d), Pow10(18 - d), E18);
  }

  lemma ScaledProduct(v: int, p: int, q: int, e: int)
    requires p * q == e
    ensures (v * p) * q == v * e
  {
    MulAssoc(v, p, q);
  }

  /** of(that): retyping into class t.  Widening (that has at most DECIMALS
      decimals) multiplies the mantissa by 10^(DECIMALS - scale) in long
      arithmetic; narrowing is refused (ArithmeticException).  For Units the
      source tests `scale == 0`, which is the same condition. */
  function Retype(t: ScaleType, that: FixedPoint): (r: Result<FixedPoint>)
    requires t.IsFixed() && Valid(that)
    ensures r.Err? <==> that.scale > t.Decimals()
    ensures r.Err? ==> r.error == PrecisionLoss
    ensures r.Ok? ==> Valid(r.value) && r.value.tag == t && r.value.scale == t.Decimals()
    ensures r.Ok? ==> r.value.mantissa == Wrap64(that.mantissa * Pow10(t.Decimals() - that.scale))
  {
    var scaleDiff := t.Decimals() - that.scale;
    if scaleDiff >= 0 then Ok(Of(t, Wrap64(that.mantissa * PowerOfTen(scaleDiff))))
    else Err(PrecisionLoss)
  }

  /** Widening is exact where the scaled mantissa fits a long: the retyped
      value is numerically equal to the original (compareTo gives 0). */
  lemma RetypeExact(t: ScaleType, that: FixedPoint)
    requires t.IsFixed() && Valid(that) && that.scale <= t.Decimals()
    requires IsLong(that.mantissa * Pow10(t.Decimals() - that.scale))
    ensures Retype(t, that).Ok?
    ensures Value18(Retype(t, that).value) == Value18(that)
    ensures CompareTo(Retype(t, that).value, that) == 0
  {
    var res := Retype(t, that);
    Widened(t, that, res);
    WidenedValue(that, res.value, t.Decimals() - that.scale);
    CompareToValue(res.value, that);
  }

  /** The fields of a widening that does not overflow. */
  lemma Widened(t: ScaleType, that: FixedPoint, r: Result<FixedPoint>)
    requires t.IsFixed() && Valid(that) && that.scale <= t.Decimals()
    requires IsLong(that.mantissa * Pow10(t.Decimals() - that.scale))
    requires r == Retype(t, that)
    ensures r.Ok? && Valid(r.value) && r.value.tag == t && r.value.scale == t.Decimals()
    ensures r.value.mantissa == that.mantissa * Pow10(t.Decimals() - that.scale)
  {
    Wrap64Exact(that.mantissa * Pow10(t.Decimals() - that.scale));
  }

  lemma WidenedValue(x: FixedPoint, r: FixedPoint, k: nat)
    requires 0 <= x.scale && x.scale + k <= 18 && r.scale == x.scale + k
    requires r.mantissa == x.mantissa * Pow10(k)
    ensures Value18(r) == Value18(x)
  {
    var p, q := Pow10(k), Pow10(18 - r.scale);
    Pow10Add(k, 18 - r.scale);
    assert 18 - x.scale == k + (18 - r.scale);
    MulAssoc(x.mantissa, p, q);
  }

  /** of(that, rounding): widening as in of(that); narrowing divides the
      mantissa by 10^(scale - DECIMALS) with divide_longs in the given mode. */
  function RetypeRounded(t: ScaleType, that: FixedPoint, mode: RoundingMode): (r: Result<FixedPoint>)
    requires t.IsFixed() && Valid(that)
    ensures that.scale <= t.Decimals() ==> r == Retype(t, that)
    ensures r.Ok? ==> Valid(r.value) && r.value.tag == t && r.value.scale == t.Decimals()
    ensures that.scale > t.Decimals() ==>
      var q := RoundQuotient(that.mantissa, Pow10(that.scale - t.Decimals()), mode);
      (r.Ok? <==> q.Ok?) && (r.Ok? ==> r.value.mantissa == q.value)
  {
    var scaleDiff := t.Decimals() - that.scale;
    if scaleDiff >= 0 then Ok(Of(t, Wrap64(that.mantissa * PowerOfTen(scaleDiff))))
    else
      var divisor := PowerOfTen(-scaleDiff);
      var q := DivideLongs(that.mantissa, divisor, mode);
      var r := if q.Ok? then Ok(Of(t, q.value)) else Err(q.error);
      NarrowedResult(t, that, mode, q, r);
      r
  }

  lemma NarrowedResult(t: ScaleType, that: FixedPoint, mode: RoundingMode, q: Result<int>, r: Result<FixedPoint>)
    requires t.IsFixed() && Valid(that) && that.scale > t.Decimals()
    requires q == DivideLongs(that.mantissa, PowerOfTen(that.scale - t.Decimals()), mode)
    requires r == if q.Ok? then Ok(Of(t, q.value)) else Err(q.error)
    ensures r.Ok? ==> Valid(r.value) && r.value.tag == t && r.value.scale == t.Decimals()
    ensures var q' := RoundQuotient(that.mantissa, Pow10(that.scale - t.Decimals()), mode);
      (r.Ok? <==> q'.Ok?) && (r.Ok? ==> r.value.mantissa == q'.value)
  {
    var k := that.scale - t.Decimals();
    Pow10Even(k);
    DivideLongsIsRoundQuotient(that.mantissa, Pow10(k), mode);
  }

  /** Widening into a class with more decimals and rounding back gives the
      original value, in every rounding mode. */
  lemma RetypeRoundTrip(t: ScaleType, x: FixedPoint, mode: RoundingMode)
    requires t.IsFixed() && Valid(x) && x.tag.IsFixed() && x.scale <= t.Decimals()
    requires IsLong(x.mantissa * Pow10(t.Decimals() - x.scale))
    ensures Retype(t, x).Ok?
    ensures RetypeRounded(x.tag, Retype(t, x).value, mode) == Ok(x)
  {
    RoundTripAt(t, x, mode, Retype(t, x), RetypeRounded(x.tag, Retype(t, x).value, mode));
  }

  lemma RoundTripAt(t: ScaleType, x: FixedPoint, mode: RoundingMode, res: Result<FixedPoint>, r: Result<FixedPoint>)
    requires t.IsFixed() && Valid(x) && x.tag.IsFixed() && x.scale <= t.Decimals()
    requires IsLong(x.mantissa * Pow10(t.Decimals() - x.scale))
    requires res == Retype(t, x) && res.Ok? && r == RetypeRounded(x.tag, res.value, mode)
    ensures r == Ok(x)
  {
    Widened(t, x, res);
    RoundBack(x, res.value, mode, r);
  }

  lemma RoundBack(x: FixedPoint, y: FixedPoint, mode: RoundingMode, r: Result<FixedPoint>)
    requires Valid(x) && Valid(y) && x.tag.IsFixed() && x.scale <= y.scale
    requires y.mantissa == x.mantissa * Pow10(y.scale - x.scale)
    requires r == RetypeRounded(x.tag, y, mode)
    ensures r == Ok(x)
  {
    if x.scale < y.scale {
      RoundBackNarrowing(x, y, mode, r);
    } else {
      RetypeSameScale(x, y, mode, r);
    }
    SameFields(x, r);
  }

  lemma RoundBackNarrowing(x: FixedPoint, y: FixedPoint, mode: RoundingMode, r: Result<FixedPoint>)
    requires Valid(x) && Valid(y) && x.tag.IsFixed() && x.scale < y.scale
    requires y.mantissa == x.mantissa * Pow10(y.scale - x.scale)
    requires r == RetypeRounded(x.tag, y, mode)
    ensures r.Ok? && r.value.mantissa == x.mantissa && r.value.tag == x.tag && r.value.scale == x.scale
  {
    RoundQuotientMultiple(x.mantissa, Pow10(y.scale - x.scale), mode);
    NarrowedMultiple(x.tag, y, mode, x.mantissa, r);
  }

  lemma RetypeSameScale(x: FixedPoint, y: FixedPoint, mode: RoundingMode, r: Result<FixedPoint>)
    requires Valid(x) && Valid(y) && x.tag.IsFixed() && y.scale == x.scale && y.mantissa == x.mantissa
    requires r == RetypeRounded(x.tag, y, mode)
    ensures r.Ok? && r.value.mantissa == x.mantissa && r.value.tag == x.tag && r.value.scale == x.scale
  {
    assert Pow10(0) == 1;
    Wrap64Exact(x.mantissa);
  }

  lemma NarrowedMultiple(t: ScaleType, y: FixedPoint, mode: RoundingMode, m: int, r: Result<FixedPoint>)
    requires t.IsFixed() && Valid(y) && y.scale > t.Decimals()
    requires RoundQuotient(y.mantissa, Pow10(y.scale - t.Decimals()), mode) == Ok(m)
    requires r == RetypeRounded(t, y, mode)
    ensures r.Ok? && r.value.mantissa == m && r.value.tag == t && r.value.scale == t.Decimals()
  {
  }

  lemma SameFields(x: FixedPoint, r: Result<FixedPoint>)
    requires r.Ok? && r.value.tag == x.tag && r.value.scale == x.scale && r.value.mantissa == x.mantissa
    ensures r == Ok(x)
  {
  }
}
