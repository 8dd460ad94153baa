/** `FixedPointNative`: the wide multiply-and-round helpers.  Each has two
    paths, chosen by the process-wide `nativeAvailable` flag (a parameter
    here): the native `multdiv128` routine, and a fallback through
    java.math.BigDecimal.  Both are shown to compute one function over
    mathematical integers: the exact product or quotient rounded by mode. */
module FixedPointNative {
  import opened Wrappers
  import opened LongArith
  import opened Rounding
  import opened LongDivision

  /** The part of java.math.BigDecimal the fallback paths use: a value
      unscaled * 10^-scale held exactly. */
  datatype BigDecimal = BigDecimal(unscaled: int, scale: int)

  /** BigDecimal.multiply: exact. */
  function BigMultiply(x: BigDecimal, y: BigDecimal): BigDecimal {
    BigDecimal(x.unscaled * y.unscaled, x.scale + y.scale)
  }

  /** BigDecimal.setScale(k, mode): the same value with k decimals, rounded by
      mode when digits are dropped. */
  function BigSetScale(x: BigDecimal, k: int, mode: RoundingMode): Result<BigDecimal> {
    if k >= x.scale then Ok(BigDecimal(x.unscaled * Pow10(k - x.scale), k))
    else
      var r := RoundQuotient(x.unscaled, Pow10(x.scale - k), mode);
      if r.Ok? then Ok(BigDecimal(r.value, k)) else Err(r.error)
  }

  /** BigDecimal.divide(y, k, mode): x / y rounded by mode to k decimals;
      x / y * 10^k == x.unscaled * 10^(y.scale - x.scale + k) / y.unscaled. */
  function BigDivide(x: BigDecimal, y: BigDecimal, k: int, mode: RoundingMode): Result<BigDecimal> {
    if y.unscaled == 0 then Err(DivisionByZero)
    else
      var e := y.scale - x.scale + k;
      var r := if e >= 0 then RoundSignedQuotient(x.unscaled * Pow10(e), y.unscaled, mode)
               else RoundSignedQuotient(x.unscaled, y.unscaled * Pow10(-e), mode);
      if r.Ok? then Ok(BigDecimal(r.value, k)) else Err(r.error)
  }

  /** BigDecimal.scaleByPowerOfTen(n): the value times 10^n, exactly. */
  function BigScaleByPowerOfTen(x: BigDecimal, n: int): BigDecimal {
    BigDecimal(x.unscaled, x.scale - n)
  }

  /** A rounded result the caller promises to fit a long: `longValue()`
      narrows silently, so results are defined only where they fit. */
  predicate FitsLong(r: Result<int>) {
    r.Ok? ==> IsLong(r.value)
  }

  /** The native routine `multdiv128(a, b, c, mode)`: a * b / c with a 128-bit
      intermediate, rounded by mode; documented for c > 0 only. */
  function MultDiv128(a: int, b: int, c: int, mode: RoundingMode): Result<int>
    requires IsLong(a) && IsLong(b) && IsLong(c) && c > 0
  {
    RoundQuotient(a * b, c, mode)
  }

  lemma RoundQuotientByOne(n: int, mode: RoundingMode)
    ensures RoundQuotient(n, 1, mode) == Ok(n)
  {
  }

  /** multiply_and_scale(a, b, d, mode): the exact a * b / 10^d rounded by
      mode, on either path, with no intermediate truncation. */
  function MultiplyAndScale(nativeAvailable: bool, a: int, b: int, d: int, mode: RoundingMode): (r: Result<int>)
    requires IsLong(a) && IsLong(b) && 0 <= d <= 18
    requires FitsLong(RoundQuotient(a * b, Pow10(d), mode))
    ensures r == RoundQuotient(a * b, Pow10(d), mode)
    ensures r.Ok? ==> IsLong(r.value)
  {
    if nativeAvailable then
      MultDiv128(a, b, PowerOfTen(d), mode)
    else
      var product := BigMultiply(BigDecimal(a, 0), BigDecimal(b, d));
      RoundQuotientByOne(a * b, mode);
      var scaled := BigSetScale(product, 0, mode);
      if scaled.Ok? then Ok(scaled.value.unscaled) else Err(scaled.error)
  }

  /** scale_and_divide(a, d, divisor, mode): the exact a * 10^d / divisor
      rounded by mode.  The fallback handles any divisor and reports a zero
      one; the native routine needs divisor > 0. */
  function ScaleAndDivide(nativeAvailable: bool, a: int, d: int, divisor: int, mode: RoundingMode): (r: Result<int>)
    requires IsLong(a) && IsLong(divisor) && 0 <= d <= 18
    requires nativeAvailable ==> divisor > 0
    requires divisor != 0 ==> FitsLong(RoundSignedQuotient(a * Pow10(d), divisor, mode))
    ensures divisor == 0 ==> r == Err(DivisionByZero)
    ensures divisor != 0 ==> r == RoundSignedQuotient(a * Pow10(d), divisor, mode)
    ensures r.Ok? ==> IsLong(r.value)
  {
    if nativeAvailable then
      MultDiv128(a, PowerOfTen(d), divisor, mode)
    else
      var quotient := BigDivide(BigDecimal(a, 0), BigDecimal(divisor, d), 0, mode);
      if quotient.Ok? then Ok(quotient.value.unscaled) else Err(quotient.error)
  }

  /** Where a * b fits a long (and 10^d is even, d >= 1), the wide path gives
      what divide_longs gives on the narrow product, the BigDecimal reference
      semantics. */
  lemma MultiplyAndScaleIsDivideLongs(nativeAvailable: bool, a: int, b: int, d: int, mode: RoundingMode)
    requires IsLong(a) && IsLong(b) && 1 <= d <= 18 && IsLong(a * b)
    ensures FitsLong(RoundQuotient(a * b, Pow10(d), mode))
    ensures MultiplyAndScale(nativeAvailable, a, b, d, mode) == DivideLongs(a * b, PowerOfTen(d), mode)
  {
    Pow10Even(d);
    DivideLongsIsRoundQuotient(a * b, PowerOfTen(d), mode);
  }
}
