/** `FixedPointBase.divide_longs`: division of two longs, rounded by a
    RoundingMode, computed from Java's truncated quotient and remainder. */
module LongDivision {
  import opened Wrappers
  import opened LongArith
  import opened Rounding

  /** A non-zero remainder leaves room for one step away from the quotient. */
  lemma QuotientRoom(a: int, b: int)
    requires IsLong(a) && b > 0
    ensures JavaRem(a, b) != 0 ==> IsLong(JavaDiv(a, b) + 1) && IsLong(JavaDiv(a, b) - 1)
  {
    JavaDivRem(a, b);
    if JavaRem(a, b) != 0 {
      var q := JavaDiv(a, b);
      assert b >= 2;
      if q > 0 {
        MulLeMonotone(2, b, q);
      } else if q < 0 {
        MulLeMonotone(2, b, -q);
        assert (-q) * b == -(q * b);
      }
    }
  }

  /** divide_longs as written, for the positive divisors every caller passes. */
  function DivideLongs(a: int, b: int, rounding: RoundingMode): (r: Result<int>)
    requires IsLong(a) && IsLong(b) && b > 0
    ensures r.Ok? ==> IsLong(r.value)
  {
    QuotientRoom(a, b);
    var tmp := JavaDiv(a, b);
    var mod := JavaRem(a, b);
    var half := ShiftRightOne(b);
    if mod == 0 then Ok(tmp)  // no rounding required, whatever the mode
    else
      match rounding
      case UP => Ok(tmp + (if a >= 0 then 1 else -1))
      case DOWN => Ok(tmp)
      case CEILING => Ok(if a >= 0 then tmp + 1 else tmp)
      case FLOOR => Ok(if a < 0 then tmp - 1 else tmp)
      case HALF_UP =>
        if a >= 0 then Ok(if mod >= half then tmp + 1 else tmp)
        else Ok(if mod <= -half then tmp - 1 else tmp)
      case HALF_DOWN =>
        if a >= 0 then Ok(if mod > half then tmp + 1 else tmp)
        else Ok(if mod < -half then tmp - 1 else tmp)
      case HALF_EVEN =>
        if a >= 0 then
          (if mod > half then Ok(tmp + 1) else if mod < half then Ok(tmp) else Ok(tmp + LowBit(tmp)))
        else
          (if mod < -half then Ok(tmp - 1) else if mod > -half then Ok(tmp) else Ok(tmp - LowBit(tmp)))
      case UNNECESSARY => Err(InexactResult)
  }

  lemma DivideLongsNonNegative(a: int, b: int, mode: RoundingMode)
    requires IsLong(a) && IsLong(b) && b > 0 && a >= 0
    requires mode == HALF_UP || mode == HALF_EVEN ==> b % 2 == 0
    ensures DivideLongs(a, b, mode) == RoundQuotient(a, b, mode)
  {
    JavaDivPositive(a, b);
    var h := ShiftRightOne(b);
    assert b == 2 * h + b % 2;
    var rem := a % b;
    if a == 0 {
      EuclidUnique(a, b, 0, 0);
    }
    if rem != 0 {
      match mode
      case HALF_UP =>
        assert rem >= h <==> 2 * rem >= b;
      case HALF_DOWN =>
        assert rem > h <==> 2 * rem > b;
      case HALF_EVEN =>
        assert rem > h <==> 2 * rem > b;
        assert rem < h <==> 2 * rem < b;
      case _ =>
    }
  }

  lemma DivideLongsNegative(a: int, b: int, mode: RoundingMode)
    requires IsLong(a) && IsLong(b) && b > 0 && a < 0
    requires mode == HALF_UP || mode == HALF_EVEN ==> b % 2 == 0
    ensures DivideLongs(a, b, mode) == RoundQuotient(a, b, mode)
  {
    if (-a) % b == 0 {
      DivideLongsNegativeExact(a, b, mode);
    } else {
      DivideLongsNegativeInexact(a, b, mode);
    }
  }

  lemma DivideLongsNegativeExact(a: int, b: int, mode: RoundingMode)
    requires IsLong(a) && IsLong(b) && b > 0 && a < 0 && (-a) % b == 0
    ensures DivideLongs(a, b, mode) == RoundQuotient(a, b, mode)
  {
    JavaDivPositive(a, b);
    var q' := (-a) / b;
    assert -a == q' * b;
    EuclidUnique(a, b, -q', 0);
  }

  lemma DivideLongsNegativeInexact(a: int, b: int, mode: RoundingMode)
    requires IsLong(a) && IsLong(b) && b > 0 && a < 0 && (-a) % b != 0
    requires mode == HALF_UP || mode == HALF_EVEN ==> b % 2 == 0
    ensures DivideLongs(a, b, mode) == RoundQuotient(a, b, mode)
  {
    JavaDivPositive(a, b);
    var h := ShiftRightOne(b);
    assert b == 2 * h + b % 2;
    var q', r' := (-a) / b, (-a) % b;
    assert -a == q' * b + r';
    assert a == (-q' - 1) * b + (b - r');
    EuclidUnique(a, b, -q' - 1, b - r');
    assert LowBit(-q') == 0 ==> (-q' - 1) % 2 == 1;
  }

  /** divide_longs agrees with exact rounding for every positive divisor in the
      directed modes, DOWN, UNNECESSARY and HALF_DOWN, and for every even
      divisor in HALF_UP and HALF_EVEN. */
  lemma {:induction false} DivideLongsIsRoundQuotient(a: int, b: int, mode: RoundingMode)
    requires IsLong(a) && IsLong(b) && b > 0
    requires mode == HALF_UP || mode == HALF_EVEN ==> b % 2 == 0
    ensures DivideLongs(a, b, mode) == RoundQuotient(a, b, mode)
  {
    if a >= 0 {
      DivideLongsNonNegative(a, b, mode);
    } else {
      DivideLongsNegative(a, b, mode);
    }
  }

  /** An exact division returns the truncated quotient in every mode. */
  lemma DivideLongsExact(a: int, b: int, mode: RoundingMode)
    requires IsLong(a) && IsLong(b) && b > 0 && JavaRem(a, b) == 0
    ensures DivideLongs(a, b, mode) == Ok(JavaDiv(a, b))
    ensures JavaDiv(a, b) * b == a
  {
    JavaDivRem(a, b);
  }

  /** divide_longs throws only for UNNECESSARY with a non-zero remainder. */
  lemma DivideLongsFails(a: int, b: int, mode: RoundingMode)
    requires IsLong(a) && IsLong(b) && b > 0
    ensures DivideLongs(a, b, mode).Err? <==> mode == UNNECESSARY && JavaRem(a, b) != 0
  {
  }

  /** The directed modes for a positive divisor: DOWN truncates, UP moves one
      further from zero when inexact, CEILING is the least integer >= a/b
      and FLOOR the greatest integer <= a/b. */
  lemma DivideLongsDirected(a: int, b: int, mode: RoundingMode)
    requires IsLong(a) && IsLong(b) && b > 0 && mode.IsDirected()
    ensures DivideLongs(a, b, mode).Ok?
    ensures mode == DOWN ==> DivideLongs(a, b, mode).value == JavaDiv(a, b)
    ensures mode == UP ==>
      DivideLongs(a, b, mode).value == JavaDiv(a, b) + (if JavaRem(a, b) == 0 then 0 else Sign(a))
    ensures mode == CEILING ==> IsCeilingOf(DivideLongs(a, b, mode).value, a, b)
    ensures mode == FLOOR ==> IsFloorOf(DivideLongs(a, b, mode).value, a, b)
    ensures mode == DOWN || (mode == UP && JavaRem(a, b) == 0) ==>
      Abs(DivideLongs(a, b, mode).value * b) <= Abs(a)
    ensures mode == UP && JavaRem(a, b) != 0 ==> Abs(DivideLongs(a, b, mode).value * b) > Abs(a)
  {
    DivideLongsIsRoundQuotient(a, b, mode);
    RoundQuotientDirected(a, b, mode);
    JavaDivRem(a, b);
    if mode == UP && JavaRem(a, b) != 0 {
      var q := JavaDiv(a, b);
      if a > 0 {
        assert (q + 1) * b == q * b + b;
      } else {
        assert (q - 1) * b == q * b - b;
      }
    }
  }

  /** The half modes for an even positive divisor (any positive divisor for
      HALF_DOWN): the result is an integer nearest to a/b, and an exact half
      goes away from zero, toward zero or to the even neighbour. */
  lemma DivideLongsHalf(a: int, b: int, mode: RoundingMode, k: int)
    requires IsLong(a) && IsLong(b) && b > 0 && mode.IsHalfMode()
    requires mode != HALF_DOWN ==> b % 2 == 0
    ensures DivideLongs(a, b, mode).Ok?
    ensures Abs(a - DivideLongs(a, b, mode).value * b) <= Abs(a - k * b)
    ensures 2 * Abs(a - DivideLongs(a, b, mode).value * b) <= b
    ensures 2 * Abs(a - DivideLongs(a, b, mode).value * b) == b ==>
      (mode == HALF_UP ==> Abs(DivideLongs(a, b, mode).value * b) > Abs(a)) &&
      (mode == HALF_DOWN ==> Abs(DivideLongs(a, b, mode).value * b) < Abs(a)) &&
      (mode == HALF_EVEN ==> DivideLongs(a, b, mode).value % 2 == 0)
  {
    DivideLongsIsRoundQuotient(a, b, mode);
    RoundQuotientHalf(a, b, mode);
    RoundQuotientNearest(a, b, mode, k);
  }

  /** With an odd divisor, `mod >= (b >> 1)` treats a remainder below one half
      as a tie: 2/5 = 0.4 comes out as 1 under HALF_UP, although 0 is nearer. */
  lemma DivideLongsHalfUpOddDivisor()
    ensures DivideLongs(2, 5, HALF_UP) == Ok(1)
    ensures RoundQuotient(2, 5, HALF_UP) == Ok(0)
  {
  }

  /** Likewise 7/5 = 1.4 comes out as 2 under HALF_EVEN, although 1 is nearer. */
  lemma DivideLongsHalfEvenOddDivisor()
    ensures DivideLongs(7, 5, HALF_EVEN) == Ok(2)
    ensures RoundQuotient(7, 5, HALF_EVEN) == Ok(1)
  {
  }
}
