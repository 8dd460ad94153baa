/** java.math.RoundingMode and the exact meaning of "the rational number n/c
    rounded to an integer in a given mode", as BigDecimal defines it.  This is
    the reference that `divide_longs`, the native `multdiv128` routine and the
    BigDecimal fallback paths are all measured against. */
module Rounding {
  import opened Wrappers
  import opened LongArith

  datatype RoundingMode = UP | DOWN | CEILING | FLOOR | HALF_UP | HALF_DOWN | HALF_EVEN | UNNECESSARY {
    predicate IsHalfMode() {
      HALF_UP? || HALF_DOWN? || HALF_EVEN?
    }
    predicate IsDirected() {
      UP? || DOWN? || CEILING? || FLOOR?
    }
  }

  /** r is the greatest integer <= n/c. */
  predicate IsFloorOf(r: int, n: int, c: int) {
    r * c <= n < r * c + c
  }

  /** r is the least integer >= n/c. */
  predicate IsCeilingOf(r: int, n: int, c: int) {
    r * c - c < n <= r * c
  }

  /** n/c rounded to an integer in the given mode, for a positive c:
      the two candidates are floor(n/c) and floor(n/c) + 1, a discarded
      fraction of exactly one half is a tie, and UNNECESSARY fails on any
      discarded fraction. */
  function RoundQuotient(n: int, c: int, mode: RoundingMode): Result<int>
    requires c > 0
  {
    var lo := n / c;
    var rem := n % c;
    if rem == 0 then Ok(lo)
    else
      var hi := lo + 1;
      var awayFromZero := if n > 0 then hi else lo;
      var towardZero := if n > 0 then lo else hi;
      match mode
      case UP => Ok(awayFromZero)
      case DOWN => Ok(towardZero)
      case CEILING => Ok(hi)
      case FLOOR => Ok(lo)
      case HALF_UP => Ok(if 2 * rem < c then lo else if 2 * rem > c then hi else awayFromZero)
      case HALF_DOWN => Ok(if 2 * rem < c then lo else if 2 * rem > c then hi else towardZero)
      case HALF_EVEN => Ok(if 2 * rem < c then lo else if 2 * rem > c then hi else if lo % 2 == 0 then lo else hi)
      case UNNECESSARY => Err(InexactResult)
  }

  /** n/c rounded for a divisor of either sign: n/c == (-n)/(-c). */
  function RoundSignedQuotient(n: int, c: int, mode: RoundingMode): Result<int>
    requires c != 0
  {
    if c > 0 then RoundQuotient(n, c, mode) else RoundQuotient(-n, -c, mode)
  }

  lemma FloorCeiling(n: int, c: int)
    requires c > 0
    ensures IsFloorOf(n / c, n, c)
    ensures n % c != 0 ==> IsCeilingOf(n / c + 1, n, c)
    ensures n % c == 0 <==> (n / c) * c == n
  {
    var lo := n / c;
    assert n == lo * c + n % c;
    assert (lo + 1) * c == lo * c + c;
  }

  /** An exact quotient is returned unchanged by every mode. */
  lemma RoundQuotientExact(n: int, c: int, mode: RoundingMode)
    requires c > 0 && n % c == 0
    ensures RoundQuotient(n, c, mode) == Ok(n / c)
    ensures (n / c) * c == n
  {
    FloorCeiling(n, c);
  }

  /** The only failure is UNNECESSARY on an inexact quotient. */
  lemma RoundQuotientFails(n: int, c: int, mode: RoundingMode)
    requires c > 0
    ensures RoundQuotient(n, c, mode).Err? <==> mode == UNNECESSARY && n % c != 0
    ensures RoundQuotient(n, c, mode).Err? ==> RoundQuotient(n, c, mode).error == InexactResult
  {
  }

  /** Every successful result is floor(n/c) or ceiling(n/c). */
  lemma RoundQuotientBracket(n: int, c: int, mode: RoundingMode)
    requires c > 0 && RoundQuotient(n, c, mode).Ok?
    ensures IsFloorOf(RoundQuotient(n, c, mode).value, n, c) || IsCeilingOf(RoundQuotient(n, c, mode).value, n, c)
  {
    FloorCeiling(n, c);
  }

  /** The directed modes: FLOOR and CEILING round toward minus and plus
      infinity, DOWN toward zero and UP away from zero. */
  lemma RoundQuotientDirected(n: int, c: int, mode: RoundingMode)
    requires c > 0 && mode.IsDirected()
    ensures RoundQuotient(n, c, mode).Ok?
    ensures mode == FLOOR ==> IsFloorOf(RoundQuotient(n, c, mode).value, n, c)
    ensures mode == CEILING ==> IsCeilingOf(RoundQuotient(n, c, mode).value, n, c)
    ensures mode == DOWN && n >= 0 ==> IsFloorOf(RoundQuotient(n, c, mode).value, n, c)
    ensures mode == DOWN && n <= 0 ==> IsCeilingOf(RoundQuotient(n, c, mode).value, n, c)
    ensures mode == UP && n >= 0 ==> IsCeilingOf(RoundQuotient(n, c, mode).value, n, c)
    ensures mode == UP && n <= 0 ==> IsFloorOf(RoundQuotient(n, c, mode).value, n, c)
  {
    FloorCeiling(n, c);
    if n % c == 0 {
      assert IsCeilingOf(n / c, n, c);
    }
  }

  /** The half modes pick an integer at distance at most one half from n/c;
      an exact tie goes away from zero (HALF_UP), toward zero (HALF_DOWN) or
      to the even neighbour (HALF_EVEN). */
  lemma RoundQuotientHalf(n: int, c: int, mode: RoundingMode)
    requires c > 0 && mode.IsHalfMode()
    ensures RoundQuotient(n, c, mode).Ok?
    ensures 2 * Abs(n - RoundQuotient(n, c, mode).value * c) <= c
    ensures 2 * Abs(n - RoundQuotient(n, c, mode).value * c) == c ==>
      (mode == HALF_UP ==> Abs(RoundQuotient(n, c, mode).value * c) > Abs(n)) &&
      (mode == HALF_DOWN ==> Abs(RoundQuotient(n, c, mode).value * c) < Abs(n)) &&
      (mode == HALF_EVEN ==> RoundQuotient(n, c, mode).value % 2 == 0)
  {
    var lo := n / c;
    var rem := n % c;
    assert n == lo * c + rem;
    assert (lo + 1) * c == lo * c + c;
    if rem != 0 && 2 * rem == c {
      // a tie: n lies strictly between lo*c and (lo+1)*c, so both have its sign
      assert n != 0;
      StrictlyBetween(n, c, lo, rem);
    }
  }

  lemma StrictlyBetween(n: int, c: int, lo: int, rem: int)
    requires c > 0 && n == lo * c + rem && 0 < rem < c
    ensures n > 0 ==> lo * c >= 0
    ensures n < 0 ==> lo * c + c <= 0
  {
    if lo < 0 {
      MulLeMonotone(lo, -1, c);
    } else {
      MulLeMonotone(0, lo, c);
    }
  }

  /** A candidate within one half of n/c is nearest: no multiple of c is
      closer to n. */
  lemma NearestWithinHalf(n: int, c: int, r: int, k: int)
    requires c > 0 && 2 * Abs(n - r * c) <= c
    ensures Abs(n - r * c) <= Abs(n - k * c)
  {
    var d := n - r * c;
    if k < r {
      MulLeMonotone(k, r - 1, c);
      assert (r - 1) * c == r * c - c;
    } else if k > r {
      MulLeMonotone(r + 1, k, c);
      assert (r + 1) * c == r * c + c;
    }
  }

  /** The half modes return the integer nearest to n/c. */
  lemma RoundQuotientNearest(n: int, c: int, mode: RoundingMode, k: int)
    requires c > 0 && mode.IsHalfMode()
    ensures RoundQuotient(n, c, mode).Ok?
    ensures Abs(n - RoundQuotient(n, c, mode).value * c) <= Abs(n - k * c)
  {
    RoundQuotientHalf(n, c, mode);
    NearestWithinHalf(n, c, RoundQuotient(n, c, mode).value, k);
  }

  /** For a negative divisor the signed rounding agrees with rounding the
      negated fraction. */
  lemma RoundSignedQuotientPositive(n: int, c: int, mode: RoundingMode)
    requires c > 0
    ensures RoundSignedQuotient(n, c, mode) == RoundQuotient(n, c, mode)
    ensures RoundSignedQuotient(-n, -c, mode) == RoundQuotient(n, c, mode)
  {
  }

  /** An exact multiple of c divides without rounding in every mode, for a
      divisor of either sign. */
  lemma RoundQuotientMultiple(m: int, c: int, mode: RoundingMode)
    requires c > 0
    ensures RoundQuotient(m * c, c, mode) == Ok(m)
    ensures RoundSignedQuotient(m * c, -c, mode) == Ok(-m)
  {
    EuclidUnique(m * c, c, m, 0);
    assert -(m * c) == (-m) * c;
    EuclidUnique(-(m * c), c, -m, 0);
  }

  /** A rounded quotient is within one step of the exact fraction, and an
      UNNECESSARY result is exact; the only failure is UNNECESSARY on a
      fraction that does not come out even. */
  lemma RoundSignedQuotientError(n: int, c: int, mode: RoundingMode)
    requires c != 0
    ensures RoundSignedQuotient(n, c, mode).Ok? ==> Abs(n - RoundSignedQuotient(n, c, mode).value * c) < Abs(c)
    ensures RoundSignedQuotient(n, c, mode).Ok? && mode == UNNECESSARY ==> RoundSignedQuotient(n, c, mode).value * c == n
    ensures RoundSignedQuotient(n, c, mode).Err? <==> mode == UNNECESSARY && n % Abs(c) != 0
  {
    if c > 0 {
      RoundQuotientError(n, c, mode, RoundQuotient(n, c, mode));
    } else {
      RoundQuotientError(-n, -c, mode, RoundQuotient(-n, -c, mode));
      NegatedModulus(n, -c);
      if RoundQuotient(-n, -c, mode).Ok? {
        NegatedError(n, c, RoundQuotient(-n, -c, mode).value);
      }
    }
  }

  lemma RoundQuotientError(n: int, c: int, mode: RoundingMode, t: Result<int>)
    requires c > 0 && t == RoundQuotient(n, c, mode)
    ensures t.Ok? ==> Abs(n - t.value * c) < c
    ensures t.Ok? && mode == UNNECESSARY ==> t.value * c == n
    ensures t.Err? <==> mode == UNNECESSARY && n % c != 0
  {
    RoundQuotientFails(n, c, mode);
    if t.Ok? {
      RoundQuotientBracket(n, c, mode);
      if mode == UNNECESSARY {
        FloorCeiling(n, c);
      }
    }
  }

  lemma NegatedModulus(n: int, c: int)
    requires c > 0
    ensures (-n) % c == 0 <==> n % c == 0
  {
    if n % c == 0 {
      EuclidUnique(-n, c, -(n / c), 0);
    }
    if (-n) % c == 0 {
      EuclidUnique(n, c, -((-n) / c), 0);
    }
  }

  lemma NegatedError(n: int, c: int, r: int)
    ensures -n - r * (-c) == -(n - r * c)
    ensures r * (-c) == -n <==> r * c == n
  {
  }
}
