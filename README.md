# jpaw fixedpoint: a verified model of the decimal engine

The jpaw fixedpoint library represents a decimal number as a 64-bit Java
`long` mantissa `m` together with a scale `s` between 0 and 18. The number
is `m · 10^-s`. Classes such as `Units`, `MilliUnits`, `MicroUnits` and
`PicoUnits` fix the scale at 0, 3, 6 and 12. `VariableUnits` carries the
scale with the value.

This Dafny project models these parts of the library, and proves what each
operation computes:

- `FixedPointBase`:
  - comparison;
  - addition and subtraction, which promote the scale;
  - multiplication and division;
  - division and remainder by an `int`;
  - increment, decrement, percent, abs, negate, min and max;
  - the rounded long division `divide_longs`.
- `FixedPointNative`: the wide multiply-and-round helpers.
- The four fixed-scale classes.
- The `gsum` and `sum` aggregations of `FixedPointExtensions`.

## Layout

| file | module | what it holds |
|---|---|---|
| `wrappers.dfy` | `Wrappers` | `Result` with the library's three failures; `Option` for a Java `null` |
| `long_arith.dfy` | `LongArith` | the long range, the `powersOfTen` table, Java's truncating `/` and `%`, and two's complement wrap-around (`Wrap64`) |
| `rounding.dfy` | `Rounding` | `RoundingMode`, plus `RoundQuotient`: the exact rounding of an integer quotient, used as the reference |
| `divide_longs.dfy` | `LongDivision` | `divide_longs` written as the source writes it, and its agreement with the reference |
| `fixed_point_native.dfy` | `FixedPointNative` | `multiply_and_scale` and `scale_and_divide`, with both the native path and the BigDecimal path |
| `fixed_point_base.dfy` | `FixedPointBase` | the value type `FixedPoint(tag, mantissa, scale)` and every value operation |
| `fixed_scale_types.dfy` | `FixedScaleTypes` | `of`, `valueOf` and the retyping `of(that)` and `of(that, rounding)`, written once and parameterised by the class |
| `fixed_point_extensions.dfy` | `FixedPointExtensions` | `ofScale`, and `gsum` and `sum` as loops over a sequence, each tied to a fold function |

Conventions used throughout:

- **Value.** The number a value stands for is `Value18(x) = m · 10^(18 - s)`, an exact integer count of units of 10^-18.
- **Long arithmetic.** Java longs are mathematical integers kept inside the long range.
  - Where the source lets a long operation wrap, the model applies `Wrap64`: the long congruent to the result modulo 2^64.
  - A value lemma then states the exact result for the case where nothing wraps.
- **Classes.** A class is a `ScaleType` tag. An object of class `C` becomes a value with that tag.
  - `Valid(x)` says the mantissa is a long, `0 <= scale <= 18`, and for a fixed class the scale equals the class's `DECIMALS`.
- **Failures.** A thrown `ArithmeticException` becomes `Err`:
  - `DivisionByZero` for "Division by 0";
  - `InexactResult` for rounding mode UNNECESSARY when rounding is needed;
  - `PrecisionLoss` when a retyping would drop decimals.
- **Native flag.** The static `nativeAvailable` flag becomes a `bool` parameter of the operations that depend on it.

## Model

| member | source | states |
|---|---|---|
| LongArith.PowersOfTenTable | fixedpoint-core/src/main/java/de/jpaw/fixedpoint/FixedPointNative.java:25-36 | the table has 19 entries, and entry k is 10^k, for k from 0 to 18 |
| LongArith.PowerOfTen | fixedpoint-core/src/main/java/de/jpaw/fixedpoint/FixedPointBase.java:20-31 | indexing the table with 0..18 gives 10^k, and the entry is a long |
| LongArith.JavaDivRem | fixedpoint-core/src/main/java/de/jpaw/fixedpoint/FixedPointBase.java:576-577 | Java's truncating `/` and `%` satisfy `(a / b) * b + a % b == a`; the remainder is smaller than `b` in magnitude and has the sign of `a` |
| LongArith.JavaDivFits | fixedpoint-core/src/main/java/de/jpaw/fixedpoint/FixedPointBase.java:561 | for an `int` divisor other than 0, 1 and -1, the quotient and `quotient * divisor` of a long never overflow |
| Rounding.RoundQuotientFails | fixedpoint-core/src/main/java/de/jpaw/fixedpoint/FixedPointBase.java:444-445 | the reference rounding fails exactly when the mode is UNNECESSARY and the division is inexact |
| Rounding.RoundQuotientExact | fixedpoint-core/src/main/java/de/jpaw/fixedpoint/FixedPointBase.java:400-401 | an exact division gives the plain quotient in every mode |
| Rounding.RoundQuotientDirected | fixedpoint-core/src/main/java/de/jpaw/fixedpoint/FixedPointBase.java:404-411 | FLOOR and CEILING are the floor and ceiling of the quotient; DOWN rounds towards zero and UP away from zero |
| Rounding.RoundQuotientHalf | fixedpoint-core/src/main/java/de/jpaw/fixedpoint/FixedPointBase.java:412-443 | the half modes are within half a divisor of the quotient; a tie goes away from zero (HALF_UP), towards zero (HALF_DOWN) or to the even neighbour (HALF_EVEN) |
| Rounding.RoundQuotientNearest | fixedpoint-core/src/main/java/de/jpaw/fixedpoint/FixedPointBase.java:412-443 | a half-mode result is at least as near to the quotient as any other integer |
| Rounding.RoundSignedQuotientError | fixedpoint-core/src/main/java/de/jpaw/fixedpoint/FixedPointNative.java:55 | for a non-zero divisor of either sign, the rounded quotient is within one divisor of the exact one; UNNECESSARY fails exactly when the division is inexact, and otherwise gives the exact quotient |
| LongDivision.DivideLongs | fixedpoint-core/src/main/java/de/jpaw/fixedpoint/FixedPointBase.java:397-449 | whenever `divide_longs` returns, its result is a long: the adjustment by one cannot overflow |
| LongDivision.DivideLongsIsRoundQuotient | fixedpoint-core/src/main/java/de/jpaw/fixedpoint/FixedPointBase.java:397-449 | for b > 0, `divide_longs` equals the exact rounding of a / b in every mode; HALF_UP and HALF_EVEN need b to be even |
| LongDivision.DivideLongsNonNegative | fixedpoint-core/src/main/java/de/jpaw/fixedpoint/FixedPointBase.java:403-443 | the same agreement for a >= 0 |
| LongDivision.DivideLongsNegative | fixedpoint-core/src/main/java/de/jpaw/fixedpoint/FixedPointBase.java:403-443 | the same agreement for a < 0 |
| LongDivision.DivideLongsExact | fixedpoint-core/src/main/java/de/jpaw/fixedpoint/FixedPointBase.java:398-401 | with a zero remainder the result is the truncated quotient in every mode, and that quotient times b is a |
| LongDivision.DivideLongsFails | fixedpoint-core/src/main/java/de/jpaw/fixedpoint/FixedPointBase.java:444-445 | `divide_longs` throws exactly for UNNECESSARY with a non-zero remainder |
| LongDivision.DivideLongsDirected | fixedpoint-core/src/main/java/de/jpaw/fixedpoint/FixedPointBase.java:404-411 | for b > 0: DOWN is the truncated quotient; UP is one further from zero when inexact; CEILING is the least integer >= a/b; FLOOR is the greatest integer <= a/b |
| LongDivision.DivideLongsHalf | fixedpoint-core/src/main/java/de/jpaw/fixedpoint/FixedPointBase.java:412-443 | for b > 0, even b except under HALF_DOWN: the result is the integer nearest a/b, and exact halves go away from zero, towards zero or to the even neighbour |
| LongDivision.DivideLongsHalfUpOddDivisor | fixedpoint-core/src/main/java/de/jpaw/fixedpoint/FixedPointBase.java:413-414 | with the odd divisor 5, HALF_UP gives 1 for 2/5 where the exact rounding of 0.4 is 0 |
| LongDivision.DivideLongsHalfEvenOddDivisor | fixedpoint-core/src/main/java/de/jpaw/fixedpoint/FixedPointBase.java:425-432 | with the odd divisor 5, HALF_EVEN gives 2 for 7/5 where the exact rounding of 1.4 is 1 |
| FixedPointNative.MultiplyAndScale | fixedpoint-core/src/main/java/de/jpaw/fixedpoint/FixedPointNative.java:39-47 | both the native and the BigDecimal path of `multiply_and_scale` give a·b / 10^d, rounded by mode, with no intermediate truncation |
| FixedPointNative.ScaleAndDivide | fixedpoint-core/src/main/java/de/jpaw/fixedpoint/FixedPointNative.java:50-57 | both paths of `scale_and_divide` give a·10^d / divisor, rounded by mode, for d in 0..18; a zero divisor is DivisionByZero |
| FixedPointNative.MultiplyAndScaleIsDivideLongs | fixedpoint-core/src/main/java/de/jpaw/fixedpoint/FixedPointNative.java:44-46 | where the exact a·b fits a long, `multiply_and_scale` equals `divide_longs(a·b, 10^d, mode)` |
| FixedPointBase.ScaleType.UnitMantissa | fixedpoint-core/src/main/java/de/jpaw/fixedpoint/types/MilliUnits.java:10-11 | each class's UNIT_MANTISSA is 10^DECIMALS |
| FixedPointBase.UnitAsLong | fixedpoint-core/src/main/java/de/jpaw/fixedpoint/types/Units.java:77-80 | getUnitAsLong is 10^scale, and it is a long |
| FixedPointBase.One | fixedpoint-core/src/main/java/de/jpaw/fixedpoint/types/Units.java:72-75 | getUnit stands for the number 1 |
| FixedPointBase.NewInstanceOf | fixedpoint-core/src/main/java/de/jpaw/fixedpoint/types/Units.java:51-60 | `newInstanceOf(m)` is the class's ZERO for 0, its ONE for the unit mantissa, `this` for an unchanged mantissa, and otherwise a value of the same class and scale with mantissa m |
| FixedPointBase.Equals | fixedpoint-core/src/main/java/de/jpaw/fixedpoint/FixedPointBase.java:85-92 | `equals` holds exactly when class, scale and mantissa all agree |
| FixedPointBase.Signum | fixedpoint-core/src/main/java/de/jpaw/fixedpoint/FixedPointBase.java:111-113 | `signum` is the sign of the number |
| FixedPointBase.IsOne | fixedpoint-core/src/main/java/de/jpaw/fixedpoint/FixedPointBase.java:116-118 | `isOne` holds exactly when the number is 1 |
| FixedPointBase.IsMinusOne | fixedpoint-core/src/main/java/de/jpaw/fixedpoint/FixedPointBase.java:121-123 | `isMinusOne` holds exactly when the number is -1 |
| FixedPointBase.IsZero | fixedpoint-core/src/main/java/de/jpaw/fixedpoint/FixedPointBase.java:131-133 | `isZero` holds exactly when the number is 0 |
| FixedPointBase.IsNotZero | fixedpoint-core/src/main/java/de/jpaw/fixedpoint/FixedPointBase.java:126-128 | `isNotZero` holds exactly when the number is not 0 |
| FixedPointBase.CompareTo | fixedpoint-core/src/main/java/de/jpaw/fixedpoint/FixedPointBase.java:159-198 | the corrected `compareTo`: the same branches, with the larger-scale branch comparing instead of subtracting; it returns -1, 0 or 1, and each of its long subtractions and products is a checked operation whose operands are proved not to overflow. The code as written is CompareToAsWritten |
| FixedPointBase.CompareToCross | fixedpoint-core/src/main/java/de/jpaw/fixedpoint/FixedPointBase.java:159-198 | the corrected `compareTo` is the sign of `m1·10^s2 - m2·10^s1` |
| FixedPointBase.CompareToValue | fixedpoint-core/src/main/java/de/jpaw/fixedpoint/FixedPointBase.java:156-198 | the corrected `compareTo` is the sign of the difference of the two numbers, which is what the doc comment at 156-157 promises |
| FixedPointBase.CompareToOrder | fixedpoint-core/src/main/java/de/jpaw/fixedpoint/FixedPointBase.java:156-198 | the corrected `compareTo` is antisymmetric and transitive, and its 0 is transitive |
| FixedPointBase.EqualsAndCompareTo | fixedpoint-core/src/main/java/de/jpaw/fixedpoint/FixedPointBase.java:83-92 | equal values compare as 0; 1 (Units) and 1.000 (MilliUnits) compare as 0 but are not `equals` |
| FixedPointBase.CompareToAsWritten | fixedpoint-core/src/main/java/de/jpaw/fixedpoint/FixedPointBase.java:159-198 | `compareTo` as written, with every long subtraction and product wrapping; it returns -1, 0 or 1 |
| FixedPointBase.CompareToAsWrittenAgrees | fixedpoint-core/src/main/java/de/jpaw/fixedpoint/FixedPointBase.java:159-198 | the code as written agrees with the corrected CompareTo on every input outside the overflow corner `CompareOverflows`: y has mantissa Long.MIN_VALUE at a smaller scale, and x is negative with a scaled-down mantissa of 0 |
| FixedPointBase.CompareToAsWrittenCorner | fixedpoint-core/src/main/java/de/jpaw/fixedpoint/FixedPointBase.java:189-191 | on every input of the overflow corner the two disagree: the code as written answers -1, the corrected one 1. Together with CompareToAsWrittenAgrees, this pins the bug to exactly that set |
| FixedPointBase.CompareToAsWrittenOverflows | fixedpoint-core/src/main/java/de/jpaw/fixedpoint/FixedPointBase.java:189-191 | as written, -0.001 (MilliUnits) compares below Long.MIN_VALUE (Units); CompareTo gives 1 |
| FixedPointBase.Absolute | fixedpoint-core/src/main/java/de/jpaw/fixedpoint/FixedPointBase.java:95-99 | `abs` keeps class and scale; its mantissa is the absolute value, except that Long.MIN_VALUE stays as it is |
| FixedPointBase.AbsoluteValue | fixedpoint-core/src/main/java/de/jpaw/fixedpoint/FixedPointBase.java:95-99 | away from Long.MIN_VALUE, `abs` gives the absolute value of the number |
| FixedPointBase.Negate | fixedpoint-core/src/main/java/de/jpaw/fixedpoint/FixedPointBase.java:102-104 | `negate` keeps class and scale and negates the mantissa; Long.MIN_VALUE wraps to itself |
| FixedPointBase.NegateValue | fixedpoint-core/src/main/java/de/jpaw/fixedpoint/FixedPointBase.java:102-104 | away from Long.MIN_VALUE, `negate` gives the negated number |
| FixedPointBase.NegateNegate | fixedpoint-core/src/main/java/de/jpaw/fixedpoint/FixedPointBase.java:102-104 | negating twice gives back every value; negation does not change `abs` |
| FixedPointBase.Ulp | fixedpoint-core/src/main/java/de/jpaw/fixedpoint/FixedPointBase.java:140-142 | `ulp` is 10^-scale in the class and scale of x |
| FixedPointBase.UlpIsStep | fixedpoint-core/src/main/java/de/jpaw/fixedpoint/FixedPointBase.java:140-142 | two different numbers of one scale differ by at least one ulp |
| FixedPointBase.Percent | fixedpoint-core/src/main/java/de/jpaw/fixedpoint/FixedPointBase.java:145-154 | `percent` is a VariableUnits value at scale min(s + 2, 18) that stands for the number divided by 100, truncated; for s <= 16 the division loses nothing |
| FixedPointBase.PercentByScale | fixedpoint-core/src/main/java/de/jpaw/fixedpoint/FixedPointBase.java:151-152 | for s <= 16, keeping the mantissa and adding 2 to the scale divides the number by 100 exactly |
| FixedPointBase.GMin | fixedpoint-core/src/main/java/de/jpaw/fixedpoint/FixedPointBase.java:233-235 | `gmin` decided by the corrected compareTo: one of its operands, no larger than either, and `this` on a tie. The source's `gmin` is GMinAsWritten |
| FixedPointBase.GMax | fixedpoint-core/src/main/java/de/jpaw/fixedpoint/FixedPointBase.java:238-240 | `gmax` decided by the corrected compareTo: one of its operands, no smaller than either, and `this` on a tie. The source's `gmax` is GMaxAsWritten |
| FixedPointBase.Minimum | fixedpoint-core/src/main/java/de/jpaw/fixedpoint/FixedPointBase.java:223-225 | `min` decided by the corrected compareTo: one of its operands, of their class, and no larger than either. The source's `min` is MinimumAsWritten |
| FixedPointBase.Maximum | fixedpoint-core/src/main/java/de/jpaw/fixedpoint/FixedPointBase.java:228-230 | `max` decided by the corrected compareTo: one of its operands, of their class, and no smaller than either. The source's `max` is MaximumAsWritten |
| FixedPointBase.GMinAsWritten | fixedpoint-core/src/main/java/de/jpaw/fixedpoint/FixedPointBase.java:233-235 | `gmin` as written, over the overflowing compareTo: it equals GMin outside the corner, and on the corner it returns `this` although GMin returns the smaller `that` |
| FixedPointBase.GMaxAsWritten | fixedpoint-core/src/main/java/de/jpaw/fixedpoint/FixedPointBase.java:238-240 | `gmax` as written: it equals GMax outside the corner, and on the corner it returns `that` although GMax returns the larger `this` |
| FixedPointBase.MinimumAsWritten | fixedpoint-core/src/main/java/de/jpaw/fixedpoint/FixedPointBase.java:223-225 | `min` as written: it keeps the class and equals Minimum outside the corner; on the corner it returns `this` where Minimum returns `that` |
| FixedPointBase.MaximumAsWritten | fixedpoint-core/src/main/java/de/jpaw/fixedpoint/FixedPointBase.java:228-230 | `max` as written: it keeps the class and equals Maximum outside the corner; on the corner it returns `that` where Maximum returns `this` |
| FixedPointBase.MinMaxAsWrittenOverflows | fixedpoint-core/src/main/java/de/jpaw/fixedpoint/FixedPointBase.java:223-240 | with -0.001 against Long.MIN_VALUE, `gmin` as written returns -0.001 and `gmax` returns Long.MIN_VALUE (MilliUnits against Units); `min` and `max` do the same on VariableUnits |
| FixedPointBase.MinMaxPair | fixedpoint-core/src/main/java/de/jpaw/fixedpoint/FixedPointBase.java:233-240 | for different numbers, `gmin` and `gmax` are the two operands, and their numbers add up to the sum of the operands |
| FixedPointBase.MultiplyInt | fixedpoint-core/src/main/java/de/jpaw/fixedpoint/FixedPointBase.java:243-245 | `multiply(int)` keeps class and scale; the mantissa is the wrapped product, and without overflow the number is multiplied by the factor |
| FixedPointBase.MultiplyIntTwice | fixedpoint-core/src/main/java/de/jpaw/fixedpoint/FixedPointBase.java:243-245 | multiplying by a and then by b is multiplying by a·b |
| FixedPointBase.Increment | fixedpoint-core/src/main/java/de/jpaw/fixedpoint/FixedPointBase.java:252-254 | `increment` adds 10^scale to the mantissa, wrapping, and keeps class and scale |
| FixedPointBase.Decrement | fixedpoint-core/src/main/java/de/jpaw/fixedpoint/FixedPointBase.java:261-263 | `decrement` subtracts 10^scale from the mantissa, wrapping, and keeps class and scale |
| FixedPointBase.IncrementValue | fixedpoint-core/src/main/java/de/jpaw/fixedpoint/FixedPointBase.java:252-263 | without overflow, `increment` adds exactly 1 to the number and `decrement` subtracts exactly 1 |
| FixedPointBase.IncrementDecrement | fixedpoint-core/src/main/java/de/jpaw/fixedpoint/FixedPointBase.java:252-263 | `increment` and `decrement` undo each other on every value, wrap-around included |
| FixedPointBase.AlignedSum | fixedpoint-core/src/main/java/de/jpaw/fixedpoint/FixedPointBase.java:507-511 | the mantissas aligned to the larger scale add and subtract to the exact sum and difference |
| FixedPointBase.GAdd | fixedpoint-core/src/main/java/de/jpaw/fixedpoint/FixedPointBase.java:501-512 | `gadd` returns `that` when this is 0 and `this` when that is 0; otherwise the result has the larger scale, the class of the operand with that scale, and mantissa m_wide + 10^\|s1-s2\|·m_narrow (wrapped) |
| FixedPointBase.Add | fixedpoint-core/src/main/java/de/jpaw/fixedpoint/FixedPointBase.java:514-520 | `add` returns scale max(s1, s2) with the aligned mantissa sum (wrapped) |
| FixedPointBase.GSubtract | fixedpoint-core/src/main/java/de/jpaw/fixedpoint/FixedPointBase.java:527-538 | `gsubtract` returns `this` when that is 0 and `that.negate()` when this is 0; otherwise the larger scale and the aligned mantissa difference (wrapped) |
| FixedPointBase.Subtract | fixedpoint-core/src/main/java/de/jpaw/fixedpoint/FixedPointBase.java:540-547 | `subtract` returns scale max(s1, s2) with the aligned mantissa difference (wrapped) |
| FixedPointBase.SumValue | fixedpoint-core/src/main/java/de/jpaw/fixedpoint/FixedPointBase.java:501-512 | where the aligned sum fits a long, `gadd` stands for the exact sum of the numbers |
| FixedPointBase.DifferenceValue | fixedpoint-core/src/main/java/de/jpaw/fixedpoint/FixedPointBase.java:527-538 | where the aligned difference fits a long, `gsubtract` stands for the exact difference |
| FixedPointBase.AddValue | fixedpoint-core/src/main/java/de/jpaw/fixedpoint/FixedPointBase.java:514-520 | where the aligned sum fits, `add` is the exact sum |
| FixedPointBase.SubtractValue | fixedpoint-core/src/main/java/de/jpaw/fixedpoint/FixedPointBase.java:540-547 | where the aligned difference fits, `subtract` is the exact difference |
| FixedPointBase.ScaledSumValue | fixedpoint-core/src/main/java/de/jpaw/fixedpoint/FixedPointBase.java:507-511 | the scale-promoting branch of addition is the exact sum when it fits |
| FixedPointBase.ScaledDifferenceValue | fixedpoint-core/src/main/java/de/jpaw/fixedpoint/FixedPointBase.java:533-537 | the scale-promoting branch of subtraction, `-that.mantissa + 10^k·mantissa` included, is the exact difference when it fits |
| FixedPointBase.AddCommutes | fixedpoint-core/src/main/java/de/jpaw/fixedpoint/FixedPointBase.java:514-520 | `add` is commutative on every pair of values of one class, wrap-around included |
| FixedPointBase.AddIsGAdd | fixedpoint-core/src/main/java/de/jpaw/fixedpoint/FixedPointBase.java:501-520 | where the zero short-cuts of `gadd` do not change the scale, `add` and `gadd` agree |
| FixedPointBase.SubtractIsAddNegate | fixedpoint-core/src/main/java/de/jpaw/fixedpoint/FixedPointBase.java:540-547 | `subtract(y)` is `add(y.negate())` on every pair of values of one class, Long.MIN_VALUE included |
| FixedPointBase.AddThenSubtract | fixedpoint-core/src/main/java/de/jpaw/fixedpoint/FixedPointBase.java:514-547 | subtracting y after adding it gives x back, whatever wrapped, when x has at least y's scale |
| FixedPointBase.LongValue | fixedpoint-core/src/main/java/de/jpaw/fixedpoint/FixedPointNative.java:46 | `longValue()` keeps success and failure, always gives a long, and changes nothing that already fits |
| FixedPointBase.MantissaOfMultiplication | fixedpoint-core/src/main/java/de/jpaw/fixedpoint/FixedPointBase.java:385-394 | `mantissa_of_multiplication` is the low 64 bits of m1·m2 brought to the target scale: scaled up exactly when d <= 0, otherwise divided by 10^d and rounded by mode |
| FixedPointBase.MantissaOfMultiplicationUsingBD | fixedpoint-core/src/main/java/de/jpaw/fixedpoint/FixedPointBase.java:378-382 | the BigDecimal reference computes the same function |
| FixedPointBase.ProductAtOwnScale | fixedpoint-core/src/main/java/de/jpaw/fixedpoint/FixedPointBase.java:465 | at the scale of the left operand, the rounded product is round(m1·m2 / 10^s2) |
| FixedPointBase.ProductShortcuts | fixedpoint-core/src/main/java/de/jpaw/fixedpoint/FixedPointBase.java:469-474 | the rounded product is 0 when either mantissa is 0, m1 when y is 1, and -m1 when y is -1 |
| FixedPointBase.Multiply | fixedpoint-core/src/main/java/de/jpaw/fixedpoint/FixedPointBase.java:468-476 | `multiply` is the rounded product at the left operand's scale and class, with its zero, one and minus-one short-cuts |
| FixedPointBase.MultiplyRounding | fixedpoint-core/src/main/java/de/jpaw/fixedpoint/FixedPointBase.java:468-476 | the result mantissa is within one of m1·m2 / 10^s2; under UNNECESSARY it is the exact product; this fails exactly when the product has more decimals than the scale holds |
| FixedPointBase.GMultiply | fixedpoint-core/src/main/java/de/jpaw/fixedpoint/FixedPointBase.java:452-466 | `gmultiply` returns valid values, and past its short-cuts it equals `multiply` |
| FixedPointBase.GMultiplyShortcuts | fixedpoint-core/src/main/java/de/jpaw/fixedpoint/FixedPointBase.java:453-464 | each short-cut of `gmultiply` returns the exact product, except where a negation of Long.MIN_VALUE wraps |
| FixedPointBase.Divide | fixedpoint-core/src/main/java/de/jpaw/fixedpoint/FixedPointBase.java:483-491 | `divide` returns zero for a zero dividend, even for a zero divisor; it is DivisionByZero for a zero divisor otherwise; else it is round(m1·10^s2 / m2) at the left operand's scale and class |
| FixedPointBase.DivideShortcuts | fixedpoint-core/src/main/java/de/jpaw/fixedpoint/FixedPointBase.java:484-489 | the short-cuts of `divide` (0, 1 and -1) give what the general quotient gives |
| FixedPointBase.DivideRounding | fixedpoint-core/src/main/java/de/jpaw/fixedpoint/FixedPointBase.java:483-491 | the result mantissa is within one of m1·10^s2 / m2; under UNNECESSARY the result times y is exactly x; this fails exactly when the quotient is inexact |
| FixedPointBase.DivideByInt | fixedpoint-core/src/main/java/de/jpaw/fixedpoint/FixedPointBase.java:554-562 | `divide(int)` throws exactly for 0, and otherwise gives the truncated quotient `mantissa / divisor` at the same class and scale, wrapping as Java does for Long.MIN_VALUE / -1 |
| FixedPointBase.Remainder | fixedpoint-core/src/main/java/de/jpaw/fixedpoint/FixedPointBase.java:569-578 | `remainder` throws exactly for 0, and otherwise gives Java's `mantissa % divisor`, which is zero for 1 and -1 |
| FixedPointBase.DivideRemainder | fixedpoint-core/src/main/java/de/jpaw/fixedpoint/FixedPointBase.java:554-578 | in long arithmetic, quotient·divisor + remainder is the mantissa; the remainder is smaller than the divisor in magnitude and has the sign of x |
| FixedScaleTypes.ZeroOf | fixedpoint-core/src/main/java/de/jpaw/fixedpoint/types/MilliUnits.java:12 | ZERO has the class's scale and stands for 0 |
| FixedScaleTypes.OneOf | fixedpoint-core/src/main/java/de/jpaw/fixedpoint/types/MilliUnits.java:13 | ONE has mantissa UNIT_MANTISSA and stands for 1 |
| FixedScaleTypes.Of | fixedpoint-core/src/main/java/de/jpaw/fixedpoint/types/MilliUnits.java:20-22 | `of(m)` keeps m as the mantissa, and is ZERO for 0 and ONE for the unit mantissa |
| FixedScaleTypes.ValueOf | fixedpoint-core/src/main/java/de/jpaw/fixedpoint/types/MilliUnits.java:25-27 | `valueOf(v)` has mantissa v·10^DECIMALS, wrapped |
| FixedScaleTypes.ValueOfValue | fixedpoint-core/src/main/java/de/jpaw/fixedpoint/types/MicroUnits.java:34-36 | without overflow, `valueOf(v)` stands for the integer v |
| FixedScaleTypes.Retype | fixedpoint-core/src/main/java/de/jpaw/fixedpoint/types/MilliUnits.java:30-35 | `of(that)` multiplies the mantissa by 10^(DECIMALS - scale) when that has at most DECIMALS decimals, and throws otherwise |
| FixedScaleTypes.RetypeExact | fixedpoint-core/src/main/java/de/jpaw/fixedpoint/types/MicroUnits.java:49-54 | without overflow, the widened value stands for the same number, and `compareTo(that) == 0` |
| FixedScaleTypes.RetypeRounded | fixedpoint-core/src/main/java/de/jpaw/fixedpoint/types/MicroUnits.java:57-63 | `of(that, rounding)` is `of(that)` when nothing is dropped; otherwise it is the mantissa divided by 10^(scale - DECIMALS) and rounded by mode |
| FixedScaleTypes.RetypeRoundTrip | fixedpoint-core/src/main/java/de/jpaw/fixedpoint/types/PicoUnits.java:30-44 | widening into a class with more decimals and narrowing back with any rounding mode gives the original value |
| FixedPointExtensions.OfScale | fixedpoint-core/src/main/java/de/jpaw/fixedpoint/FixedPointExtensions.java:96-98 | `ofScale(a, scale)` is a VariableUnits value with mantissa a and that scale |
| FixedPointExtensions.GSumFold | fixedpoint-core/src/main/java/de/jpaw/fixedpoint/FixedPointExtensions.java:100-106 | the left fold of `gadd` from Units.ZERO gives a valid value |
| FixedPointExtensions.GSum | fixedpoint-core/src/main/java/de/jpaw/fixedpoint/FixedPointExtensions.java:100-106 | the `gsum` loop computes the left fold of `gadd` from Units.ZERO |
| FixedPointExtensions.GSumShortSequences | fixedpoint-core/src/main/java/de/jpaw/fixedpoint/FixedPointExtensions.java:100-106 | `gsum` of nothing is Units.ZERO, and `gsum` of one element is that element itself |
| FixedPointExtensions.GSumValue | fixedpoint-core/src/main/java/de/jpaw/fixedpoint/FixedPointExtensions.java:100-106 | where no step overflows, `gsum` stands for the exact sum of the numbers |
| FixedPointExtensions.AddFold | fixedpoint-core/src/main/java/de/jpaw/fixedpoint/FixedPointExtensions.java:110-116 | the left fold of `add`, seeded with the first element, keeps the class of the elements |
| FixedPointExtensions.Sum | fixedpoint-core/src/main/java/de/jpaw/fixedpoint/FixedPointExtensions.java:110-116 | the `sum` loop computes that fold, and returns null (None) exactly for an empty sequence |
| FixedPointExtensions.SumFoldValue | fixedpoint-core/src/main/java/de/jpaw/fixedpoint/FixedPointExtensions.java:110-116 | where no step overflows, `sum` stands for the exact sum of the numbers |
| FixedPointExtensions.SumIsGSum | fixedpoint-core/src/main/java/de/jpaw/fixedpoint/FixedPointExtensions.java:100-116 | for a fixed-scale class and a non-empty sequence, `sum` and `gsum` give the same value |

## Left out

- Floating point is left out: `UNIT_SCALE`, the `double` constructors and `valueOf(double)`.
- String parsing and `toString` are left out. `parseMantissa` is not part of this model.
- The `of(BigDecimal)` converters and `hashCode` are left out. They are library conversion and formatting.
- The Xtend `operator_*` methods are left out. Each one only delegates to a modelled method.
- The commented-out older `mantissa_of_multiplication` at fixedpoint-core/src/main/java/de/jpaw/fixedpoint/FixedPointBase.java:270-375 is dead code and is left out.
- The loading of the native library is left out: `System.loadLibrary`, the console output, and how `nativeAvailable` gets set. The flag becomes a parameter.
- The native `multdiv128` is foreign code. Only its documented meaning is modelled on both paths: `a·b / c` with a 128-bit intermediate, rounded by mode.
- `NanoUnits`, `FemtoUnits` and `VariableUnits` are not part of this model.
  - `VariableUnits` appears only as a class tag whose values carry their own scale.
  - Its constructor's checks are stood in for by OfScale's requirement `0 <= scale <= 18`.
- The `asX` retyping methods at fixedpoint-core/src/main/java/de/jpaw/fixedpoint/FixedPointExtensions.java:42-94 only delegate to `X.of(a)` and `X.of(a, rounding)`. They are the members FixedScaleTypes.Retype and FixedScaleTypes.RetypeRounded with the class fixed, and have no members of their own.
- Objects become values. The cached ZERO and ONE and the identity of `this` are modelled as value equality: same class, mantissa and scale.
- The `divisor == -1` branch of `remainder` at fixedpoint-core/src/main/java/de/jpaw/fixedpoint/FixedPointBase.java:574-575 is left out. The test at 572 already returns zero for -1, so that branch can never run.
- DivideLongs (LongDivision.DivideLongs) requires a positive divisor b. The source does not check the sign, but every caller passes the positive power of ten `powersOfTen[scale]` (for example types/Units.java:41 and types/MilliUnits.java:43). A negative b is not modelled.
- LongDivision.DivideLongsIsRoundQuotient requires b > 0, and an even b for HALF_UP and HALF_EVEN.
  - The source decides the direction from the sign of a alone, so UP, CEILING and FLOOR are wrong for b < 0.
  - Its `mod >= (b >> 1)` test is wrong for odd b, as DivideLongsHalfUpOddDivisor and DivideLongsHalfEvenOddDivisor show.
  - Every caller passes a power of ten of at least 10.
- FixedPointNative.MultiplyAndScale requires the rounded result to fit a long. Outside that, `longValue()` narrows silently and the native routine's behaviour is not documented.
- FixedPointNative.ScaleAndDivide requires the same fit. With the native path it also requires a positive divisor: `multdiv128` is documented only for c > 0, and the source passes the divisor unchanged.
- FixedPointBase.Multiply and FixedPointBase.GMultiply require the rounded product to fit a long whenever the general path divides (`y.scale > 0`). FixedPointBase.MantissaOfMultiplication also applies the silent `longValue()` narrowing.
- FixedPointBase.Divide requires the same fit for the rounded quotient. With the native path it also requires a positive divisor, for the reason given under ScaleAndDivide.
- LongArith.PowerOfTen requires an index in 0..18, the bounds of the table. The documentation of `scale_and_divide` says 1..18, but `divide` passes scale 0 as well, and the model allows it.
- GMin (FixedPointBase.GMin) decides by the corrected compareTo. It differs from the source's `gmin` on the overflow corner of `compareTo`. The source's behaviour is FixedPointBase.GMinAsWritten.
- GMax (FixedPointBase.GMax) decides by the corrected compareTo. It differs from the source's `gmax` on the same corner. The source's behaviour is FixedPointBase.GMaxAsWritten.
- Minimum (FixedPointBase.Minimum) decides by the corrected compareTo. It differs from the source's `min` on the same corner, which only VariableUnits can reach. The source's behaviour is FixedPointBase.MinimumAsWritten.
- Maximum (FixedPointBase.Maximum) decides by the corrected compareTo. It differs from the source's `max` on the same corner. The source's behaviour is FixedPointBase.MaximumAsWritten.

## Findings

| source | as written | input that shows it | evidently intended | confidence | as-written member | corrected member |
|---|---|---|---|---|---|---|
| fixedpoint-core/src/main/java/de/jpaw/fixedpoint/FixedPointBase.java:189-191 | for a larger scale of `this`, `compareTo` subtracts `that.mantissa` from the scaled-down mantissa in long arithmetic, so `0 - Long.MIN_VALUE` wraps to Long.MIN_VALUE and the sign flips | `MilliUnits.of(-1).compareTo(Units.of(Long.MIN_VALUE))`: the code answers -1, although -0.001 is larger | compare the scaled-down mantissa with `that.mantissa` instead of subtracting, as the class comment promises ("work around any kind of integral overflows") | high (not executed) | FixedPointBase.CompareToAsWrittenOverflows | FixedPointBase.CompareToValue |
| fixedpoint-core/src/main/java/de/jpaw/fixedpoint/FixedPointBase.java:223-240 | `min`, `max`, `gmin` and `gmax` choose an operand by the result of `compareTo`, so they inherit the overflow at lines 189-191 | `MilliUnits.of(-1).gmin(Units.of(Long.MIN_VALUE))` returns -0.001, the larger operand, and `gmax` returns Long.MIN_VALUE | the smaller and the larger operand | high (not executed) | FixedPointBase.MinMaxAsWrittenOverflows | FixedPointBase.GMin |
