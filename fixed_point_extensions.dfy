/** FixedPointExtensions: the constructor shorthand ofScale and the two
    aggregations over a sequence of values, gsum (any classes, via gadd) and
    sum (one class, via add). */
module FixedPointExtensions {
  import opened Wrappers
  import opened LongArith
  import opened FixedPointBase
  import opened FixedScaleTypes

  predicate AllValid(s: seq<FixedPoint>) {
    forall i :: 0 <= i < |s| ==> Valid(s[i])
  }

  /** Every element has the class of the first (the generic CLASS of sum). */
  predicate SameClass(s: seq<FixedPoint>) {
    forall i :: 0 <= i < |s| ==> s[i].tag == s[0].tag
  }

  /** ofScale(a, scale): a VariableUnits value with that mantissa and scale. */
  function OfScale(a: int, scale: int): (r: FixedPoint)
    requires IsLong(a) && 0 <= scale <= 18
    ensures Valid(r) && r.tag == VariableUnits && r.mantissa == a && r.scale == scale
  {
    FixedPoint(VariableUnits, a, scale)
  }

  /** The exact sum of the numbers, in units of 10^-18. */
  function ValueSum(s: seq<FixedPoint>): int
    requires forall i :: 0 <= i < |s| ==> 0 <= s[i].scale <= 18
  {
    if |s| == 0 then 0 else ValueSum(s[..|s| - 1]) + Value18(s[|s| - 1])
  }

  // ---------------------------------------------------------------- gsum

  /** The left fold of gadd over s, starting at Units.ZERO. */
  function GSumFold(s: seq<FixedPoint>): (r: FixedPoint)
    requires AllValid(s)
    ensures Valid(r)
  {
    if |s| == 0 then ZeroOf(Units) else GAdd(GSumFold(s[..|s| - 1]), s[|s| - 1])
  }

  /** gsum: the loop `sum = sum.gadd(a)` over the sequence. */
  method GSum(s: seq<FixedPoint>) returns (sum: FixedPoint)
    requires AllValid(s)
    ensures sum == GSumFold(s)
  {
    sum := ZeroOf(Units);
    for i := 0 to |s|
      invariant sum == GSumFold(s[..i])
    {
      assert s[..i + 1][..i] == s[..i];
      sum := GAdd(sum, s[i]);
    }
    assert s[..|s|] == s;
  }

  /** No step of the gsum fold leaves the long range. */
  predicate GSumExact(s: seq<FixedPoint>)
    requires AllValid(s)
  {
    |s| == 0 ||
    (GSumExact(s[..|s| - 1]) && IsLong(SumMantissa(GSumFold(s[..|s| - 1]), s[|s| - 1])))
  }

  /** An empty gsum is Units.ZERO, and a one-element gsum is that element
      itself (gadd's zero short-cut). */
  lemma GSumShortSequences(x: FixedPoint)
    requires Valid(x)
    ensures GSumFold([]) == ZeroOf(Units)
    ensures GSumFold([x]) == x
  {
    assert [x][..0] == [];
  }

  /** Where no step overflows, gsum is the exact sum of the numbers. */
  lemma {:induction false} GSumValue(s: seq<FixedPoint>)
    requires AllValid(s) && GSumExact(s)
    ensures Value18(GSumFold(s)) == ValueSum(s)
  {
    if |s| > 0 {
      var prefix := s[..|s| - 1];
      GSumValue(prefix);
      SumValue(GSumFold(prefix), s[|s| - 1]);
    }
  }

  // ---------------------------------------------------------------- sum

  /** The left fold of add over a non-empty s, seeded with its first element. */
  function AddFold(s: seq<FixedPoint>): (r: FixedPoint)
    requires |s| > 0 && AllValid(s) && SameClass(s)
    ensures Valid(r) && r.tag == s[0].tag
  {
    if |s| == 1 then s[0] else Add(AddFold(s[..|s| - 1]), s[|s| - 1])
  }

  /** sum's result: absent (null) for an empty sequence. */
  function SumFold(s: seq<FixedPoint>): Option<FixedPoint>
    requires AllValid(s) && SameClass(s)
  {
    if |s| == 0 then None else Some(AddFold(s))
  }

  /** sum: the loop `sum = sum != null ? sum.add(a) : a`. */
  method Sum(s: seq<FixedPoint>) returns (sum: Option<FixedPoint>)
    requires AllValid(s) && SameClass(s)
    ensures sum == SumFold(s)
    ensures sum.None? <==> |s| == 0
  {
    sum := None;
    for i := 0 to |s|
      invariant sum == SumFold(s[..i])
    {
      assert s[..i + 1][..i] == s[..i];
      if sum.Some? {
        sum := Some(Add(sum.value, s[i]));
      } else {
        sum := Some(s[i]);
      }
    }
    assert s[..|s|] == s;
  }

  /** No step of the sum fold leaves the long range. */
  predicate SumExact(s: seq<FixedPoint>)
    requires |s| > 0 && AllValid(s) && SameClass(s)
  {
    |s| == 1 ||
    (SumExact(s[..|s| - 1]) && IsLong(SumMantissa(AddFold(s[..|s| - 1]), s[|s| - 1])))
  }

  /** Where no step overflows, sum is the exact sum of the numbers. */
  lemma {:induction false} SumFoldValue(s: seq<FixedPoint>)
    requires |s| > 0 && AllValid(s) && SameClass(s) && SumExact(s)
    ensures Value18(SumFold(s).value) == ValueSum(s)
  {
    if |s| == 1 {
      assert s[..0] == [];
    } else {
      var prefix := s[..|s| - 1];
      SumFoldValue(prefix);
      AddValue(AddFold(prefix), s[|s| - 1]);
    }
  }

  /** For a fixed-scale class sum and gsum agree on every non-empty
      sequence: the first gadd returns the first element, and gadd is add
      on operands of one class and scale. */
  lemma {:induction false} SumIsGSum(s: seq<FixedPoint>)
    requires |s| > 0 && AllValid(s) && SameClass(s) && s[0].tag.IsFixed()
    ensures SumFold(s) == Some(GSumFold(s))
  {
    if |s| == 1 {
      GSumShortSequences(s[0]);
      assert s == [s[0]];
    } else {
      var prefix := s[..|s| - 1];
      SumIsGSum(prefix);
      AddIsGAdd(AddFold(prefix), s[|s| - 1]);
    }
  }
}
