/** Rounding to the nearest integer, ties to even (section 4.3.1 of IEEE 754-2008). */
module Rounding {
  import opened Reals

  function RoundHalfToEven(x: real): real {
    var floor := x.Floor;
    var diff := x - floor as real;
    if diff < 0.5 then floor as real
    else if diff > 0.5 then (floor + 1) as real
    else if floor % 2 == 0 then floor as real
    else (floor + 1) as real
  }

  /** The definition of the rounding mode: a nearest integer, the even one when two are nearest. */
  predicate NearestEven(x: real, r: int) {
    Abs(x - r as real) < 0.5 || (Abs(x - r as real) == 0.5 && r % 2 == 0)
  }

  /** Exactly one integer meets the definition, and it is the one computed. */
  lemma RoundingIsNearestEven(x: real, r: int)
    ensures NearestEven(x, r) <==> RoundHalfToEven(x) == r as real
  {
    var floor := x.Floor;
    if NearestEven(x, r) {
      assert r == floor || r == floor + 1;
    }
  }

  lemma RoundingIsInteger(x: real) returns (r: int)
    ensures RoundHalfToEven(x) == r as real && NearestEven(x, r)
  {
    r := x.Floor;
    if RoundHalfToEven(x) != r as real {
      r := r + 1;
    }
    RoundingIsNearestEven(x, r);
  }

  lemma RoundingIsOdd(x: real)
    ensures RoundHalfToEven(-x) == -RoundHalfToEven(x)
  {
    hide RoundHalfToEven;
    var r := RoundingIsInteger(x);
    assert Abs(-x - (-r) as real) == Abs(x - r as real);
    RoundingIsNearestEven(-x, -r);
  }

  lemma RoundingIsMonotone(x: real, y: real)
    requires x <= y
    ensures RoundHalfToEven(x) <= RoundHalfToEven(y)
  {
    hide RoundHalfToEven;
    var r := RoundingIsInteger(x);
    var s := RoundingIsInteger(y);
    if r >= s + 1 {
      RoundingIsNearestEven(x, s);
    }
  }

  lemma RoundsToZeroExactly(x: real)
    ensures RoundHalfToEven(x) == 0.0 <==> Abs(x) <= 0.5
    ensures Abs(RoundHalfToEven(x) - x) <= 0.5
  {
    RoundingIsNearestEven(x, 0);
  }
}
