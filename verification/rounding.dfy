/** Round-half-to-even, the rounding of both numpy's round and .NET's
    Math.Round(decimal, int). */
module Rounding {
  import opened RealOps

  /** The nearest integer to `x`; a tie goes to the even neighbour. */
  function RoundHalfEven(x: real): (n: int)
    ensures Abs(n as real - x) <= 0.5
    ensures Abs(n as real - x) == 0.5 ==> n % 2 == 0
  {
    var f := x.Floor;
    var frac := x - f as real;
    if frac < 0.5 then f
    else if frac > 0.5 then f + 1
    else if f % 2 == 0 then f
    else f + 1
  }

  /** No integer is closer to `x` than RoundHalfEven(x). */
  lemma RoundIsNearest(x: real, m: int)
    ensures Abs(RoundHalfEven(x) as real - x) <= Abs(m as real - x)
  {
    var f := x.Floor;
    assert f as real <= x < f as real + 1.0;
    assert m <= f || f + 1 <= m;
  }

  /** Dividing by 1000 scales the distance to `x` down by 1000. */
  lemma Thousandths(n: int, x: real)
    ensures Abs(n as real / 1000.0 - x) * 1000.0 == Abs(n as real - x * 1000.0)
    ensures ((n as real / 1000.0) * 1000.0).Floor == n
  {
    assert (n as real / 1000.0) * 1000.0 == n as real;
    assert (n as real / 1000.0 - x) * 1000.0 == n as real - x * 1000.0;
  }

  /** `x` rounded half-to-even to three decimal places. */
  function RoundToThousandths(x: real): (r: real)
    ensures Abs(r - x) <= 0.0005
    ensures (r * 1000.0).Floor as real == r * 1000.0
  {
    var n := RoundHalfEven(x * 1000.0);
    Thousandths(n, x);
    n as real / 1000.0
  }

  /** No multiple of 0.001 is closer to `x` than RoundToThousandths(x). */
  lemma ThousandthsIsNearest(x: real, m: int)
    ensures Abs(RoundToThousandths(x) - x) <= Abs(m as real / 1000.0 - x)
  {
    RoundIsNearest(x * 1000.0, m);
    var n := RoundHalfEven(x * 1000.0);
    Thousandths(n, x);
    Thousandths(m, x);
  }
}
