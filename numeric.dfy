/** Numbers as the lifting and running code sees them: a float is either
    NaN (pandas' marker for a missing or unusable value) or an exact real.
    Rounding of IEEE-754 doubles is not modelled. */
module Numeric {

  /** A pandas/NumPy float: NaN, kept distinct from every real, or a real. */
  datatype Float = NaN | Fin(value: real)

  function Min(a: real, b: real): (m: real)
    ensures m <= a && m <= b
    ensures m == a || m == b
  {
    if a <= b then a else b
  }

  /** Python's `int(x)` on a float (and pandas' `astype(int)`): truncation toward zero. */
  function Trunc(x: real): (n: int)
    ensures 0.0 <= x ==> 0 <= n && n as real <= x < n as real + 1.0
    ensures x < 0.0 ==> n <= 0 && n as real - 1.0 < x <= n as real
  {
    if x >= 0.0 then x.Floor else -((-x).Floor)
  }

  lemma TruncOfInt(n: int)
    ensures Trunc(n as real) == n
  {
  }

  /** Python's `round(x)` on a float: to the nearest integer, halves to the even neighbour. */
  function RoundHalfEven(x: real): (n: int)
    ensures n as real - x <= 0.5 && x - n as real <= 0.5
    ensures (n as real - x == 0.5 || x - n as real == 0.5) ==> n % 2 == 0
    ensures 0.0 <= x ==> 0 <= n
  {
    var f := x.Floor;
    var d := x - f as real;
    if d < 0.5 then f
    else if d > 0.5 then f + 1
    else if f % 2 == 0 then f
    else f + 1
  }
}
