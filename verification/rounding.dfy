/** Python's `round(x, n)` for the two precisions the post-processing uses:
    the nearest multiple of 10^-n, halfway cases going to the even multiple.
    Binary floating point is not modelled; coordinates and confidences are
    exact reals here. */
module Rounding {

  /** The integer nearest to `x`; of two equally near integers, the even one. */
  function RoundHalfEven(x: real): (k: int)
    ensures (k as real) - 0.5 <= x <= (k as real) + 0.5
    ensures x - (k as real) == 0.5 || (k as real) - x == 0.5 ==> k % 2 == 0
  {
    var f := x.Floor;
    var frac := x - (f as real);
    if frac < 0.5 then f
    else if frac > 0.5 then f + 1
    else if f % 2 == 0 then f
    else f + 1
  }

  /** `round(x, 6)`, used for normalised coordinates. */
  function Round6(x: real): real {
    (RoundHalfEven(x * 1000000.0) as real) / 1000000.0
  }

  /** `round(x, 4)`, used for OCR confidences. */
  function Round4(x: real): real {
    (RoundHalfEven(x * 10000.0) as real) / 10000.0
  }

  /** A 6-decimal rounding is off by at most half a millionth. */
  lemma Round6Error(x: real)
    ensures x - 0.0000005 <= Round6(x) <= x + 0.0000005
  {
  }

  /** A 4-decimal rounding is off by at most half a ten-thousandth. */
  lemma Round4Error(x: real)
    ensures x - 0.00005 <= Round4(x) <= x + 0.00005
  {
  }

  /** Rounding does not reverse the order of two values, so normalised
      coordinates keep the order of the raw ones. */
  lemma Round6Monotone(x: real, y: real)
    requires x <= y
    ensures Round6(x) <= Round6(y)
  {
    var kx, ky := RoundHalfEven(x * 1000000.0), RoundHalfEven(y * 1000000.0);
    if kx > ky {
      assert false;
    }
  }

  /** Whole numbers are left as they are. */
  lemma Round6Exact(n: int)
    ensures Round6(n as real) == n as real
  {
    assert (n as real) * 1000000.0 == (n * 1000000) as real;
    assert RoundHalfEven((n * 1000000) as real) == n * 1000000;
  }

  /** A value with at most six decimals is left as it is; in particular
      rounding twice is rounding once. */
  lemma Round6Idempotent(x: real)
    ensures Round6(Round6(x)) == Round6(x)
  {
    var k := RoundHalfEven(x * 1000000.0);
    assert Round6(x) * 1000000.0 == k as real;
    assert RoundHalfEven(k as real) == k;
  }
}
