/** Go's 64-bit signed integers and its integer division, written out
    explicitly so that the rest of the model can use unbounded `int`. */
module GoInt {

  /** `math.MaxInt64` and `math.MinInt64`. */
  const MaxInt64: int := 0x7FFF_FFFF_FFFF_FFFF
  const MinInt64: int := -0x8000_0000_0000_0000

  /** The values a Go `int64` (and so a `time.Duration`) can hold. */
  type Int64 = x: int | MinInt64 <= x <= MaxInt64

  /** Go's `a / b` on integers, which truncates toward zero (Dafny's `/`
      is Euclidean and rounds negative dividends the other way). Only a
      positive divisor is needed by the model. The quotient has the sign
      of the dividend and is no larger in magnitude; `QuoTruncates` states
      the exact remainder bounds. */
  function Quo(a: int, b: int): (q: int)
    requires b > 0
    ensures a >= 0 ==> 0 <= q <= a
    ensures a < 0 ==> a <= q <= 0
  {
    DivNoLarger(if a >= 0 then a else -a, b);
    if a >= 0 then a / b else -((-a) / b)
  }

  /** Dividing a non-negative number by a positive one cannot enlarge it. */
  lemma DivNoLarger(a: int, b: int)
    requires a >= 0 && b > 0
    ensures 0 <= a / b <= a
  {
    var q := a / b;
    assert a == b * q + a % b;
    if q > 0 {
      MulMonotone(q, 1, b);
    }
  }

  /** The quotient as the Go specification defines it: the remainder
      `a - q * b` has the sign of the dividend and is smaller than the
      divisor in magnitude. Kept apart from `Quo` so that the non-linear
      facts enter a proof only where they are asked for. */
  lemma QuoTruncates(a: int, b: int)
    requires b > 0
    ensures a >= 0 ==> 0 <= a - Quo(a, b) * b < b
    ensures a < 0 ==> -b < a - Quo(a, b) * b <= 0
  {
  }

  /** A dividend bounded by `b * lo` and `b * hi` gives a quotient bounded
      by `lo` and `hi`, whatever the signs: the truncated average of values
      that all lie between `lo` and `hi` lies there too. */
  lemma QuoBetween(a: int, b: int, lo: int, hi: int)
    requires b > 0
    requires b * lo <= a <= b * hi
    ensures lo <= Quo(a, b) <= hi
  {
    if a >= 0 {
      QuoBetweenNonNegative(a, b, lo, hi);
    } else {
      assert b * -hi <= -a <= b * -lo by {
        assert b * -hi == -(b * hi) && b * -lo == -(b * lo);
      }
      QuoBetweenNonNegative(-a, b, -hi, -lo);
      assert Quo(a, b) == -Quo(-a, b);
    }
  }

  /** `QuoBetween` for a non-negative dividend, where Go's quotient is
      Dafny's. */
  lemma QuoBetweenNonNegative(a: int, b: int, lo: int, hi: int)
    requires b > 0 && a >= 0
    requires b * lo <= a <= b * hi
    ensures lo <= Quo(a, b) <= hi
  {
    var q := Quo(a, b);
    QuoTruncates(a, b);
    assert b * lo < b * (q + 1) by { assert b * (q + 1) == q * b + b; }
    MulCancel(b, lo, q + 1);
    MulCancel(b, q, hi + 1);
  }

  /** Multiplication by a positive factor reflects strict order. */
  lemma MulCancel(b: int, x: int, y: int)
    requires b > 0 && b * x < b * y
    ensures x < y
  {
    assert b * (y - x) == b * y - b * x;
  }

  /** Multiplication by a positive factor preserves order. */
  lemma MulMonotone(b: int, x: int, y: int)
    requires b > 0 && x <= y
    ensures b * x <= b * y
  {
    assert b * y - b * x == b * (y - x);
  }
}
