/** Enough of IEEE 754 binary64 arithmetic to follow `percentIndex` as
    written: a float64 value is kept as an exact non-negative ratio, and
    each arithmetic step rounds the exact result to the nearest float64
    (ties to even), as Go's `/` and `*` on float64 do. Only normal,
    non-negative values are handled: the quantities in `percentIndex` are
    either zero or at least 1/100. */
module GoFloat {

  /** A non-negative rational `num / den`. */
  datatype Ratio = Ratio(num: nat, den: nat)

  const Two52: nat := 0x10_0000_0000_0000
  const Two53: nat := 0x20_0000_0000_0000

  function Pow2(k: nat): (r: nat)
    ensures r > 0
  {
    if k == 0 then 1
    else if k % 2 == 0 then Pow2(k / 2) * Pow2(k / 2)
    else 2 * Pow2(k - 1)
  }

  /** Number of binary digits of `x`. */
  function BitLength(x: nat): nat
  {
    if x >= 0x1_0000 then 16 + BitLength(x / 0x1_0000)
    else if x >= 0x10 then 4 + BitLength(x / 0x10)
    else if x >= 8 then 4
    else if x >= 4 then 3
    else if x >= 2 then 2
    else x
  }

  /** The power of two `k` that brings `num / den` into the significand
      range `[2^52, 2^53)`: the bit lengths place the scaled value in
      `(2^52, 2^54)`, and one comparison settles which half. */
  function Scale(num: nat, den: nat): int
    requires num > 0 && den > 0
  {
    var k0 := 53 - (BitLength(num) - BitLength(den));
    if k0 >= 0 then
      (if num * Pow2(k0) >= Two53 * den then k0 - 1 else k0)
    else
      (if num >= Two53 * den * Pow2(-k0) then k0 - 1 else k0)
  }

  /** `num / den` rounded to the nearest integer, ties to even. */
  function RoundHalfEven(num: nat, den: nat): nat
    requires den > 0
  {
    var q, r := num / den, num % den;
    if 2 * r < den then q
    else if 2 * r > den then q + 1
    else if q % 2 == 0 then q else q + 1
  }

  /** The float64 nearest to `num / den`, ties to even. */
  function ToFloat64(num: nat, den: nat): (x: Ratio)
    requires den > 0
    ensures x.den > 0
  {
    if num == 0 then Ratio(0, 1)
    else
      var k := Scale(num, den);
      if k >= 0 then Ratio(RoundHalfEven(num * Pow2(k), den), Pow2(k))
      else
        var d := Pow2(-k);
        Ratio(RoundHalfEven(num, den * d) * d, 1)
  }

  /** Rounding to an integer is off by at most one half:
      `|r - num / den| <= 1/2`. */
  lemma RoundHalfEvenNearest(num: nat, den: nat)
    requires den > 0
    ensures 2 * num <= 2 * RoundHalfEven(num, den) * den + den
    ensures 2 * RoundHalfEven(num, den) * den <= 2 * num + den
  {
    var q, r := num / den, num % den;
    assert num == q * den + r;
    assert (q + 1) * den == q * den + den;
  }

  /** The float64 result lies on the grid of spacing `1 / x.den` fixed by
      `Scale`, and no farther than half a grid step from `num / den`:
      `|x - num / den| <= 1 / (2 * x.den)`. Zero is exact. This holds for
      every value below 2^53, the range `percentIndex` works in. */
  lemma ToFloat64Nearest(num: nat, den: nat)
    requires den > 0
    ensures num == 0 ==> ToFloat64(num, den) == Ratio(0, 1)
    ensures num > 0 && Scale(num, den) >= 0 ==>
      var x := ToFloat64(num, den);
      && x.den == Pow2(Scale(num, den))
      && 2 * num * x.den <= 2 * x.num * den + den
      && 2 * x.num * den <= 2 * num * x.den + den
  {
    if num > 0 && Scale(num, den) >= 0 {
      var p := Pow2(Scale(num, den));
      var r := RoundHalfEven(num * p, den);
      RoundHalfEvenNearest(num * p, den);
      HalfStepRegrouped(num, den, p, r);
    }
  }

  /** The bound of `RoundHalfEvenNearest` on `num * p`, regrouped as
      `ToFloat64Nearest` states it. */
  lemma HalfStepRegrouped(num: nat, den: nat, p: nat, r: nat)
    requires 2 * (num * p) <= 2 * r * den + den
    requires 2 * r * den <= 2 * (num * p) + den
    ensures 2 * num * p <= 2 * r * den + den
    ensures 2 * r * den <= 2 * num * p + den
  {
    assert 2 * (num * p) == 2 * num * p;
  }

  /** `math.Round` of a non-negative value: halves go up. */
  function RoundHalfUp(x: Ratio): nat
    requires x.den > 0
  {
    (2 * x.num + x.den) / (2 * x.den)
  }

  /** `RoundHalfUp(x)` is the integer `r` with `r - 1/2 <= x < r + 1/2`. */
  lemma RoundHalfUpNearest(x: Ratio)
    requires x.den > 0
    ensures x.den * (2 * RoundHalfUp(x) - 1) <= 2 * x.num < x.den * (2 * RoundHalfUp(x) + 1)
  {
    var a, b := 2 * x.num + x.den, 2 * x.den;
    var q := a / b;
    assert a == q * b + a % b;
    assert q * b == x.den * (2 * q + 1) - x.den;
    assert x.den * (2 * q - 1) == q * b - x.den;
  }

  /** The powers of two the worked examples use. */
  lemma Pow2Facts()
    ensures Pow2(48) == 0x1_0000_0000_0000
    ensures Pow2(49) == 0x2_0000_0000_0000
    ensures Pow2(50) == 0x4_0000_0000_0000
    ensures Pow2(54) == 0x40_0000_0000_0000
    ensures Pow2(55) == 0x80_0000_0000_0000
  {
    assert Pow2(3) == 8;
    assert Pow2(6) == 64;
    assert Pow2(12) == 4096;
    assert Pow2(13) == 8192;
    assert Pow2(24) == 4096 * 4096;
    assert Pow2(25) == 2 * 4096 * 4096;
    assert Pow2(26) == 8192 * 8192;
    assert Pow2(27) == 2 * 8192 * 8192;
    assert Pow2(48) == Pow2(24) * Pow2(24);
  }

  /** Two more powers of two, for the one-metric example. */
  lemma Pow2FactsHigh()
    ensures Pow2(53) == Two53
    ensures Pow2(59) == 0x800_0000_0000_0000
  {
    assert Pow2(6) == 64;
    assert Pow2(7) == 128;
    assert Pow2(14) == 128 * 128;
    assert Pow2(13) == 8192;
    assert Pow2(26) == 8192 * 8192;
    assert Pow2(28) == Pow2(14) * Pow2(14);
    assert Pow2(29) == 2 * Pow2(28);
    assert Pow2(52) == Pow2(26) * Pow2(26);
    assert Pow2(58) == Pow2(29) * Pow2(29);
  }
}
