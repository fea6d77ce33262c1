/** `percentIndex` exactly as written, in float64 arithmetic, set beside the
    exact-rounding `Coza.PercentIndex` the rest of the model uses. The two
    agree at the sizes the package's tests use but not at every size: the
    float64 quotient `l / 100` is inexact, and at some lengths an exact
    half of `l * p / 100` comes out just below the half and is rounded down. */
module PercentFloat {
  import opened GoFloat
  import opened GoInt
  import Coza

  /** `int(math.Max(math.Round(float64(l)/100*p)-1, 0))`: divide by 100 in
      float64, multiply by `p` in float64, round halves up, step back one,
      floor at zero. `float64(l)` is taken as exact (true for any
      `l <= 2^53`) and `p` is a whole number, as at every call site. */
  function FloatPercentIndex(l: nat, p: nat): (r: nat)
    ensures var h := ToFloat64(l, 100);
      var x := ToFloat64(h.num * p, h.den);
      && (2 * x.num < 3 * x.den <==> r == 0)
      && (2 * x.num >= 3 * x.den ==> x.den * (2 * r + 1) <= 2 * x.num < x.den * (2 * r + 3))
  {
    var hundredths := ToFloat64(l, 100);
    IndexOfRounded(ToFloat64(hundredths.num * p, hundredths.den))
  }

  /** `int(math.Max(math.Round(x)-1, 0))` for a non-negative float64 `x`:
      zero exactly when `x < 3/2`, and otherwise the `r` with
      `r + 1/2 <= x < r + 3/2`. */
  function IndexOfRounded(x: Ratio): (r: nat)
    requires x.den > 0
    ensures 2 * x.num < 3 * x.den <==> r == 0
    ensures 2 * x.num >= 3 * x.den ==> x.den * (2 * r + 1) <= 2 * x.num < x.den * (2 * r + 3)
  {
    RoundHalfUpNearest(x);
    var rounded := RoundHalfUp(x);
    IndexFromNearest(x.num, x.den, rounded);
    if rounded - 1 > 0 then rounded - 1 else 0
  }

  /** The arithmetic behind `IndexOfRounded`: from `R - 1/2 <= num / den <
      R + 1/2`, the index `max(R - 1, 0)` is zero exactly when
      `num / den < 3/2`, and otherwise lies half a unit to a unit and a half
      below `num / den`. */
  lemma IndexFromNearest(num: int, den: int, rounded: nat)
    requires den > 0
    requires den * (2 * rounded - 1) <= 2 * num < den * (2 * rounded + 1)
    ensures var r := if rounded - 1 > 0 then rounded - 1 else 0;
      && (2 * num < 3 * den <==> r == 0)
      && (2 * num >= 3 * den ==> den * (2 * r + 1) <= 2 * num < den * (2 * r + 3))
  {
    if rounded >= 2 {
      MulMonotone(den, 3, 2 * rounded - 1);
      var r := rounded - 1;
      assert 2 * r + 1 == 2 * rounded - 1 && 2 * r + 3 == 2 * rounded + 1;
    } else {
      MulMonotone(den, 2 * rounded + 1, 3);
    }
  }

  /** In float64, 29 / 100 is 5224175567749775 / 2^54, slightly below 0.29. */
  lemma TwentyNineHundredths(l: nat)
    requires l == 29
    ensures ToFloat64(l, 100) == Ratio(5224175567749775, 0x40_0000_0000_0000)
  {
    Pow2Facts();
    assert BitLength(29) == 5 && BitLength(100) == 7;
    assert Scale(29, 100) == 54;
  }

  /** ... and that value times 50 rounds to 8162774324609023 / 2^49, which
      is 14.499999999999998, not 14.5. */
  lemma TwentyNineHundredthsTimesFifty(num: nat, den: nat)
    requires num == 261208778387488750 && den == 0x40_0000_0000_0000
    ensures ToFloat64(num, den) == Ratio(8162774324609023, 0x2_0000_0000_0000)
  {
    Pow2Facts();
    assert BitLength(261208778387488750) == 58 && BitLength(0x40_0000_0000_0000) == 55;
    assert Scale(261208778387488750, 0x40_0000_0000_0000) == 49;
  }

  /** The counterexample: for 29 metrics the source's median index is 13,
      while 29 * 50 / 100 = 14.5 rounds half up to 15 and gives index 14. */
  lemma MedianIndexOf29(l: nat, p: nat)
    requires l == 29 && p == 50
    ensures FloatPercentIndex(l, p) == 13
    ensures Coza.PercentIndex(l, p) == 14
  {
    TwentyNineHundredths(l);
    var hundredths := ToFloat64(l, 100);
    TwentyNineHundredthsTimesFifty(hundredths.num * p, hundredths.den);
  }

  /** In float64, 20 / 100 is 7205759403792794 / 2^55, slightly above 0.2. */
  lemma TwentyHundredths(l: nat)
    requires l == 20
    ensures ToFloat64(l, 100) == Ratio(7205759403792794, 0x80_0000_0000_0000)
  {
    Pow2Facts();
    assert BitLength(20) == 5 && BitLength(100) == 7;
    assert Scale(20, 100) == 55;
  }

  /** That value times 50 rounds to exactly 10, ... */
  lemma TwentyHundredthsTimesFifty(num: nat, den: nat)
    requires num == 7205759403792794 * 50 && den == 0x80_0000_0000_0000
    ensures ToFloat64(num, den) == Ratio(5629499534213120, 0x2_0000_0000_0000)
  {
    Pow2Facts();
    assert BitLength(360287970189639700) == 59 && BitLength(0x80_0000_0000_0000) == 56;
    assert Scale(360287970189639700, 0x80_0000_0000_0000) == 49;
  }

  /** ... times 90 to exactly 18, ... */
  lemma TwentyHundredthsTimesNinety(num: nat, den: nat)
    requires num == 7205759403792794 * 90 && den == 0x80_0000_0000_0000
    ensures ToFloat64(num, den) == Ratio(5066549580791808, 0x1_0000_0000_0000)
  {
    Pow2Facts();
    assert BitLength(648518346341351460) == 60 && BitLength(0x80_0000_0000_0000) == 56;
    assert Scale(648518346341351460, 0x80_0000_0000_0000) == 48;
  }

  /** ... and times 95 to exactly 19. */
  lemma TwentyHundredthsTimesNinetyFive(num: nat, den: nat)
    requires num == 7205759403792794 * 95 && den == 0x80_0000_0000_0000
    ensures ToFloat64(num, den) == Ratio(5348024557502464, 0x1_0000_0000_0000)
  {
    Pow2Facts();
    assert BitLength(684547143360315430) == 60 && BitLength(0x80_0000_0000_0000) == 56;
    assert Scale(684547143360315430, 0x80_0000_0000_0000) == 48;
  }

  /** Each of the three indices at 20 metrics, read off the float64
      products above. */
  lemma TwentyAtFifty(l: nat, p: nat)
    requires l == 20 && p == 50
    ensures FloatPercentIndex(l, p) == 9
  {
    TwentyHundredths(l);
    var hundredths := ToFloat64(l, 100);
    TwentyHundredthsTimesFifty(hundredths.num * p, hundredths.den);
  }

  lemma TwentyAtNinety(l: nat, p: nat)
    requires l == 20 && p == 90
    ensures FloatPercentIndex(l, p) == 17
  {
    TwentyHundredths(l);
    var hundredths := ToFloat64(l, 100);
    TwentyHundredthsTimesNinety(hundredths.num * p, hundredths.den);
  }

  lemma TwentyAtNinetyFive(l: nat, p: nat)
    requires l == 20 && p == 95
    ensures FloatPercentIndex(l, p) == 18
  {
    TwentyHundredths(l);
    var hundredths := ToFloat64(l, 100);
    TwentyHundredthsTimesNinetyFive(hundredths.num * p, hundredths.den);
  }

  /** At the size the package's tests use, the float64 formula and the
      exact one give the same indices 9, 17 and 18. */
  lemma AgreesAtTwenty(l: nat, p: nat)
    requires l == 20 && (p == 50 || p == 90 || p == 95)
    ensures FloatPercentIndex(l, p) == Coza.PercentIndex(l, p)
    ensures p == 50 ==> FloatPercentIndex(l, p) == 9
    ensures p == 90 ==> FloatPercentIndex(l, p) == 17
    ensures p == 95 ==> FloatPercentIndex(l, p) == 18
  {
    if p == 50 {
      TwentyAtFifty(l, p);
    } else if p == 90 {
      TwentyAtNinety(l, p);
    } else {
      TwentyAtNinetyFive(l, p);
    }
  }

  /** In float64, 1 / 100 is 5764607523034235 / 2^59, slightly above 0.01. */
  lemma OneHundredth(l: nat)
    requires l == 1
    ensures ToFloat64(l, 100) == Ratio(5764607523034235, 0x800_0000_0000_0000)
  {
    Pow2FactsHigh();
    assert BitLength(1) == 1 && BitLength(100) == 7;
    assert Scale(1, 100) == 59;
  }

  /** That value times 50 rounds to 4503599627370496 / 2^53, about 0.5, ... */
  lemma OneHundredthTimesFifty(num: nat, den: nat)
    requires num == 5764607523034235 * 50 && den == 0x800_0000_0000_0000
    ensures ToFloat64(num, den) == Ratio(4503599627370496, Two53)
  {
    Pow2Facts();
    Pow2FactsHigh();
    assert BitLength(288230376151711750) == 59 && BitLength(0x800_0000_0000_0000) == 60;
    assert Scale(288230376151711750, 0x800_0000_0000_0000) == 53;
  }

  /** ... times 90 to 8106479329266893 / 2^53, about 0.9, ... */
  lemma OneHundredthTimesNinety(num: nat, den: nat)
    requires num == 5764607523034235 * 90 && den == 0x800_0000_0000_0000
    ensures ToFloat64(num, den) == Ratio(8106479329266893, Two53)
  {
    Pow2Facts();
    Pow2FactsHigh();
    assert BitLength(518814677073081150) == 59 && BitLength(0x800_0000_0000_0000) == 60;
    assert Scale(518814677073081150, 0x800_0000_0000_0000) == 53;
  }

  /** ... times 95 to 8556839292003943 / 2^53, about 0.95. */
  lemma OneHundredthTimesNinetyFive(num: nat, den: nat)
    requires num == 5764607523034235 * 95 && den == 0x800_0000_0000_0000
    ensures ToFloat64(num, den) == Ratio(8556839292003943, Two53)
  {
    Pow2Facts();
    Pow2FactsHigh();
    assert BitLength(547637714688252325) == 59 && BitLength(0x800_0000_0000_0000) == 60;
    assert Scale(547637714688252325, 0x800_0000_0000_0000) == 53;
  }

  /** Each of the three indices at 1 metric, read off the float64
      products above. */
  lemma OneAtFifty(l: nat, p: nat)
    requires l == 1 && p == 50
    ensures FloatPercentIndex(l, p) == 0
  {
    OneHundredth(l);
    var hundredths := ToFloat64(l, 100);
    OneHundredthTimesFifty(hundredths.num * p, hundredths.den);
  }

  lemma OneAtNinety(l: nat, p: nat)
    requires l == 1 && p == 90
    ensures FloatPercentIndex(l, p) == 0
  {
    OneHundredth(l);
    var hundredths := ToFloat64(l, 100);
    OneHundredthTimesNinety(hundredths.num * p, hundredths.den);
  }

  lemma OneAtNinetyFive(l: nat, p: nat)
    requires l == 1 && p == 95
    ensures FloatPercentIndex(l, p) == 0
  {
    OneHundredth(l);
    var hundredths := ToFloat64(l, 100);
    OneHundredthTimesNinetyFive(hundredths.num * p, hundredths.den);
  }

  /** The one-metric case of the package's tests: the float64 formula and
      the exact one both give index 0 for p = 50, 90 and 95. */
  lemma AgreesAtOne(l: nat, p: nat)
    requires l == 1 && (p == 50 || p == 90 || p == 95)
    ensures FloatPercentIndex(l, p) == Coza.PercentIndex(l, p) == 0
  {
    if p == 50 {
      OneAtFifty(l, p);
    } else if p == 90 {
      OneAtNinety(l, p);
    } else {
      OneAtNinetyFive(l, p);
    }
  }
}
