/** Python's numeric conversions on floats, modelled on reals, and the bounds of the
    interpolation ratio both colour ramps use. */
module Numbers {

  /** Python's `round(x)`: the nearest integer, ties to the even one. */
  function RoundHalfEven(x: real): (n: int)
    ensures x - 1.0 / 2.0 <= n as real <= x + 1.0 / 2.0
    ensures (n as real - x == 1.0 / 2.0 || x - n as real == 1.0 / 2.0) ==> n % 2 == 0
  {
    var f := x.Floor;
    var frac := x - f as real;
    if frac < 1.0 / 2.0 then f
    else if frac > 1.0 / 2.0 then f + 1
    else if f % 2 == 0 then f
    else f + 1
  }

  /** Rounding an integer gives it back, and rounding keeps a value between two
      integers between them. */
  lemma RoundBetween(x: real, a: int, b: int)
    requires a as real <= x <= b as real
    ensures a <= RoundHalfEven(x) <= b
    ensures x == a as real ==> RoundHalfEven(x) == a
  {
  }

  /** Python's `int(x)` for a float: the integer part, truncated toward zero. */
  function Trunc(x: real): (n: int)
    ensures 0.0 <= x ==> n as real <= x < n as real + 1.0
    ensures x < 0.0 ==> n as real - 1.0 < x <= n as real
  {
    if 0.0 <= x then x.Floor else -((-x).Floor)
  }

  /** `(val - lo) / (hi - lo)`: where `val` sits between `lo` and `hi`. */
  function Ratio(val: real, lo: real, hi: real): real
    requires hi - lo != 0.0
  {
    (val - lo) / (hi - lo)
  }

  /** `q * m == n` with `m > 0`: q has the sign of n and sits below or above 1 as n does
      against m. */
  lemma FactorBounds(q: real, m: real, n: real)
    requires 0.0 < m && q * m == n
    ensures 0.0 < n ==> 0.0 < q
    ensures n < m ==> q < 1.0
    ensures m < n ==> 1.0 < q
  {
    var d := q - 1.0;
    assert d * m == n - m;
    if 0.0 <= d {
      SignOfProduct(d, m);
    }
    if d <= 0.0 {
      SignOfProduct(-d, m);
      assert (-d) * m == -(d * m);
    }
    if q <= 0.0 {
      SignOfProduct(-q, m);
      assert (-q) * m == -(q * m);
    }
  }
  /** Scaling by a factor in [0, 1] keeps a value between 0 and itself. */
  lemma ScaleBetween(w: real, t: real)
    requires 0.0 <= t <= 1.0
    ensures 0.0 <= w ==> 0.0 <= w * t <= w
    ensures w <= 0.0 ==> w <= w * t <= 0.0
  {
    assert w * (1.0 - t) == w - w * t;
    if 0.0 <= w {
      MulNonneg(w, t);
      MulNonneg(w, 1.0 - t);
    } else {
      assert (-w) * t == -(w * t);
      assert (-w) * (1.0 - t) == -(w * (1.0 - t));
      MulNonneg(-w, t);
      MulNonneg(-w, 1.0 - t);
    }
  }

  lemma MulNonneg(a: real, b: real)
    requires 0.0 <= a && 0.0 <= b
    ensures 0.0 <= a * b
  {}

  lemma SignOfProduct(a: real, b: real)
    requires 0.0 <= a && 0.0 < b
    ensures 0.0 <= a * b
  {}
  lemma RatioInside(val: real, lo: real, hi: real)
    requires lo < val < hi
    ensures 0.0 < Ratio(val, lo, hi) < 1.0
  {
    var q := Ratio(val, lo, hi);
    assert q * (hi - lo) == val - lo;
    FactorBounds(q, hi - lo, val - lo);
  }
  lemma RatioBeyond(val: real, lo: real, hi: real)
    requires val < hi < lo
    ensures 1.0 < Ratio(val, lo, hi)
  {
    var q := Ratio(val, lo, hi);
    assert q * (hi - lo) == val - lo;
    assert q * (lo - hi) == lo - val;
    FactorBounds(q, lo - hi, lo - val);
  }

  /** Between its ends the ratio runs from 0 to 1, taking both ends. */
  lemma RatioClosed(val: real, lo: real, hi: real)
    requires lo < hi && lo <= val <= hi
    ensures 0.0 <= Ratio(val, lo, hi) <= 1.0
    ensures Ratio(lo, lo, hi) == 0.0 && Ratio(hi, lo, hi) == 1.0
  {
    assert Ratio(lo, lo, hi) == 0.0;
    assert Ratio(hi, lo, hi) == 1.0;
    if lo < val < hi {
      RatioInside(val, lo, hi);
    }
  }

  /** The ratio is 0 at the low end and 1 at the high end. */
  lemma RatioAtEnds(lo: real, hi: real)
    requires hi - lo != 0.0
    ensures Ratio(lo, lo, hi) == 0.0 && Ratio(hi, lo, hi) == 1.0
  {
    var m := hi - lo;
    assert m / m == 1.0;
    assert Ratio(lo, lo, hi) == 0.0;
    assert Ratio(hi, lo, hi) == 1.0;
  }
}
