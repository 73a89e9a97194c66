/**
 * The colour-space conversion of the colour wheel (frontend/src/components/TracksColorWheel.js,
 * `rgbToHsv`): the hexagonal RGB to HSV decomposition, with hue in whole degrees and saturation
 * and value in whole percent. JavaScript numbers are modelled as exact rationals.
 */
module HsvConversion {

  datatype Hsv = Hsv(h: int, s: int, v: int)

  /** JavaScript's `Math.round`: the nearest integer, halves going towards +infinity. */
  function JsRound(x: real): (n: int)
    ensures n as real - 0.5 <= x < n as real + 0.5
  {
    (x + 0.5).Floor
  }

  /** Truncation towards zero, the quotient that JavaScript's `%` is based on. */
  function Trunc(x: real): (t: int)
    ensures 0.0 <= x ==> 0 <= t && t as real <= x < t as real + 1.0
    ensures x < 0.0 ==> t <= 0 && t as real - 1.0 < x <= t as real
  {
    if x >= 0.0 then x.Floor else -((-x).Floor)
  }

  /** JavaScript's `%` on numbers: the remainder keeps the sign of the dividend. */
  function JsRem(x: real, m: real): real
    requires m != 0.0
  {
    x - m * Trunc(x / m) as real
  }

  lemma ScaleMonotone(m: real, a: real, b: real)
    requires m > 0.0
    ensures a <= b ==> m * a <= m * b
    ensures a < b ==> m * a < m * b
  {
  }

  function Max3(a: real, b: real, c: real): real
  {
    if a >= b && a >= c then a else if b >= c then b else c
  }

  function Min3(a: real, b: real, c: real): real
  {
    if a <= b && a <= c then a else if b <= c then b else c
  }

  /** `rgbToHsv(r, g, b)`, branch for branch. */
  function RgbToHsv(r: int, g: int, b: int): Hsv
  {
    var rf, gf, bf := r as real / 255.0, g as real / 255.0, b as real / 255.0;
    var max := Max3(rf, gf, bf);
    var min := Min3(rf, gf, bf);
    var delta := max - min;
    var sector :=
      if delta == 0.0 then 0.0
      else if max == rf then JsRem((gf - bf) / delta, 6.0)
      else if max == gf then (bf - rf) / delta + 2.0
      else (rf - gf) / delta + 4.0;
    var h0 := JsRound(sector * 60.0);
    var h := if h0 < 0 then h0 + 360 else h0;
    var s := if max == 0.0 then 0 else JsRound((delta / max) * 100.0);
    var v := JsRound(max * 100.0);
    Hsv(h, s, v)
  }

  lemma JsRoundMonotone(x: real, y: real)
    requires x <= y
    ensures JsRound(x) <= JsRound(y)
  {
  }

  lemma JsRoundOfInteger(k: int)
    ensures JsRound(k as real) == k
  {
  }

  /** On the range a sector quotient can take, JavaScript's `% 6` changes nothing. */
  lemma {:induction false} JsRemSmall(x: real)
    requires -1.0 <= x <= 1.0
    ensures JsRem(x, 6.0) == x
  {
    var t := Trunc(x / 6.0);
    assert t == 0;
  }

  /** A difference of two channels lying between min and max, divided by max - min, is in [-1, 1]. */
  lemma QuotientInUnit(d: real, delta: real)
    requires delta > 0.0 && -delta <= d <= delta
    ensures -1.0 <= d / delta <= 1.0
    ensures 0.0 <= d ==> 0.0 <= d / delta
  {
    var q := d / delta;
    assert delta * q == d;
    if q > 1.0 { ScaleMonotone(delta, 1.0, q); }
    if q < -1.0 { ScaleMonotone(delta, q, -1.0); }
    if q < 0.0 { ScaleMonotone(delta, q, 0.0); }
  }

  /** A real in [lo, hi] rounds to an integer in [lo, hi] when lo and hi are integers. */
  lemma RoundBetween(x: real, lo: int, hi: int)
    requires lo as real <= x <= hi as real
    ensures lo <= JsRound(x) <= hi
  {
    JsRoundMonotone(lo as real, x);
    JsRoundMonotone(x, hi as real);
    JsRoundOfInteger(lo);
    JsRoundOfInteger(hi);
  }

  /** The hue is a whole number of degrees in [0, 360), whatever the channels. */
  lemma {:induction false} HueInRange(r: int, g: int, b: int)
    ensures 0 <= RgbToHsv(r, g, b).h < 360
  {
    var rf, gf, bf := r as real / 255.0, g as real / 255.0, b as real / 255.0;
    var max := Max3(rf, gf, bf);
    var min := Min3(rf, gf, bf);
    var delta := max - min;
    if delta == 0.0 {
      JsRoundOfInteger(0);
    } else if max == rf {
      QuotientInUnit(gf - bf, delta);
      JsRemSmall((gf - bf) / delta);
      RoundBetween(((gf - bf) / delta) * 60.0, -60, 60);
    } else if max == gf {
      QuotientInUnit(bf - rf, delta);
      RoundBetween(((bf - rf) / delta + 2.0) * 60.0, 60, 180);
    } else {
      QuotientInUnit(rf - gf, delta);
      RoundBetween(((rf - gf) / delta + 4.0) * 60.0, 180, 300);
    }
  }

  /** For 8-bit channels, saturation and value are whole percentages in [0, 100]. */
  lemma {:induction false} SaturationValueInRange(r: int, g: int, b: int)
    requires 0 <= r <= 255 && 0 <= g <= 255 && 0 <= b <= 255
    ensures 0 <= RgbToHsv(r, g, b).s <= 100
    ensures 0 <= RgbToHsv(r, g, b).v <= 100
  {
    var rf, gf, bf := r as real / 255.0, g as real / 255.0, b as real / 255.0;
    var max := Max3(rf, gf, bf);
    var min := Min3(rf, gf, bf);
    var delta := max - min;
    assert 0.0 <= min <= max <= 1.0;
    RoundBetween(max * 100.0, 0, 100);
    if max != 0.0 {
      QuotientInUnit(delta, max);
      RoundBetween((delta / max) * 100.0, 0, 100);
    }
  }

  /** Equal channels (a grey, white or black) have hue 0 and saturation 0. */
  lemma Achromatic(c: int)
    ensures RgbToHsv(c, c, c).h == 0 && RgbToHsv(c, c, c).s == 0
  {
    JsRoundOfInteger(0);
  }

  /** Black has saturation 0 and value 0. */
  lemma Black()
    ensures RgbToHsv(0, 0, 0) == Hsv(0, 0, 0)
  {
    JsRoundOfInteger(0);
  }

  /** Reference values of the hexagonal decomposition. */
  lemma Fixtures()
    ensures RgbToHsv(255, 0, 0) == Hsv(0, 100, 100)
    ensures RgbToHsv(0, 255, 0) == Hsv(120, 100, 100)
    ensures RgbToHsv(0, 0, 255) == Hsv(240, 100, 100)
    ensures RgbToHsv(0, 255, 255) == Hsv(180, 100, 100)
    ensures RgbToHsv(255, 255, 255) == Hsv(0, 0, 100)
    ensures RgbToHsv(128, 128, 128) == Hsv(0, 0, 50)
  {
    JsRemSmall(0.0);
  }
}
