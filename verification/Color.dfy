/** Colours of `color.rs` in exact arithmetic: conversion between RGB and HSL, and blending. */
module Color {
  import opened Common

  datatype Rgba = Rgba(r: real, g: real, b: real, a: real) {
    function Blend(other: Rgba): Rgba {
      if other.a >= 1.0 then other
      else if other.a <= 0.0 then this
      else
        Rgba(r * (1.0 - other.a) + other.r * other.a,
             g * (1.0 - other.a) + other.g * other.a,
             b * (1.0 - other.a) + other.b * other.a,
             a)
    }
  }

  datatype Hsla = Hsla(h: real, s: real, l: real, a: real) {
    function Blend(other: Hsla): Hsla {
      if other.a >= 1.0 then other
      else if other.a <= 0.0 then this
      else HslFromRgb(RgbFromHsl(this).Blend(RgbFromHsl(other)))
    }
  }

  // ---------------------------------------------------------------- arithmetic

  function Abs(x: real): real {
    if x < 0.0 then -x else x
  }

  function Clamp(x: real): real {
    if x < 0.0 then 0.0 else if x > 1.0 then 1.0 else x
  }

  /** `x % 2.0`: the remainder has the sign of the dividend. */
  function Remainder2(x: real): real {
    if x >= 0.0 then x - 2.0 * (x / 2.0).Floor as real
    else x + 2.0 * (-x / 2.0).Floor as real
  }

  /** `x.rem_euclid(6.0)` */
  function RemEuclid6(x: real): real {
    x - 6.0 * (x / 6.0).Floor as real
  }

  // ---------------------------------------------------------------- conversions

  function Chroma(s: real, l: real): real {
    (1.0 - Abs(2.0 * l - 1.0)) * s
  }

  function Sector(k: int, cm: real, xm: real, m: real, a: real): Rgba {
    match k
    case 0 => Rgba(cm, xm, m, a)
    case 6 => Rgba(cm, xm, m, a)
    case 1 => Rgba(xm, cm, m, a)
    case 2 => Rgba(m, cm, xm, a)
    case 3 => Rgba(m, xm, cm, a)
    case 4 => Rgba(xm, m, cm, a)
    case _ => Rgba(cm, m, xm, a)
  }

  /** `From<Hsla> for Rgba` before the final clamp. */
  function Unclamped(color: Hsla): Rgba {
    var c := Chroma(color.s, color.l);
    FromChroma(color.h * 6.0, c, color.l - c / 2.0, color.a)
  }

  function FromChroma(h6: real, c: real, m: real, a: real): Rgba {
    var x := c * (1.0 - Abs(Remainder2(h6) - 1.0));
    Sector(h6.Floor, c + m, x + m, m, a)
  }

  function RgbFromHsl(color: Hsla): Rgba {
    var rgb := Unclamped(color);
    Rgba(Clamp(rgb.r), Clamp(rgb.g), Clamp(rgb.b), color.a)
  }

  function MaxOf(color: Rgba): real {
    MaxReal(color.r, MaxReal(color.g, color.b))
  }

  function MinOf(color: Rgba): real {
    MinReal(color.r, MinReal(color.g, color.b))
  }

  function Saturation(l: real, delta: real): real {
    if l == 0.0 || l == 1.0 then 0.0
    else if l < 0.5 then delta / (2.0 * l)
    else delta / (2.0 - 2.0 * l)
  }

  function Hue(color: Rgba, max: real, delta: real): real {
    if delta == 0.0 then 0.0
    else if max == color.r then RemEuclid6((color.g - color.b) / delta) / 6.0
    else if max == color.g then ((color.b - color.r) / delta + 2.0) / 6.0
    else ((color.r - color.g) / delta + 4.0) / 6.0
  }

  /** `From<Rgba> for Hsla` */
  function HslFromRgb(color: Rgba): Hsla {
    var max, min := MaxOf(color), MinOf(color);
    var delta := max - min;
    var l := (max + min) / 2.0;
    Hsla(Hue(color, max, delta), Saturation(l, delta), l, color.a)
  }

  // ---------------------------------------------------------------- the colour hexagon

  predicate RgbInRange(color: Rgba) {
    0.0 <= color.r <= 1.0 && 0.0 <= color.g <= 1.0 && 0.0 <= color.b <= 1.0
  }

  predicate HslInRange(color: Hsla) {
    0.0 <= color.h <= 1.0 && 0.0 <= color.s <= 1.0 && 0.0 <= color.l <= 1.0
  }

  /** How far the sliding channel of the sector is above the low one, as a fraction of the spread. */
  function Slide(h6: real): real {
    if h6 < 1.0 then h6
    else if h6 < 2.0 then 2.0 - h6
    else if h6 < 3.0 then h6 - 2.0
    else if h6 < 4.0 then 4.0 - h6
    else if h6 < 5.0 then h6 - 4.0
    else 6.0 - h6
  }

  /** One turn of the hexagon, `h6` in [0, 6]: in each sector one channel is high, one low, one `p` above the low. */
  function Hexagon(h6: real, c: real, p: real, m: real, a: real): Rgba {
    if h6 < 1.0 then Rgba(c + m, p + m, m, a)
    else if h6 < 2.0 then Rgba(p + m, c + m, m, a)
    else if h6 < 3.0 then Rgba(m, c + m, p + m, a)
    else if h6 < 4.0 then Rgba(m, p + m, c + m, a)
    else if h6 < 5.0 then Rgba(p + m, m, c + m, a)
    else Rgba(c + m, m, p + m, a)
  }

  lemma FloorIs(x: real, k: int)
    requires k as real <= x < k as real + 1.0
    ensures x.Floor == k
  {
  }

  /** The remainder arithmetic of the conversion is the slide of the sector. */
  lemma SlideOf(h6: real)
    requires 0.0 <= h6 <= 6.0
    ensures 1.0 - Abs(Remainder2(h6) - 1.0) == Slide(h6)
  {
    if h6 < 2.0 {
      FloorIs(h6 / 2.0, 0);
    } else if h6 < 4.0 {
      FloorIs(h6 / 2.0, 1);
    } else if h6 < 6.0 {
      FloorIs(h6 / 2.0, 2);
    } else {
      FloorIs(h6 / 2.0, 3);
    }
  }

  lemma SectorOf(h6: real, c: real, p: real, m: real, a: real)
    requires 0.0 <= h6 <= 6.0 && (h6 == 6.0 ==> p == 0.0)
    ensures Sector(h6.Floor, c + m, p + m, m, a) == Hexagon(h6, c, p, m, a)
  {
    FloorIs(h6, h6.Floor);
  }

  lemma EqualProducts(c: real, x: real, y: real)
    requires x == y
    ensures c * x == c * y
  {
  }

  lemma MulDiv(x: real, d: real)
    requires d != 0.0
    ensures d * (x / d) == x
  {
  }

  lemma MulMonotone(d: real, x: real, y: real)
    requires d > 0.0
    ensures x < y ==> d * x < d * y
    ensures x > y ==> d * x > d * y
    ensures x == y ==> d * x == d * y
  {
  }

  lemma QuotientOf(p: real, t: real, c: real)
    requires c > 0.0 && p == c * t
    ensures p / c == t
  {
    MulDiv(p, c);
    MulMonotone(c, p / c, t);
  }

  /** The slide between two channels, in units of the spread `d`. */
  lemma SpreadQuotient(x: real, d: real)
    requires d > 0.0 && -d <= x <= d
    ensures -1.0 <= x / d <= 1.0
    ensures d * (x / d) == x && d * (-(x / d)) == -x
    ensures x >= 0.0 <==> x / d >= 0.0
    ensures (x == d <==> x / d == 1.0) && (x == -d <==> x / d == -1.0)
  {
    MulDiv(x, d);
    var q := x / d;
    MulMonotone(d, q, 1.0);
    MulMonotone(d, q, -1.0);
    MulMonotone(d, q, 0.0);
  }

  /** Saturation is chosen so that the chroma of the converted colour is the spread of its channels. */
  lemma ChromaIsSpread(max: real, min: real)
    requires 0.0 <= min <= max <= 1.0
    ensures var l := (max + min) / 2.0; Chroma(Saturation(l, max - min), l) == max - min
  {
    var l, delta := (max + min) / 2.0, max - min;
    if l != 0.0 && l != 1.0 {
      if l < 0.5 {
        MulDiv(delta, 2.0 * l);
      } else {
        MulDiv(delta, 2.0 - 2.0 * l);
      }
    }
  }

  lemma RemEuclidOfUnit(x: real)
    requires -1.0 <= x <= 1.0
    ensures RemEuclid6(x) == if x < 0.0 then x + 6.0 else x
  {
    FloorIs(x / 6.0, if x < 0.0 then -1 else 0);
  }

  /** `color` is the point of its hexagon at `h6`, which is not a full turn. */
  ghost predicate OnHexagon(color: Rgba, h6: real, c: real, p: real) {
    && 0.0 <= h6 < 6.0
    && p == c * Slide(h6) && 0.0 <= p <= c
    && Hexagon(h6, c, p, MinOf(color), color.a) == color
  }

  lemma HueRedMax(color: Rgba, c: real) returns (h6: real, p: real)
    requires c == MaxOf(color) - MinOf(color) > 0.0 && MaxOf(color) == color.r
    ensures h6 == RemEuclid6((color.g - color.b) / c) && OnHexagon(color, h6, c, p)
  {
    var x := color.g - color.b;
    SpreadQuotient(x, c);
    RemEuclidOfUnit(x / c);
    h6 := RemEuclid6(x / c);
    p := if x < 0.0 then -x else x;
    EqualProducts(c, Slide(h6), if x < 0.0 then -(x / c) else x / c);
  }

  lemma HueGreenMax(color: Rgba, c: real) returns (h6: real, p: real)
    requires c == MaxOf(color) - MinOf(color) > 0.0 && MaxOf(color) == color.g != color.r
    ensures h6 == (color.b - color.r) / c + 2.0 && OnHexagon(color, h6, c, p)
  {
    var x := color.b - color.r;
    SpreadQuotient(x, c);
    h6 := x / c + 2.0;
    p := if x < 0.0 then -x else x;
    EqualProducts(c, Slide(h6), if x < 0.0 then -(x / c) else x / c);
  }

  lemma HueBlueMax(color: Rgba, c: real) returns (h6: real, p: real)
    requires c == MaxOf(color) - MinOf(color) > 0.0
    requires MaxOf(color) == color.b && color.r != color.b && color.g != color.b
    ensures h6 == (color.r - color.g) / c + 4.0 && OnHexagon(color, h6, c, p)
  {
    var x := color.r - color.g;
    SpreadQuotient(x, c);
    h6 := x / c + 4.0;
    p := if x < 0.0 then -x else x;
    EqualProducts(c, Slide(h6), if x < 0.0 then -(x / c) else x / c);
  }

  /** The hue is in [0, 1) and the hexagon takes it back to the channels it came from. */
  lemma HueInvertsHexagon(color: Rgba, c: real) returns (h6: real, p: real)
    requires c == MaxOf(color) - MinOf(color)
    ensures Hue(color, MaxOf(color), c) == h6 / 6.0 && OnHexagon(color, h6, c, p)
  {
    if c == 0.0 {
      h6, p := 0.0, 0.0;
    } else if MaxOf(color) == color.r {
      h6, p := HueRedMax(color, c);
    } else if MaxOf(color) == color.g {
      h6, p := HueGreenMax(color, c);
    } else {
      h6, p := HueBlueMax(color, c);
    }
  }

  // ---------------------------------------------------------------- round trips

  /** A conversion from HSL whose chroma, slide and low channel are known and leave the clamp idle. */
  lemma FromParts(color: Hsla, h6: real, c: real, p: real, m: real)
    requires 0.0 <= h6 <= 6.0 && h6 == color.h * 6.0
    requires c == Chroma(color.s, color.l) && p == c * Slide(h6) && m == color.l - c / 2.0
    requires 0.0 <= m && c + m <= 1.0 && 0.0 <= p <= c
    ensures RgbFromHsl(color) == Unclamped(color) == Hexagon(h6, c, p, m, color.a)
    ensures RgbInRange(Unclamped(color))
  {
    FromChromaIs(h6, c, p, m, color.a);
  }

  lemma FromChromaIs(h6: real, c: real, p: real, m: real, a: real)
    requires 0.0 <= h6 <= 6.0 && p == c * Slide(h6)
    ensures FromChroma(h6, c, m, a) == Hexagon(h6, c, p, m, a)
  {
    SlideOf(h6);
    EqualProducts(c, 1.0 - Abs(Remainder2(h6) - 1.0), Slide(h6));
    SectorOf(h6, c, p, m, a);
  }

  /** What the conversion back finds: the hue, the spread, the slide and the low channel of `color`. */
  lemma PartsOf(color: Rgba, hsl: Hsla) returns (h6: real, c: real, p: real, m: real)
    requires RgbInRange(color) && hsl == HslFromRgb(color)
    ensures 0.0 <= h6 <= 6.0 && h6 == hsl.h * 6.0
    ensures c == Chroma(hsl.s, hsl.l) && p == c * Slide(h6) && m == hsl.l - c / 2.0
    ensures 0.0 <= m && c + m <= 1.0 && 0.0 <= p <= c
    ensures Hexagon(h6, c, p, m, color.a) == color
  {
    m := MinOf(color);
    c := MaxOf(color) - m;
    h6, p := HueInvertsHexagon(color, c);
    ChromaIsSpread(MaxOf(color), m);
  }

  /** RGB to HSL and back is the identity on every in-range colour. */
  lemma RgbRoundTrip(color: Rgba)
    requires RgbInRange(color)
    ensures RgbFromHsl(HslFromRgb(color)) == color
  {
    var h6, c, p, m := PartsOf(color, HslFromRgb(color));
    FromParts(HslFromRgb(color), h6, c, p, m);
  }

  lemma Fraction(c: real, t: real)
    requires c > 0.0 && 0.0 <= t <= 1.0
    ensures 0.0 <= c * t <= c
    ensures c * t == c <==> t == 1.0
  {
    MulMonotone(c, t, 1.0);
    MulMonotone(c, 0.0, t);
    assert c * 1.0 == c;
  }

  /** The part `t` of a spread `c`. */
  lemma PartOf(t: real, c: real) returns (p: real)
    requires 0.0 <= t <= 1.0 && c >= 0.0
    ensures p == c * t && 0.0 <= p <= c
    ensures c > 0.0 ==> p / c == t && (-p) / c == -t && (p == c <==> t == 1.0)
  {
    p := c * t;
    if c > 0.0 {
      Fraction(c, t);
      QuotientOf(p, t, c);
      QuotientOf(-p, -t, c);
    }
  }

  lemma HexagonExtremes(h6: real, c: real, p: real, m: real, a: real)
    requires 0.0 <= p <= c
    ensures MaxOf(Hexagon(h6, c, p, m, a)) == c + m && MinOf(Hexagon(h6, c, p, m, a)) == m
  {
  }

  /** The hue of a point of the hexagon is where it lies; a full turn is no turn. */
  lemma HueOfHexagon(h6: real, c: real, p: real, m: real, a: real)
    requires 0.0 <= h6 <= 6.0 && c > 0.0 && 0.0 <= p <= c
    requires p / c == Slide(h6) && (-p) / c == -Slide(h6) && (p == c <==> Slide(h6) == 1.0)
    ensures Hue(Hexagon(h6, c, p, m, a), c + m, c) == if h6 < 6.0 then h6 / 6.0 else 0.0
  {
    var color := Hexagon(h6, c, p, m, a);
    if color.r == c + m {
      RemEuclidOfUnit((color.g - color.b) / c);
      assert color.g - color.b == if h6 <= 1.0 then p else -p;
    } else if color.g == c + m {
      assert color.b - color.r == if h6 < 2.0 then -p else p;
    } else {
      assert color.r - color.g == if h6 < 4.0 then -p else p;
    }
  }

  lemma ChromaWithin(s: real, l: real)
    requires 0.0 <= s <= 1.0 && 0.0 <= l <= 1.0
    ensures 0.0 <= Chroma(s, l) && 0.0 <= l - Chroma(s, l) / 2.0 && l + Chroma(s, l) / 2.0 <= 1.0
    ensures Chroma(s, l) > 0.0 <==> s > 0.0 && 0.0 < l < 1.0
  {
    var d := 1.0 - Abs(2.0 * l - 1.0);
    var c := d * s;
    assert 0.0 <= c <= d && (c > 0.0 <==> d > 0.0 && s > 0.0) by {
      if d > 0.0 {
        MulMonotone(d, s, 1.0);
        MulMonotone(d, 0.0, s);
      }
    }
  }

  lemma SaturationOfChroma(s: real, l: real)
    requires 0.0 < l < 1.0
    ensures Saturation(l, Chroma(s, l)) == s
  {
    var d := if l < 0.5 then 2.0 * l else 2.0 - 2.0 * l;
    EqualProducts(s, 1.0 - Abs(2.0 * l - 1.0), d);
    QuotientOf(Chroma(s, l), s, d);
  }

  lemma NoSpread(l: real)
    ensures Saturation(l, 0.0) == 0.0
  {
  }

  /** For an in-range HSL colour the channels are in range before the final clamp, which changes nothing. */
  lemma ClampIsIdle(color: Hsla)
    requires HslInRange(color)
    ensures RgbFromHsl(color) == Unclamped(color) && RgbInRange(Unclamped(color))
  {
    var c := Chroma(color.s, color.l);
    ChromaWithin(color.s, color.l);
    var p := PartOf(Slide(color.h * 6.0), c);
    FromParts(color, color.h * 6.0, c, p, color.l - c / 2.0);
  }

  /** Clamping gives the nearest number in [0, 1], so out-of-range channels end at the nearer end. */
  lemma ClampIsNearest(x: real, y: real)
    requires 0.0 <= y <= 1.0
    ensures 0.0 <= Clamp(x) <= 1.0 && Abs(x - Clamp(x)) <= Abs(x - y)
  {
  }

  /** The two remainders: both differ from `x` by whole turns, one has its sign, the other is never negative. */
  lemma RemaindersOf(x: real) returns (j: int, k: int)
    ensures x == Remainder2(x) + 2.0 * j as real && Abs(Remainder2(x)) < 2.0
    ensures (x >= 0.0 ==> Remainder2(x) >= 0.0) && (x <= 0.0 ==> Remainder2(x) <= 0.0)
    ensures x == RemEuclid6(x) + 6.0 * k as real && 0.0 <= RemEuclid6(x) < 6.0
  {
    j := if x >= 0.0 then (x / 2.0).Floor else -(-x / 2.0).Floor;
    k := (x / 6.0).Floor;
  }

  lemma FromChromaBeyondTurn(h6: real, c: real, m: real, a: real)
    requires 6.0 <= h6 < 7.0
    ensures FromChroma(h6, c, m, a) == FromChroma(h6 - 6.0, c, m, a)
  {
    FloorIs(h6, 6);
    FloorIs(h6 - 6.0, 0);
    FloorIs(h6 / 2.0, 3);
    FloorIs((h6 - 6.0) / 2.0, 0);
    assert Remainder2(h6) == Remainder2(h6 - 6.0);
  }

  /** Hues up to a sixth beyond a full turn are drawn as if the turn had not been made. */
  lemma HueJustBeyondTurn(color: Hsla, h6: real)
    requires h6 == color.h * 6.0 && 6.0 <= h6 < 7.0
    ensures RgbFromHsl(color) == RgbFromHsl(color.(h := color.h - 1.0))
  {
    var c := Chroma(color.s, color.l);
    assert (color.h - 1.0) * 6.0 == h6 - 6.0;
    FromChromaBeyondTurn(h6, c, color.l - c / 2.0, color.a);
  }

  /** Other hues out of range are not wrapped: they are drawn in the last sector, between red and blue, with no green. */
  lemma HueFarOutOfRange(color: Hsla)
    requires color.h * 6.0 < 0.0 || color.h * 6.0 >= 7.0
    ensures var c := Chroma(color.s, color.l); var m := color.l - c / 2.0;
      && RgbFromHsl(color).r == Clamp(c + m) && RgbFromHsl(color).g == Clamp(m)
      && RgbFromHsl(color).b == Clamp(c * (1.0 - Abs(Remainder2(color.h * 6.0) - 1.0)) + m)
  {
  }

  /** The round trip of any in-range HSL colour: greys and full turns come back at hue 0, greys unsaturated. */
  lemma HslAfterRoundTrip(color: Hsla)
    requires HslInRange(color)
    ensures HslFromRgb(RgbFromHsl(color))
            == if color.s > 0.0 && 0.0 < color.l < 1.0 then color.(h := if color.h < 1.0 then color.h else 0.0)
               else color.(h := 0.0, s := 0.0)
  {
    var h6, c := color.h * 6.0, Chroma(color.s, color.l);
    var m := color.l - c / 2.0;
    ChromaWithin(color.s, color.l);
    var p := PartOf(Slide(h6), c);
    FromParts(color, h6, c, p, m);
    HexagonExtremes(h6, c, p, m, color.a);
    if c > 0.0 {
      HueOfHexagon(h6, c, p, m, color.a);
      SaturationOfChroma(color.s, color.l);
    } else {
      NoSpread(color.l);
    }
  }

  /**
   HSL to RGB and back is the identity on an in-range colour exactly when it is a proper colour whose hue
   is not a full turn, or a grey stored with hue 0.
   */
  lemma HslRoundTrip(color: Hsla)
    requires HslInRange(color)
    ensures HslFromRgb(RgbFromHsl(color)) == color
            <==> (color.h < 1.0 && color.s > 0.0 && 0.0 < color.l < 1.0) || (color.h == 0.0 && color.s == 0.0)
  {
    HslAfterRoundTrip(color);
  }

  /** A hue of 1, which the documented range includes, is not preserved: red at hue 1 comes back at hue 0. */
  lemma FullTurnIsLost()
    ensures HslFromRgb(RgbFromHsl(Hsla(1.0, 1.0, 0.5, 1.0))) == Hsla(0.0, 1.0, 0.5, 1.0)
  {
    HslAfterRoundTrip(Hsla(1.0, 1.0, 0.5, 1.0));
  }

  /** The round trip may change an HSL colour but never how it is drawn. */
  lemma RoundTripKeepsAppearance(color: Hsla)
    requires HslInRange(color)
    ensures RgbFromHsl(HslFromRgb(RgbFromHsl(color))) == RgbFromHsl(color)
  {
    ClampIsIdle(color);
    RgbRoundTrip(RgbFromHsl(color));
  }

  /**
   At the six corners of the hexagon between `low` and `high` the hue is a whole number of sixths, with one
   saturation and lightness for all; its middle axis are the greys.
   */
  lemma HexagonCorners(high: real, low: real, a: real)
    requires 0.0 <= low < high <= 1.0
    ensures var l := (high + low) / 2.0; var s := Saturation(l, high - low);
      && Chroma(s, l) == high - low
      && HslFromRgb(Rgba(high, low, low, a)) == Hsla(0.0, s, l, a)
      && HslFromRgb(Rgba(high, high, low, a)) == Hsla(1.0 / 6.0, s, l, a)
      && HslFromRgb(Rgba(low, high, low, a)) == Hsla(2.0 / 6.0, s, l, a)
      && HslFromRgb(Rgba(low, high, high, a)) == Hsla(3.0 / 6.0, s, l, a)
      && HslFromRgb(Rgba(low, low, high, a)) == Hsla(4.0 / 6.0, s, l, a)
      && HslFromRgb(Rgba(high, low, high, a)) == Hsla(5.0 / 6.0, s, l, a)
    ensures HslFromRgb(Rgba(low, low, low, a)) == Hsla(0.0, 0.0, low, a)
  {
    var c := high - low;
    QuotientOf(c, 1.0, c);
    QuotientOf(-c, -1.0, c);
    QuotientOf(0.0, 0.0, c);
    RemEuclidOfUnit(0.0);
    RemEuclidOfUnit(1.0);
    RemEuclidOfUnit(-1.0);
    ChromaIsSpread(high, low);
    NoSpread(low);
  }

  // ---------------------------------------------------------------- blending

  lemma Scaled(t: real, d: real) returns (e: real)
    requires 0.0 < t < 1.0
    ensures e == t * d && if d >= 0.0 then 0.0 <= e <= d else d <= e <= 0.0
  {
    e := t * d;
    if d > 0.0 {
      MulMonotone(d, t, 1.0);
      MulMonotone(d, 0.0, t);
    } else if d < 0.0 {
      MulMonotone(-d, t, 1.0);
      MulMonotone(-d, 0.0, t);
    }
  }

  lemma Between(x: real, y: real, t: real) returns (z: real)
    requires 0.0 < t < 1.0
    ensures z == x * (1.0 - t) + y * t
    ensures MinReal(x, y) <= z <= MaxReal(x, y)
  {
    var e := Scaled(t, y - x);
    z := x + e;
  }

  /**
   For every alpha a blend moves each channel from the lower colour towards the upper by the upper's alpha,
   held between 0 and 1; only an opaque upper colour brings its own alpha along.
   */
  lemma BlendMovesByAlpha(base: Rgba, top: Rgba)
    ensures var blend, t := base.Blend(top), MaxReal(0.0, MinReal(1.0, top.a));
      && blend.r == base.r + t * (top.r - base.r)
      && blend.g == base.g + t * (top.g - base.g)
      && blend.b == base.b + t * (top.b - base.b)
      && blend.a == if t == 1.0 then top.a else base.a
  {
  }

  /** HSL colours under an opaque or a transparent one are not even converted; else the alpha is the lower's. */
  lemma HslBlendEnds(base: Hsla, top: Hsla)
    ensures top.a >= 1.0 ==> base.Blend(top) == top
    ensures top.a <= 0.0 ==> base.Blend(top) == base
    ensures top.a < 1.0 ==> base.Blend(top).a == base.a
  {
  }

  /** Each channel of a blend lies between the channels blended. */
  lemma BlendIsBetween(base: Rgba, top: Rgba)
    ensures var blend := base.Blend(top);
      && MinReal(base.r, top.r) <= blend.r <= MaxReal(base.r, top.r)
      && MinReal(base.g, top.g) <= blend.g <= MaxReal(base.g, top.g)
      && MinReal(base.b, top.b) <= blend.b <= MaxReal(base.b, top.b)
  {
    if 0.0 < top.a < 1.0 {
      var r := Between(base.r, top.r, top.a);
      var g := Between(base.g, top.g, top.a);
      var b := Between(base.b, top.b, top.a);
    }
  }

  /** Converted colours are in range whatever the HSL values are. */
  lemma ConvertedIsInRange(color: Hsla)
    ensures RgbInRange(RgbFromHsl(color))
  {
  }

  /** Blending in HSL and blending the converted colours give the same RGB colour, for all inputs. */
  lemma BlendsAgree(base: Hsla, top: Hsla)
    ensures RgbFromHsl(base.Blend(top)) == RgbFromHsl(base).Blend(RgbFromHsl(top))
  {
    if 0.0 < top.a < 1.0 {
      ConvertedIsInRange(base);
      ConvertedIsInRange(top);
      BlendIsInRange(RgbFromHsl(base), RgbFromHsl(top));
      RgbRoundTrip(RgbFromHsl(base).Blend(RgbFromHsl(top)));
    }
  }

  lemma BlendIsInRange(base: Rgba, top: Rgba)
    requires RgbInRange(base) && RgbInRange(top)
    ensures RgbInRange(base.Blend(top))
  {
    BlendIsBetween(base, top);
  }

  // ---------------------------------------------------------------- the documented weights

  datatype Channel = Red | Green | Blue

  function In(color: Rgba, ch: Channel): real {
    match ch
    case Red => color.r
    case Green => color.g
    case Blue => color.b
  }

  /** The weight the documentation of `Hsla::blend` gives the lower colour; the upper colour's is its alpha. */
  function LowerWeight(base: Rgba, top: Rgba): real {
    base.a * (1.0 - top.a)
  }

  function WeightedSum(x: real, y: real, lower: real, upper: real): real {
    x * lower + y * upper
  }

  predicate IsSumIn(color: Rgba, base: Rgba, top: Rgba, ch: Channel) {
    In(color, ch) == WeightedSum(In(base, ch), In(top, ch), LowerWeight(base, top), top.a)
  }

  predicate IsMeanIn(color: Rgba, base: Rgba, top: Rgba, ch: Channel) {
    var lower := LowerWeight(base, top);
    In(color, ch) * (lower + top.a) == WeightedSum(In(base, ch), In(top, ch), lower, top.a)
  }

  /** `color` has the documented contributions of `base` and `top` as they stand. */
  ghost predicate IsWeightedSum(color: Rgba, base: Rgba, top: Rgba) {
    forall ch :: IsSumIn(color, base, top, ch)
  }

  /** `color` has the documented contributions, taken relative to their sum. */
  ghost predicate IsWeightedMean(color: Rgba, base: Rgba, top: Rgba) {
    forall ch :: IsMeanIn(color, base, top, ch)
  }

  ghost predicate IsBlack(color: Rgba) {
    forall ch :: In(color, ch) == 0.0
  }

  ghost predicate SameChannels(color: Rgba, other: Rgba) {
    forall ch :: In(color, ch) == In(other, ch)
  }

  lemma ZeroProduct(x: real, y: real)
    ensures x * y == 0.0 <==> x == 0.0 || y == 0.0
  {
    if x > 0.0 {
      MulMonotone(x, y, 0.0);
    } else if x < 0.0 {
      MulMonotone(-x, y, 0.0);
    }
  }

  /** One channel blended as the code does, against the documented weights as they stand and relative to their sum. */
  lemma ChannelWeights(x: real, y: real, alpha: real, t: real, lower: real)
    requires 0.0 < t < 1.0 && lower == alpha * (1.0 - t)
    ensures var z := x * (1.0 - t) + y * t;
      && (z == WeightedSum(x, y, lower, t) <==> alpha == 1.0 || x == 0.0)
      && (z * (lower + t) == WeightedSum(x, y, lower, t) <==> alpha == 1.0 || x == y)
  {
    var z := x * (1.0 - t) + y * t;
    var rest := (1.0 - alpha) * (1.0 - t);
    assert lower + t == 1.0 - rest;
    assert z - WeightedSum(x, y, lower, t) == x * rest;
    assert z * (lower + t) - WeightedSum(x, y, lower, t) == ((x - y) * t) * rest by {
      assert z * (1.0 - rest) == z - z * rest;
      assert z == x + (y - x) * t;
      assert z * rest == x * rest + ((y - x) * t) * rest;
    }
    ZeroProduct(1.0 - alpha, 1.0 - t);
    ZeroProduct(x, rest);
    ZeroProduct(x - y, t);
    ZeroProduct((x - y) * t, rest);
  }

  lemma BlendWeightsIn(base: Rgba, top: Rgba, ch: Channel)
    requires 0.0 < top.a < 1.0
    ensures IsSumIn(base.Blend(top), base, top, ch) <==> base.a == 1.0 || In(base, ch) == 0.0
    ensures IsMeanIn(base.Blend(top), base, top, ch) <==> base.a == 1.0 || In(base, ch) == In(top, ch)
  {
    ChannelWeights(In(base, ch), In(top, ch), base.a, top.a, LowerWeight(base, top));
    BlendIn(base, top, ch);
  }

  lemma BlendIn(base: Rgba, top: Rgba, ch: Channel)
    requires 0.0 < top.a < 1.0
    ensures In(base.Blend(top), ch) == In(base, ch) * (1.0 - top.a) + In(top, ch) * top.a
  {
  }

  /**
   A translucent blend has the documented contributions exactly when the lower colour is opaque or its
   alpha cannot show: it is black, or, for contributions relative to their sum, it has the upper's channels.
   */
  lemma BlendWeights(base: Rgba, top: Rgba)
    requires 0.0 < top.a < 1.0
    ensures IsWeightedSum(base.Blend(top), base, top) <==> base.a == 1.0 || IsBlack(base)
    ensures IsWeightedMean(base.Blend(top), base, top) <==> base.a == 1.0 || SameChannels(base, top)
  {
    var blend := base.Blend(top);
    forall ch
      ensures IsSumIn(blend, base, top, ch) <==> base.a == 1.0 || In(base, ch) == 0.0
      ensures IsMeanIn(blend, base, top, ch) <==> base.a == 1.0 || In(base, ch) == In(top, ch)
    {
      BlendWeightsIn(base, top, ch);
    }
  }

  /** The same for HSL colours, whose blend the documentation describes, as they are drawn. */
  lemma DocumentedWeights(base: Hsla, top: Hsla)
    requires 0.0 < top.a < 1.0
    ensures var lower, upper, drawn := RgbFromHsl(base), RgbFromHsl(top), RgbFromHsl(base.Blend(top));
      && (IsWeightedSum(drawn, lower, upper) <==> base.a == 1.0 || IsBlack(lower))
      && (IsWeightedMean(drawn, lower, upper) <==> base.a == 1.0 || SameChannels(lower, upper))
  {
    BlendsAgree(base, top);
    BlendWeights(RgbFromHsl(base), RgbFromHsl(top));
  }

  /** Half-transparent black over half-transparent red leaves half the red; the documented weights say a quarter, or a third. */
  lemma LowerAlphaIsIgnored(base: Rgba, top: Rgba)
    requires base == Rgba(1.0, 0.0, 0.0, 0.5) && top == Rgba(0.0, 0.0, 0.0, 0.5)
    ensures base.Blend(top).r == 0.5
    ensures WeightedSum(base.r, top.r, LowerWeight(base, top), top.a) == 0.25
    ensures WeightedSum(base.r, top.r, LowerWeight(base, top), top.a) / (LowerWeight(base, top) + top.a) == 1.0 / 3.0
  {
    assert LowerWeight(base, top) == 0.25;
  }
}
