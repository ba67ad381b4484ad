/** Properties of the two HSV conversions of myne/color.py: the ranges of
    `HsvFromRgb`, its grey and black conventions and its tie-break order, and
    the shape of the six-sector `RgbFromHsv`. */
module HsvConversion {
  import opened Numeric
  import opened Color

  /** `a / d` of a number no larger in size than a positive `d` lies in [-1, 1]. */
  lemma UnitRatio(a: real, d: real)
    requires d > 0.0 && -d <= a <= d
    ensures -1.0 <= a / d <= 1.0
  {
    var q := a / d;
    assert q * d == a;
    if q > 1.0 {
      PositiveProduct(q - 1.0, d);
    }
    if q < -1.0 {
      PositiveProduct(-1.0 - q, d);
    }
  }

  /** `a / d` of a number between 0 and a positive `d` lies in [0, 1]. */
  lemma UnitFraction(a: real, d: real)
    requires d > 0.0 && 0.0 <= a <= d
    ensures 0.0 <= a / d <= 1.0
  {
    UnitRatio(a, d);
    var q := a / d;
    assert q * d == a;
    if q < 0.0 {
      PositiveProduct(-q, d);
    }
  }

  /** `a / d` equals -1 or 1 only when `a` is `-d` or `d`. */
  lemma RatioAtBound(a: real, d: real)
    requires d > 0.0
    ensures a / d == 1.0 <==> a == d
    ensures a / d == -1.0 <==> a == -d
  {
    var q := a / d;
    assert q * d == a;
    if q == -1.0 {
      assert q * d == -d;
    }
  }

  /** The hue lies in [0, 1) for every input, in range or not. */
  lemma HueInRange(c: Rgb)
    ensures 0.0 <= HsvFromRgb(c).h < 1.0
  {
    var cmax := Max3(c.r, c.g, c.b);
    var cmin := Min3(c.r, c.g, c.b);
    var dc := cmax - cmin;
    if dc != 0.0 {
      if cmax == c.r {
        UnitRatio(c.g - c.b, dc);
      } else if cmax == c.g {
        UnitRatio(c.b - c.r, dc);
      } else {
        UnitRatio(c.r - c.g, dc);
      }
    }
  }

  /** For channels in [0, 1], saturation and value lie in [0, 1] too. */
  lemma HsvInUnitRange(c: Rgb)
    requires InUnitCube(c)
    ensures 0.0 <= HsvFromRgb(c).h < 1.0
    ensures InUnit(HsvFromRgb(c).s) && InUnit(HsvFromRgb(c).v)
  {
    HueInRange(c);
    var cmax := Max3(c.r, c.g, c.b);
    var cmin := Min3(c.r, c.g, c.b);
    if cmax != 0.0 {
      UnitFraction(cmax - cmin, cmax);
      assert HsvFromRgb(c).s == (cmax - cmin) / cmax;
    }
  }

  /** Which channel is largest fixes the hue's sixth of the circle, and the
      checks go r, then g, then b: a red maximum (ties included) gives a hue
      within 60 degrees of red; green only when strictly above red gives
      (60, 180] degrees; blue only when strictly above both gives (180, 300). */
  lemma HueSectorOfLargestChannel(c: Rgb)
    requires Max3(c.r, c.g, c.b) != Min3(c.r, c.g, c.b)
    ensures c.r == Max3(c.r, c.g, c.b) ==>
      HsvFromRgb(c).h <= 1.0 / 6.0 || HsvFromRgb(c).h >= 5.0 / 6.0
    ensures c.r < c.g == Max3(c.r, c.g, c.b) ==>
      1.0 / 6.0 < HsvFromRgb(c).h <= 1.0 / 2.0
    ensures c.r < c.b && c.g < c.b ==>
      1.0 / 2.0 < HsvFromRgb(c).h < 5.0 / 6.0
  {
    var cmax := Max3(c.r, c.g, c.b);
    var cmin := Min3(c.r, c.g, c.b);
    var dc := cmax - cmin;
    if cmax == c.r {
      var t := (c.g - c.b) / dc;
      UnitRatio(c.g - c.b, dc);
      if t >= 0.0 {
        FloorModInPeriod(t, 6.0, 0);
      } else {
        FloorModInPeriod(t, 6.0, -1);
      }
    } else if cmax == c.g {
      UnitRatio(c.b - c.r, dc);
      RatioAtBound(c.b - c.r, dc);
    } else {
      UnitRatio(c.r - c.g, dc);
      RatioAtBound(c.r - c.g, dc);
    }
  }

  /** Two channels tied for the maximum give the hue halfway between them,
      whichever of the two the r, g, b order picks. */
  lemma TiedMaximaHue(c: Rgb)
    requires Max3(c.r, c.g, c.b) != Min3(c.r, c.g, c.b)
    ensures c.r == c.g == Max3(c.r, c.g, c.b) ==> HsvFromRgb(c).h == 1.0 / 6.0
    ensures c.g == c.b == Max3(c.r, c.g, c.b) ==> HsvFromRgb(c).h == 1.0 / 2.0
    ensures c.r == c.b == Max3(c.r, c.g, c.b) ==> HsvFromRgb(c).h == 5.0 / 6.0
  {
    var cmax := Max3(c.r, c.g, c.b);
    var cmin := Min3(c.r, c.g, c.b);
    var dc := cmax - cmin;
    if c.r == c.g == cmax {
      RatioAtBound(c.g - c.b, dc);
      FloorModInPeriod(1.0, 6.0, 0);
    } else if c.r == c.b == cmax {
      RatioAtBound(c.g - c.b, dc);
      FloorModInPeriod(-1.0, 6.0, -1);
    } else if c.g == c.b == cmax {
      RatioAtBound(c.b - c.r, dc);
    }
  }

  /** For saturation and value in [0, 1], whatever the hue, the largest
      channel of the result is the value and the smallest is value * (1 - s),
      so every channel lies in [0, 1]. */
  lemma RgbFromHsvExtremes(x: Hsv)
    requires InUnit(x.s) && InUnit(x.v)
    ensures Max3(RgbFromHsv(x).r, RgbFromHsv(x).g, RgbFromHsv(x).b) == x.v
    ensures Min3(RgbFromHsv(x).r, RgbFromHsv(x).g, RgbFromHsv(x).b) == x.v * (1.0 - x.s)
    ensures InUnitCube(RgbFromHsv(x))
  {
    Offset(x.v, x.s);
    RgbFromHsvAssembles(x);
    AssemblyInUnit(RgbFromHsv(x), x.h * 360.0, x.v * x.s, x.v);
  }

  /** The six-sector assembly of a chroma between 0 and a value at most 1
      spans exactly [value - chroma, value], inside the unit cube. */
  lemma AssemblyInUnit(c: Rgb, deg: real, chroma: real, v: real)
    requires 0.0 <= chroma <= v <= 1.0
    requires c == Assemble(deg, chroma, v)
    ensures Max3(c.r, c.g, c.b) == v && Min3(c.r, c.g, c.b) == v - chroma
    ensures InUnitCube(c)
  {
    AssembleSpread(deg, chroma, v, c);
    ExtremesOfSpread(c, v - chroma, v);
    SpreadInUnit(c, v - chroma, v);
  }

  /** `RgbFromHsv` is the six-sector assembly of the hue in degrees, the
      chroma `v * s` and the value. */
  lemma RgbFromHsvAssembles(x: Hsv)
    ensures RgbFromHsv(x) == Assemble(x.h * 360.0, x.v * x.s, x.v)
  {
  }

  /** Every channel lies in [lo, hi] and both bounds are reached. */
  predicate Spread(c: Rgb, lo: real, hi: real) {
    && lo <= c.r <= hi && lo <= c.g <= hi && lo <= c.b <= hi
    && (c.r == hi || c.g == hi || c.b == hi)
    && (c.r == lo || c.g == lo || c.b == lo)
  }

  /** Channels spread over [lo, hi] have `lo` as their minimum and `hi` as
      their maximum. */
  lemma ExtremesOfSpread(c: Rgb, lo: real, hi: real)
    requires Spread(c, lo, hi)
    ensures Max3(c.r, c.g, c.b) == hi && Min3(c.r, c.g, c.b) == lo
  {
  }

  lemma SpreadInUnit(c: Rgb, lo: real, hi: real)
    requires Spread(c, lo, hi) && 0.0 <= lo && hi <= 1.0
    ensures InUnitCube(c)
  {
  }

  /** The offset `v - v * s` is `v * (1 - s)` and lies in [0, v], and so
      does the chroma `v * s`. */
  lemma Offset(v: real, s: real)
    requires InUnit(v) && InUnit(s)
    ensures v * (1.0 - s) == v - v * s
    ensures 0.0 <= v * s <= v
    ensures 0.0 <= v - v * s <= v
  {
    ScaleBetween(v, s);
  }

  /** Every channel of the six-sector assembly lies between the offset
      `v - chroma` and the value, and both bounds are reached. */
  lemma AssembleSpread(deg: real, chroma: real, v: real, c: Rgb)
    requires chroma >= 0.0 && c == Assemble(deg, chroma, v)
    ensures Spread(c, v - chroma, v)
  {
  }

  /** Every angle from 300 degrees up takes the last sector, so a full turn
      (h = 1) is red again, exactly like h = 0. */
  lemma FullTurnIsRed(s: real, v: real)
    ensures RgbFromHsv(Hsv(1.0, s, v)) == RgbFromHsv(Hsv(0.0, s, v))
    ensures RgbFromHsv(Hsv(1.0, s, v)) == Rgb(v, v - v * s, v - v * s)
  {
    FloorModInPeriod(6.0, 2.0, 3);
    FloorModInPeriod(0.0, 2.0, 0);
  }

  /** Pure hues at the six sector boundaries, with s = v = 1. */
  lemma SectorBoundaries()
    ensures RgbFromHsv(Hsv(0.0, 1.0, 1.0)) == Rgb(1.0, 0.0, 0.0)
    ensures RgbFromHsv(Hsv(1.0 / 6.0, 1.0, 1.0)) == Rgb(1.0, 1.0, 0.0)
    ensures RgbFromHsv(Hsv(1.0 / 3.0, 1.0, 1.0)) == Rgb(0.0, 1.0, 0.0)
    ensures RgbFromHsv(Hsv(1.0 / 2.0, 1.0, 1.0)) == Rgb(0.0, 1.0, 1.0)
    ensures RgbFromHsv(Hsv(2.0 / 3.0, 1.0, 1.0)) == Rgb(0.0, 0.0, 1.0)
    ensures RgbFromHsv(Hsv(5.0 / 6.0, 1.0, 1.0)) == Rgb(1.0, 0.0, 1.0)
  {
    FloorModInPeriod(0.0, 2.0, 0);
    FloorModInPeriod(1.0, 2.0, 0);
    FloorModInPeriod(2.0, 2.0, 1);
    FloorModInPeriod(3.0, 2.0, 1);
    FloorModInPeriod(4.0, 2.0, 2);
    FloorModInPeriod(5.0, 2.0, 2);
  }

  /** A grey (s = 0) comes back as the grey of its value, and reading it
      again gives hue 0: the hue of a grey is not recoverable. */
  lemma GreyForgetsHue(x: Hsv)
    requires x.s == 0.0
    ensures RgbFromHsv(x) == Rgb(x.v, x.v, x.v)
    ensures HsvFromRgb(RgbFromHsv(x)) == Hsv(0.0, 0.0, x.v)
  {
  }
}
