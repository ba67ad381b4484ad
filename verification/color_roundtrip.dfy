/** The two HSV round trips of myne/color.py, over exact reals: an RGB colour
    in the unit cube survives RGB -> HSV -> RGB unchanged, and an HSV colour
    with hue in [0, 1) and positive saturation and value survives
    HSV -> RGB -> HSV unchanged. */
module HsvRoundTrip {
  import opened Numeric
  import opened Color
  import opened HsvConversion

  /** Dividing by a non-zero number and multiplying back is the identity. */
  lemma MulDiv(a: real, d: real)
    requires d != 0.0
    ensures d * (a / d) == a
  {
  }

  /** The rising or falling fraction of the sector the angle lies in: the
      factor `1 - abs((deg / 60) % 2 - 1)` of the second component. */
  function Slope(deg: real, i: int): real {
    if i % 2 == 0 then deg / 60.0 - i as real else i as real + 1.0 - deg / 60.0
  }

  /** Where the chroma and the second component go in sector `i`, lifted by
      the offset `m`. */
  function Place(i: int, chroma: real, second: real, m: real): Rgb {
    if i == 0 then Rgb(chroma + m, second + m, m)
    else if i == 1 then Rgb(second + m, chroma + m, m)
    else if i == 2 then Rgb(m, chroma + m, second + m)
    else if i == 3 then Rgb(m, second + m, chroma + m)
    else if i == 4 then Rgb(second + m, m, chroma + m)
    else Rgb(chroma + m, m, second + m)
  }

  /** Inside sector `i` the floored remainder of `deg / 60` by 2 is the
      fraction past the start of the sector pair. */
  lemma FactorInSector(deg: real, i: int)
    requires 0 <= i <= 5
    requires 60.0 * (i as real) <= deg < 60.0 * (i as real) + 60.0
    ensures 1.0 - Abs(FloorMod(deg / 60.0, 2.0) - 1.0) == Slope(deg, i)
  {
    var k := i / 2;
    assert (k as real) * 2.0 == (i - i % 2) as real;
    FloorModInPeriod(deg / 60.0, 2.0, k);
  }

  /** The six-sector assembly of an angle in sector `i` of the first turn. */
  lemma AssembleInSector(deg: real, chroma: real, v: real, i: int)
    requires 0 <= i <= 5
    requires 60.0 * (i as real) <= deg < 60.0 * (i as real) + 60.0
    ensures Assemble(deg, chroma, v) == Place(i, chroma, chroma * Slope(deg, i), v - chroma)
  {
    FactorInSector(deg, i);
  }

  /** `d * (-t)` is `-(d * t)`. */
  lemma MulNeg(d: real, t: real)
    ensures d * -t == -(d * t)
  {
  }

  /** The hue angle when red is the largest channel. */
  lemma RedDegrees(c: Rgb)
    requires Max3(c.r, c.g, c.b) != Min3(c.r, c.g, c.b) && c.r == Max3(c.r, c.g, c.b)
    ensures HueDegrees(c) ==
      60.0 * FloorMod((c.g - c.b) / (Max3(c.r, c.g, c.b) - Min3(c.r, c.g, c.b)), 6.0)
  {
  }

  /** The channels of a colour whose largest channel is `hi` and smallest
      is `lo`, with `hi > lo`. */
  predicate Extremes(c: Rgb, lo: real, hi: real) {
    lo < hi && hi == Max3(c.r, c.g, c.b) && lo == Min3(c.r, c.g, c.b)
  }

  /** Red largest, green at least blue, short of a tie with red: sector 0. */
  lemma RedRising(c: Rgb, lo: real, hi: real, t: real)
    requires Extremes(c, lo, hi) && c.r == hi
    requires (hi - lo) * t == c.g - c.b && 0.0 <= t < 1.0
    ensures Assemble(60.0 * t, hi - lo, hi) == c
  {
    AssembleInSector(60.0 * t, hi - lo, hi, 0);
    assert Slope(60.0 * t, 0) == t;
  }

  /** Red and green tied for largest: the boundary between sectors 0 and 1. */
  lemma RedGreenTie(c: Rgb, lo: real, hi: real)
    requires Extremes(c, lo, hi) && c.r == hi
    requires hi - lo == c.g - c.b
    ensures Assemble(60.0, hi - lo, hi) == c
  {
    AssembleInSector(60.0, hi - lo, hi, 1);
    assert Slope(60.0, 1) == 1.0;
  }

  /** Red largest, blue above green: sector 5, the last one. */
  lemma RedFalling(c: Rgb, lo: real, hi: real, t: real)
    requires Extremes(c, lo, hi) && c.r == hi
    requires (hi - lo) * t == c.g - c.b && -1.0 <= t < 0.0
    ensures Assemble(60.0 * (t + 6.0), hi - lo, hi) == c
  {
    var deg := 60.0 * (t + 6.0);
    AssembleInSector(deg, hi - lo, hi, 5);
    assert Slope(deg, 5) == -t;
    MulNeg(hi - lo, t);
  }

  /** Red largest, green at least blue: the floored remainder leaves the
      ratio alone. */
  lemma RedUpper(c: Rgb, lo: real, hi: real, t: real)
    requires Extremes(c, lo, hi) && c.r == hi
    requires (hi - lo) * t == c.g - c.b && 0.0 <= t <= 1.0
    ensures Assemble(60.0 * FloorMod(t, 6.0), hi - lo, hi) == c
  {
    FloorModInPeriod(t, 6.0, 0);
    if t < 1.0 {
      RedRising(c, lo, hi, t);
    } else {
      MulUnit(hi - lo, t);
      RedGreenTie(c, lo, hi);
    }
  }

  /** Red largest, blue above green: the floored remainder adds a full turn. */
  lemma RedLower(c: Rgb, lo: real, hi: real, t: real)
    requires Extremes(c, lo, hi) && c.r == hi
    requires (hi - lo) * t == c.g - c.b && -1.0 <= t < 0.0
    ensures Assemble(60.0 * FloorMod(t, 6.0), hi - lo, hi) == c
  {
    FloorModInPeriod(t, 6.0, -1);
    RedFalling(c, lo, hi, t);
  }

  /** `d * 1` is `d`. */
  lemma MulUnit(d: real, t: real)
    requires t == 1.0
    ensures d * t == d
  {
  }

  /** With red largest, the six-sector assembly of the hue angle, the
      chroma and the value gives the colour back. */
  lemma RedRoundTrip(c: Rgb)
    requires Max3(c.r, c.g, c.b) != Min3(c.r, c.g, c.b) && c.r == Max3(c.r, c.g, c.b)
    ensures Assemble(HueDegrees(c), Max3(c.r, c.g, c.b) - Min3(c.r, c.g, c.b), Max3(c.r, c.g, c.b)) == c
  {
    var hi, lo := Max3(c.r, c.g, c.b), Min3(c.r, c.g, c.b);
    var dc := hi - lo;
    var t := (c.g - c.b) / dc;
    UnitRatio(c.g - c.b, dc);
    MulDiv(c.g - c.b, dc);
    RedDegrees(c);
    RedByRatio(c, lo, hi, t);
  }

  lemma RedByRatio(c: Rgb, lo: real, hi: real, t: real)
    requires Extremes(c, lo, hi) && c.r == hi
    requires (hi - lo) * t == c.g - c.b && -1.0 <= t <= 1.0
    ensures Assemble(60.0 * FloorMod(t, 6.0), hi - lo, hi) == c
  {
    if t >= 0.0 {
      RedUpper(c, lo, hi, t);
    } else {
      RedLower(c, lo, hi, t);
    }
  }

  /** The hue angle when green is the largest channel and red is not. */
  lemma GreenDegrees(c: Rgb)
    requires Max3(c.r, c.g, c.b) != Min3(c.r, c.g, c.b)
    requires c.r != Max3(c.r, c.g, c.b) && c.g == Max3(c.r, c.g, c.b)
    ensures HueDegrees(c) ==
      60.0 * ((c.b - c.r) / (Max3(c.r, c.g, c.b) - Min3(c.r, c.g, c.b)) + 2.0)
  {
  }

  /** Green largest, red above blue: sector 1. */
  lemma GreenRising(c: Rgb, lo: real, hi: real, t: real)
    requires Extremes(c, lo, hi) && c.r != hi && c.g == hi
    requires (hi - lo) * t == c.b - c.r && -1.0 <= t < 0.0
    ensures Assemble(60.0 * (t + 2.0), hi - lo, hi) == c
  {
    var deg := 60.0 * (t + 2.0);
    if t == -1.0 {
      assert false;
    }
    AssembleInSector(deg, hi - lo, hi, 1);
    assert Slope(deg, 1) == -t;
    MulNeg(hi - lo, t);
  }

  /** Green largest, blue at least red, short of a tie with green: sector 2. */
  lemma GreenFalling(c: Rgb, lo: real, hi: real, t: real)
    requires Extremes(c, lo, hi) && c.r != hi && c.g == hi
    requires (hi - lo) * t == c.b - c.r && 0.0 <= t < 1.0
    ensures Assemble(60.0 * (t + 2.0), hi - lo, hi) == c
  {
    var deg := 60.0 * (t + 2.0);
    AssembleInSector(deg, hi - lo, hi, 2);
    assert Slope(deg, 2) == t;
  }

  /** Green and blue tied for largest: the boundary between sectors 2 and 3. */
  lemma GreenBlueTie(c: Rgb, lo: real, hi: real)
    requires Extremes(c, lo, hi) && c.r != hi && c.g == hi
    requires hi - lo == c.b - c.r
    ensures Assemble(180.0, hi - lo, hi) == c
  {
    AssembleInSector(180.0, hi - lo, hi, 3);
    assert Slope(180.0, 3) == 1.0;
  }

  /** With green largest (and red not), the assembly gives the colour back. */
  lemma GreenRoundTrip(c: Rgb)
    requires Max3(c.r, c.g, c.b) != Min3(c.r, c.g, c.b)
    requires c.r != Max3(c.r, c.g, c.b) && c.g == Max3(c.r, c.g, c.b)
    ensures Assemble(HueDegrees(c), Max3(c.r, c.g, c.b) - Min3(c.r, c.g, c.b), Max3(c.r, c.g, c.b)) == c
  {
    var hi, lo := Max3(c.r, c.g, c.b), Min3(c.r, c.g, c.b);
    var dc := hi - lo;
    var t := (c.b - c.r) / dc;
    UnitRatio(c.b - c.r, dc);
    MulDiv(c.b - c.r, dc);
    GreenDegrees(c);
    if t < 0.0 {
      GreenRising(c, lo, hi, t);
    } else if t < 1.0 {
      GreenFalling(c, lo, hi, t);
    } else {
      MulUnit(dc, t);
      GreenBlueTie(c, lo, hi);
    }
  }

  /** The hue angle when blue is the only largest channel. */
  lemma BlueDegrees(c: Rgb)
    requires Max3(c.r, c.g, c.b) != Min3(c.r, c.g, c.b)
    requires c.r != Max3(c.r, c.g, c.b) && c.g != Max3(c.r, c.g, c.b)
    ensures HueDegrees(c) ==
      60.0 * ((c.r - c.g) / (Max3(c.r, c.g, c.b) - Min3(c.r, c.g, c.b)) + 4.0)
  {
  }

  /** Blue largest, green above red: sector 3. */
  lemma BlueRising(c: Rgb, lo: real, hi: real, t: real)
    requires Extremes(c, lo, hi) && c.r != hi && c.g != hi
    requires (hi - lo) * t == c.r - c.g && -1.0 <= t < 0.0
    ensures Assemble(60.0 * (t + 4.0), hi - lo, hi) == c
  {
    var deg := 60.0 * (t + 4.0);
    if t == -1.0 {
      assert false;
    }
    AssembleInSector(deg, hi - lo, hi, 3);
    assert Slope(deg, 3) == -t;
    MulNeg(hi - lo, t);
  }

  /** Blue largest, red at least green: sector 4. */
  lemma BlueFalling(c: Rgb, lo: real, hi: real, t: real)
    requires Extremes(c, lo, hi) && c.r != hi && c.g != hi
    requires (hi - lo) * t == c.r - c.g && 0.0 <= t <= 1.0
    ensures Assemble(60.0 * (t + 4.0), hi - lo, hi) == c
  {
    var deg := 60.0 * (t + 4.0);
    if t == 1.0 {
      assert false;
    }
    AssembleInSector(deg, hi - lo, hi, 4);
    assert Slope(deg, 4) == t;
  }

  /** With blue the only largest channel, the assembly gives the colour back. */
  lemma BlueRoundTrip(c: Rgb)
    requires Max3(c.r, c.g, c.b) != Min3(c.r, c.g, c.b)
    requires c.r != Max3(c.r, c.g, c.b) && c.g != Max3(c.r, c.g, c.b)
    ensures Assemble(HueDegrees(c), Max3(c.r, c.g, c.b) - Min3(c.r, c.g, c.b), Max3(c.r, c.g, c.b)) == c
  {
    var hi, lo := Max3(c.r, c.g, c.b), Min3(c.r, c.g, c.b);
    var dc := hi - lo;
    var t := (c.r - c.g) / dc;
    UnitRatio(c.r - c.g, dc);
    MulDiv(c.r - c.g, dc);
    BlueDegrees(c);
    if t < 0.0 {
      BlueRising(c, lo, hi, t);
    } else {
      BlueFalling(c, lo, hi, t);
    }
  }

  /** For a colour that is not grey, the six-sector assembly of its hue
      angle, chroma and value is the colour itself. */
  lemma AssembleOfHue(c: Rgb)
    requires Max3(c.r, c.g, c.b) != Min3(c.r, c.g, c.b)
    ensures Assemble(HueDegrees(c), Max3(c.r, c.g, c.b) - Min3(c.r, c.g, c.b), Max3(c.r, c.g, c.b)) == c
  {
    var hi := Max3(c.r, c.g, c.b);
    if c.r == hi {
      RedRoundTrip(c);
    } else if c.g == hi {
      GreenRoundTrip(c);
    } else {
      BlueRoundTrip(c);
    }
  }

  /** The HSV reading of a colour that is not grey, with a positive largest
      channel: the saturation is the chroma over the value. */
  lemma ChromaticHsv(c: Rgb)
    requires Max3(c.r, c.g, c.b) != Min3(c.r, c.g, c.b) && Max3(c.r, c.g, c.b) != 0.0
    ensures HsvFromRgb(c) == Hsv(HueDegrees(c) / 360.0,
      (Max3(c.r, c.g, c.b) - Min3(c.r, c.g, c.b)) / Max3(c.r, c.g, c.b), Max3(c.r, c.g, c.b))
  {
  }

  /** An HSV colour built from an angle, a chroma and a non-zero value
      assembles back from the same three. */
  lemma HsvOfParts(x: Hsv, deg: real, chroma: real, v: real)
    requires v != 0.0 && x == Hsv(deg / 360.0, chroma / v, v)
    ensures RgbFromHsv(x) == Assemble(deg, chroma, v)
  {
    RgbFromHsvAssembles(x);
    MulDiv(chroma, v);
    SameAssembly(x.h * 360.0, x.v * x.s, x.v, deg, chroma, v);
  }

  lemma SameAssembly(d1: real, c1: real, v1: real, d2: real, c2: real, v2: real)
    requires d1 == d2 && c1 == c2 && v1 == v2
    ensures Assemble(d1, c1, v1) == Assemble(d2, c2, v2)
  {
  }

  /** A grey reads as saturation 0 and comes back as itself. */
  lemma GreyRoundTrip(c: Rgb)
    requires Max3(c.r, c.g, c.b) == Min3(c.r, c.g, c.b)
    ensures RgbFromHsv(HsvFromRgb(c)) == c
  {
    GreyForgetsHue(HsvFromRgb(c));
  }

  /** A colour that is not grey, with a positive largest channel, comes
      back as itself. */
  lemma ChromaticRoundTrip(c: Rgb)
    requires Max3(c.r, c.g, c.b) != Min3(c.r, c.g, c.b) && Max3(c.r, c.g, c.b) != 0.0
    ensures RgbFromHsv(HsvFromRgb(c)) == c
  {
    var hi, lo := Max3(c.r, c.g, c.b), Min3(c.r, c.g, c.b);
    ChromaticHsv(c);
    HsvOfParts(HsvFromRgb(c), HueDegrees(c), hi - lo, hi);
    AssembleOfHue(c);
  }

  /** RGB -> HSV -> RGB is the identity on the unit cube: what
      `ColorHSV.from_rgb` reads, `ColorRGB.from_hsv` rebuilds exactly. */
  lemma RgbHsvRgb(c: Rgb)
    requires InUnitCube(c)
    ensures RgbFromHsv(HsvFromRgb(c)) == c
  {
    if Max3(c.r, c.g, c.b) == Min3(c.r, c.g, c.b) {
      GreyRoundTrip(c);
    } else {
      ChromaticRoundTrip(c);
    }
  }

  // HSV -> RGB -> HSV

  /** A quotient known as a product: `a == d * f` gives `a / d == f`. */
  lemma RatioOf(a: real, d: real, f: real)
    requires d != 0.0 && a == d * f
    ensures a / d == f
  {
  }

  /** Sector 0 read back: red is the only largest channel and the hue angle
      is the rising fraction. */
  lemma HueOfSector0(c: Rgb, m: real, chroma: real, f: real)
    requires chroma > 0.0 && 0.0 <= f < 1.0
    requires c == Rgb(chroma + m, chroma * f + m, m)
    ensures HueDegrees(c) == 60.0 * f
  {
    ScaleBetween(chroma, f);
    var dc := Max3(c.r, c.g, c.b) - Min3(c.r, c.g, c.b);
    assert dc == chroma;
    RatioOf(c.g - c.b, dc, f);
    FloorModInPeriod(f, 6.0, 0);
  }

  /** Scaling a positive number by a factor below 1 makes it smaller. */
  lemma ScaleBelow(c: real, f: real)
    requires c > 0.0 && 0.0 <= f < 1.0
    ensures c * f < c
  {
    PositiveProduct(c, 1.0 - f);
    assert c * (1.0 - f) == c - c * f;
  }

  lemma ShiftBelow(a: real, b: real, m: real)
    requires a < b
    ensures a + m < b + m
  {
  }

  /** Sector 1 read back: green is largest, red falls from it; at the very
      start of the sector red ties with green and the red branch gives the
      same angle. */
  lemma HueOfSector1(c: Rgb, m: real, chroma: real, f: real)
    requires chroma > 0.0 && 0.0 < f <= 1.0
    requires c == Rgb(chroma * f + m, chroma + m, m)
    ensures HueDegrees(c) == 60.0 * (2.0 - f)
  {
    var dc := Max3(c.r, c.g, c.b) - Min3(c.r, c.g, c.b);
    if f == 1.0 {
      MulUnit(chroma, f);
      assert dc == chroma;
      RatioOf(c.g - c.b, dc, 1.0);
      FloorModInPeriod(1.0, 6.0, 0);
    } else {
      ScaleBelow(chroma, f);
      PositiveProduct(chroma, f);
      assert dc == chroma;
      MulNeg(dc, f);
      RatioOf(c.b - c.r, dc, -f);
    }
  }

  /** Sector 2 read back: green is largest, blue rises towards it. */
  lemma HueOfSector2(c: Rgb, m: real, chroma: real, f: real)
    requires chroma > 0.0 && 0.0 <= f < 1.0
    requires c == Rgb(m, chroma + m, chroma * f + m)
    ensures HueDegrees(c) == 60.0 * (f + 2.0)
  {
    ScaleBetween(chroma, f);
    var dc := Max3(c.r, c.g, c.b) - Min3(c.r, c.g, c.b);
    assert dc == chroma;
    RatioOf(c.b - c.r, dc, f);
  }

  /** Sector 3 read back: blue is largest, green falls from it; at the start
      of the sector green ties with blue and the green branch gives the same
      angle. */
  lemma HueOfSector3(c: Rgb, m: real, chroma: real, f: real)
    requires chroma > 0.0 && 0.0 < f <= 1.0
    requires c == Rgb(m, chroma * f + m, chroma + m)
    ensures HueDegrees(c) == 60.0 * (4.0 - f)
  {
    var dc := Max3(c.r, c.g, c.b) - Min3(c.r, c.g, c.b);
    if f == 1.0 {
      MulUnit(chroma, f);
      assert dc == chroma;
      RatioOf(c.b - c.r, dc, 1.0);
    } else {
      ScaleBelow(chroma, f);
      PositiveProduct(chroma, f);
      assert dc == chroma;
      MulNeg(dc, f);
      RatioOf(c.r - c.g, dc, -f);
    }
  }

  /** Sector 4 read back: blue is largest, red rises towards it. */
  lemma HueOfSector4(c: Rgb, m: real, chroma: real, f: real)
    requires chroma > 0.0 && 0.0 <= f < 1.0
    requires c == Rgb(chroma * f + m, m, chroma + m)
    ensures HueDegrees(c) == 60.0 * (f + 4.0)
  {
    ScaleBetween(chroma, f);
    ScaleBelow(chroma, f);
    ShiftBelow(chroma * f, chroma, m);
    var dc := Max3(c.r, c.g, c.b) - Min3(c.r, c.g, c.b);
    assert dc == chroma;
    RatioOf(c.r - c.g, dc, f);
  }

  /** Sector 5 read back: red is largest, blue falls from it, and the floored
      remainder adds the full turn back. */
  lemma HueOfSector5(c: Rgb, m: real, chroma: real, f: real)
    requires chroma > 0.0 && 0.0 < f <= 1.0
    requires c == Rgb(chroma + m, m, chroma * f + m)
    ensures HueDegrees(c) == 60.0 * (6.0 - f)
  {
    ScaleBetween(chroma, f);
    var dc := Max3(c.r, c.g, c.b) - Min3(c.r, c.g, c.b);
    assert dc == chroma;
    MulNeg(dc, f);
    RatioOf(c.g - c.b, dc, -f);
    FloorModInPeriod(-f, 6.0, -1);
  }

  /** The sector an angle of the first turn lies in. */
  lemma SectorOf(deg: real) returns (i: int)
    requires 0.0 <= deg < 360.0
    ensures 0 <= i <= 5
    ensures 60.0 * (i as real) <= deg < 60.0 * (i as real) + 60.0
  {
    i := (deg / 60.0).Floor;
  }

  /** Reading the hue angle off the six-sector assembly of a positive chroma
      gives the angle back, for every angle of the first turn. */
  lemma HueOfAssembly(deg: real, chroma: real, v: real)
    requires 0.0 <= deg < 360.0 && chroma > 0.0
    ensures HueDegrees(Assemble(deg, chroma, v)) == deg
  {
    var i := SectorOf(deg);
    var c, m, f := Assemble(deg, chroma, v), v - chroma, Slope(deg, i);
    AssembleInSector(deg, chroma, v, i);
    assert c == Place(i, chroma, chroma * f, m);
    if i == 0 {
      HueOfSector0(c, m, chroma, f);
    } else if i == 1 {
      HueOfSector1(c, m, chroma, f);
    } else if i == 2 {
      HueOfSector2(c, m, chroma, f);
    } else if i == 3 {
      HueOfSector3(c, m, chroma, f);
    } else if i == 4 {
      HueOfSector4(c, m, chroma, f);
    } else {
      HueOfSector5(c, m, chroma, f);
    }
  }

  /** The HSV reading of a colour whose hue angle, extremes and value are
      known. */
  lemma HsvFromKnownParts(c: Rgb, deg: real, chroma: real, v: real)
    requires chroma != 0.0 && v != 0.0
    requires HueDegrees(c) == deg
    requires Max3(c.r, c.g, c.b) == v && Min3(c.r, c.g, c.b) == v - chroma
    ensures HsvFromRgb(c) == Hsv(deg / 360.0, chroma / v, v)
  {
    ChromaticHsv(c);
  }

  /** What the HSV reading needs of the six-sector assembly of an angle of
      the first turn and a positive chroma: its hue angle, its largest and
      its smallest channel. */
  lemma AssemblyFacts(c: Rgb, deg: real, chroma: real, v: real)
    requires 0.0 <= deg < 360.0 && chroma > 0.0
    requires c == Assemble(deg, chroma, v)
    ensures HueDegrees(c) == deg
    ensures Max3(c.r, c.g, c.b) == v && Min3(c.r, c.g, c.b) == v - chroma
  {
    HueOfAssembly(deg, chroma, v);
    AssembleSpread(deg, chroma, v, c);
    ExtremesOfSpread(c, v - chroma, v);
  }

  /** The chroma of an HSV colour with positive saturation and value is
      positive, and dividing it by the value gives the saturation back. */
  lemma ChromaOf(v: real, s: real)
    requires 0.0 < v && 0.0 < s
    ensures v * s > 0.0 && (v * s) / v == s
  {
    PositiveProduct(v, s);
    RatioOf(v * s, v, s);
  }

  /** HSV -> RGB -> HSV is the identity for a hue in [0, 1) and a positive
      saturation and value: what `ColorRGB.from_hsv` builds,
      `ColorHSV.from_rgb` reads back exactly. */
  lemma HsvRgbHsv(x: Hsv)
    requires 0.0 <= x.h < 1.0 && 0.0 < x.s <= 1.0 && 0.0 < x.v <= 1.0
    ensures HsvFromRgb(RgbFromHsv(x)) == x
  {
    var deg, chroma := x.h * 360.0, x.v * x.s;
    ChromaOf(x.v, x.s);
    RgbFromHsvAssembles(x);
    AssemblyFacts(RgbFromHsv(x), deg, chroma, x.v);
    HsvFromKnownParts(RgbFromHsv(x), deg, chroma, x.v);
  }
}
