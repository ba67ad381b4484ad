/** The conversion methods of the three colour types of myne/color.py, taken
    as the program calls them (`c.to_hsv()`, `i.to_rgb()`, `x.hex`, ...),
    and what each promises once the hub `ColorRGB` sits between them: the
    `n_bytes` behaviour of `to_rgb_int`, the ranges and round trips of the
    HSV conversions, and the integer reading of a hex string. */
module ColorHub {
  import opened Results
  import opened Numeric
  import opened Hex
  import opened Color
  import opened HsvConversion
  import opened HsvRoundTrip
  import opened ColorCodec

  // ---------------------------------------------------------------------
  // n_bytes
  // ---------------------------------------------------------------------

  /** `ColorRGB.to_rgb_int(n)` raises for every width above one byte: the
      integer constructor refuses it. */
  lemma WideRgbToIntFails(c: Rgb, n: int)
    requires n > 1
    ensures c.ToRgbInt(n) == Err(MultiByteNotImplemented)
    ensures c.ToRgbInt(1).Ok?
  {
  }

  /** `ColorHSV.to_rgb_int(n)` never raises: `from_hsv` drops the width, so
      any request gives the one-byte colour of the RGB conversion. */
  lemma WideHsvToIntSucceeds(x: Hsv, n: int)
    ensures x.ToRgbInt(n).nBytes == 1
    ensures x.ToRgbInt(n) == x.ToRgbInt(1)
    ensures x.ToRgb().ToRgbInt(1) == Ok(x.ToRgbInt(n))
  {
  }

  // ---------------------------------------------------------------------
  // ColorRGB <-> ColorRGBInt
  // ---------------------------------------------------------------------

  /** `i.to_rgb().to_rgb_int()` is `i` for any one-byte integer colour. */
  lemma IntToRgbAndBack(i: RgbInt)
    requires i.nBytes == 1
    ensures i.ToRgb().ToRgbInt(1) == Ok(i)
  {
    IntThroughRgb(i);
  }

  /** `c.to_rgb_int().to_rgb()` moves every channel of a colour in the unit
      cube by at most 1/510, onto its nearest byte level. */
  lemma RgbToIntAndBack(c: Rgb)
    requires InUnitCube(c)
    ensures c.ToRgbInt(1).Ok?
    ensures c.ToRgbInt(1).value.ToRgb().r == Quantised(c.r)
    ensures c.ToRgbInt(1).value.ToRgb().g == Quantised(c.g)
    ensures c.ToRgbInt(1).value.ToRgb().b == Quantised(c.b)
  {
    RgbThroughInt(c);
  }

  // ---------------------------------------------------------------------
  // ColorRGB <-> ColorHSV
  // ---------------------------------------------------------------------

  /** `c.to_hsv()` of a colour in the unit cube lies in the documented
      ranges, and `c.to_hsv().to_rgb()` is `c` again. */
  lemma RgbToHsvAndBack(c: Rgb)
    requires InUnitCube(c)
    ensures 0.0 <= c.ToHsv().h < 1.0 && InUnit(c.ToHsv().s) && InUnit(c.ToHsv().v)
    ensures c.ToHsv().ToRgb() == c
  {
    HsvInUnitRange(c);
    RgbHsvRgb(c);
  }

  /** `x.to_rgb()` of an HSV colour with saturation and value in [0, 1] is in
      the unit cube, and `x.to_rgb().to_hsv()` is `x` again when the hue is
      below a full turn and the colour is neither grey nor black. */
  lemma HsvToRgbAndBack(x: Hsv)
    requires InUnit(x.s) && InUnit(x.v)
    ensures InUnitCube(x.ToRgb())
    ensures 0.0 <= x.h < 1.0 && x.s > 0.0 && x.v > 0.0 ==> x.ToRgb().ToHsv() == x
  {
    RgbFromHsvExtremes(x);
    if 0.0 <= x.h < 1.0 && x.s > 0.0 && x.v > 0.0 {
      HsvRgbHsv(x);
    }
  }

  /** `ColorHSV.hex` with saturation and value in [0, 1] is `#` and six
      lowercase hex digits. */
  lemma HsvHexShape(x: Hsv)
    requires InUnit(x.s) && InUnit(x.v)
    ensures |x.Hex()| == 7 && x.Hex()[0] == '#'
    ensures forall i :: 1 <= i < 7 ==> IsLowerHexDigit(x.Hex()[i])
  {
    RgbFromHsvExtremes(x);
    HexOfUnitCube(RgbFromHsv(x));
  }

  /** Going through HSV does not change the hex of a colour in the unit
      cube: `c.to_hsv().hex == c.hex`. */
  lemma HsvHexOfRgb(c: Rgb)
    requires InUnitCube(c)
    ensures c.ToHsv().Hex() == c.Hex()
  {
    RgbHsvRgb(c);
  }

  // ---------------------------------------------------------------------
  // ColorRGBInt -> ColorHSV
  // ---------------------------------------------------------------------

  /** `i.to_hsv()` of byte channels lies in the documented ranges, its value
      is the largest channel over 255, converting it to RGB gives
      `i.to_rgb()`, and converting it back to integers gives `i`. */
  lemma IntToHsvAndBack(i: RgbInt)
    requires i.nBytes == 1 && IsByte(i.r) && IsByte(i.g) && IsByte(i.b)
    ensures 0.0 <= i.ToHsv().h < 1.0 && InUnit(i.ToHsv().s) && InUnit(i.ToHsv().v)
    ensures 255.0 * i.ToHsv().v == Max3(i.r as real, i.g as real, i.b as real)
    ensures i.ToHsv().ToRgb() == i.ToRgb()
    ensures i.ToHsv().ToRgbInt(1) == i
  {
    var c := RgbFromRgbInt(i);
    HsvInUnitRange(c);
    RgbHsvRgb(c);
    IntThroughRgb(i);
  }

  // ---------------------------------------------------------------------
  // Reading hex strings
  // ---------------------------------------------------------------------

  /** `ColorHSV.from_hex` succeeds exactly on the strings `ColorRGB.from_hex`
      reads; its result lies in the documented ranges and converts back to
      the colour the string spells. */
  lemma HsvOfHex(s: string)
    ensures HsvFromHex(s).Ok? <==> WellFormedHex(s)
    ensures HsvFromHex(s).Ok? ==>
      && 0.0 <= HsvFromHex(s).value.h < 1.0
      && InUnit(HsvFromHex(s).value.s) && InUnit(HsvFromHex(s).value.v)
      && RgbFromHsv(HsvFromHex(s).value) == RgbFromHex(s).value
  {
    if WellFormedHex(s) {
      var c := RgbFromHex(s).value;
      HsvInUnitRange(c);
      RgbHsvRgb(c);
    }
  }

  /** `ColorRGBInt.from_hex` is `from_rgb` of whatever `ColorRGB.from_hex`
      reads. */
  lemma IntFromReadHex(h: string, c: Rgb)
    requires RgbFromHex(h) == Ok(c)
    ensures RgbIntFromHex(h, 1) == RgbIntFromRgb(c, 1)
  {
  }

  /** Channels that are whole byte levels over 255 quantise to those
      levels. */
  lemma IntOfLevels(c: Rgb, nr: int, ng: int, nb: int)
    requires 255.0 * c.r == nr as real && 255.0 * c.g == ng as real && 255.0 * c.b == nb as real
    ensures RgbIntFromRgb(c, 1) == Ok(RgbInt(nr, ng, nb, 1))
  {
    MaxValueOneByte();
    ScaledBack(c.r, nr);
    ScaledBack(c.g, ng);
    ScaledBack(c.b, nb);
  }

  /** `ColorRGBInt.from_hex` of six hex digits, after any number of `#`,
      reads each pair as one byte channel. */
  lemma IntOfHex(s: string)
    requires |LStrip(s, '#')| >= 6
    requires forall i :: 0 <= i < 6 ==> IsHexDigit(LStrip(s, '#')[i])
    ensures AllHexDigits(LStrip(s, '#')[0..2]) && AllHexDigits(LStrip(s, '#')[2..4])
    ensures AllHexDigits(LStrip(s, '#')[4..6])
    ensures RgbIntFromHex(s, 1) == Ok(RgbInt(ValueOf(LStrip(s, '#')[0..2]),
      ValueOf(LStrip(s, '#')[2..4]), ValueOf(LStrip(s, '#')[4..6]), 1))
  {
    var t := LStrip(s, '#');
    BodyFields(t);
    var c := RgbFromBody(t).value;
    assert RgbFromHex(s) == Ok(c);
    IntFromReadHex(s, c);
    IntOfLevels(c, ValueOf(t[0..2]), ValueOf(t[2..4]), ValueOf(t[4..6]));
  }

  /** The hex a byte colour prints reads back as that colour's floats. */
  lemma HexReadsBack(h: string, i: RgbInt)
    requires i.nBytes == 1 && IsByte(i.r) && IsByte(i.g) && IsByte(i.b)
    requires h == "#" + Format02x(i.r) + Format02x(i.g) + Format02x(i.b)
    ensures RgbFromHex(h) == Ok(Rgb(i.r as real / 255.0, i.g as real / 255.0, i.b as real / 255.0))
  {
    SpelledBytes(h, Format02x(i.r), Format02x(i.g), Format02x(i.b), i.r, i.g, i.b);
  }

  /** `ColorRGB.from_rgb_int` of one byte divides each channel by 255. */
  lemma FloatsOfInt(i: RgbInt)
    requires i.nBytes == 1
    ensures RgbFromRgbInt(i) == Rgb(i.r as real / 255.0, i.g as real / 255.0, i.b as real / 255.0)
  {
    MaxValueOneByte();
  }

  /** `ColorRGBInt.from_hex(i.hex)` is `i` for every colour of byte
      channels. */
  lemma IntHexRoundTrip(i: RgbInt)
    requires i.nBytes == 1 && IsByte(i.r) && IsByte(i.g) && IsByte(i.b)
    ensures RgbIntFromHex(i.Hex(), 1) == Ok(i)
  {
    var h := i.Hex();
    IntHex(i);
    HexReadsBack(h, i);
    FloatsOfInt(i);
    IntFromReadHex(h, RgbFromRgbInt(i));
    IntThroughRgb(i);
  }
}
