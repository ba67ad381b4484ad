/** The worked examples of myne/test/test_color.py, one lemma per colour
    type: the same colour, orange-green `#80ff00`, seen from each side. */
module ColorExamples {
  import opened Results
  import opened Numeric
  import opened Hex
  import opened Color
  import opened HsvConversion
  import opened ColorCodec

  /** 127.5 is a tie, and it goes to the even neighbour 128. */
  lemma HalfLevelRoundsUp()
    ensures RoundHalfEven(127.5) == 128
  {
  }

  /** The channel spellings `80`, `ff` and `00`. */
  lemma ChannelSpellings()
    ensures ChannelHex(0.5) == "80"
    ensures ChannelHex(1.0) == "ff"
    ensures ChannelHex(0.0) == "00"
  {
    HalfLevelRoundsUp();
    ByteSpelling(128);
    RoundOfInteger(255);
    ByteSpelling(255);
    RoundOfInteger(0);
    ByteSpelling(0);
  }

  /** `ColorRGB(0.5, 1.0, 0.0)`: hex `#80ff00`, integer (128, 255, 0) and
      HSV (0.25, 1, 1). */
  lemma RgbExample()
    ensures Rgb(0.5, 1.0, 0.0).Hex() == "#80ff00"
    ensures Rgb(0.5, 1.0, 0.0).ToRgbInt(1) == Ok(RgbInt(128, 255, 0, 1))
    ensures Rgb(0.5, 1.0, 0.0).ToHsv() == Hsv(0.25, 1.0, 1.0)
  {
    ChannelSpellings();
    MaxValueOneByte();
    HalfLevelRoundsUp();
    RoundOfInteger(255);
    RoundOfInteger(0);
  }

  /** `ColorRGBInt(128, 255, 0)`: hex `#80ff00`, and as floats (0.502, 1, 0)
      to three decimals. */
  lemma RgbIntExample()
    ensures RgbInt(128, 255, 0, 1).Hex() == "#80ff00"
    ensures RgbInt(128, 255, 0, 1).ToRgb() == Rgb(128.0 / 255.0, 1.0, 0.0)
    ensures 0.5015 <= 128.0 / 255.0 < 0.5025
  {
    IntHex(RgbInt(128, 255, 0, 1));
    ByteSpelling(128);
    ByteSpelling(255);
    ByteSpelling(0);
    MaxValueOneByte();
  }

  /** `ColorRGBInt(128, 255, 0).to_hsv()`: green is the largest channel, so
      the hue is (2 - 128/255) / 6, which is 0.250 to three decimals;
      saturation and value are 1. */
  lemma RgbIntHsvExample()
    ensures RgbInt(128, 255, 0, 1).ToHsv() == Hsv(382.0 / 1530.0, 1.0, 1.0)
    ensures 0.2495 <= 382.0 / 1530.0 < 0.2505
  {
    MaxValueOneByte();
    assert RgbFromRgbInt(RgbInt(128, 255, 0, 1)) == Rgb(128.0 / 255.0, 1.0, 0.0);
  }

  /** `ColorHSV(0.25, 1, 1)`: hue 90 degrees lies in the second sector, which
      gives (0.5, 1, 0), so hex `#80ff00` and integer (128, 255, 0). */
  lemma HsvExample()
    ensures Hsv(0.25, 1.0, 1.0).ToRgb() == Rgb(0.5, 1.0, 0.0)
    ensures Hsv(0.25, 1.0, 1.0).Hex() == "#80ff00"
    ensures Hsv(0.25, 1.0, 1.0).ToRgbInt(1) == RgbInt(128, 255, 0, 1)
  {
    FloorModInPeriod(1.5, 2.0, 0);
    assert RgbFromHsv(Hsv(0.25, 1.0, 1.0)) == Rgb(0.5, 1.0, 0.0);
    RgbExample();
  }
}
