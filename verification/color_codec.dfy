/** The discrete side of myne/color.py: the `#rrggbb` spelling of a colour,
    the byte quantisation of `ColorRGBInt`, their round trips, and the
    `n_bytes` error cases. */
module ColorCodec {
  import opened Results
  import opened Numeric
  import opened Hex
  import opened Color

  /** Rounding a number in [0, 255] gives a byte. */
  lemma RoundedByte(x: real)
    requires 0.0 <= x <= 255.0
    ensures IsByte(RoundHalfEven(x))
  {
  }

  /** A channel in [0, 1] is written as the two-digit spelling of the byte
      it rounds to. */
  lemma ChannelPair(x: real)
    requires InUnit(x)
    ensures IsByte(RoundHalfEven(255.0 * x))
    ensures |ChannelHex(x)| == 2
    ensures IsLowerHexDigit(ChannelHex(x)[0]) && IsLowerHexDigit(ChannelHex(x)[1])
    ensures ParseInt16(ChannelHex(x)) == Some(RoundHalfEven(255.0 * x))
  {
    var n := RoundHalfEven(255.0 * x);
    RoundedByte(255.0 * x);
    ByteSpelling(n);
    DigitOfValue(n / 16);
    DigitOfValue(n % 16);
    FormatThenParse(n);
  }

  /** `#` and three two-digit spellings make seven characters, the last six
      lower-case hex digits, and each spelling sits at its own offset. */
  lemma SevenCharacters(pr: string, pg: string, pb: string)
    requires |pr| == 2 && IsLowerHexDigit(pr[0]) && IsLowerHexDigit(pr[1])
    requires |pg| == 2 && IsLowerHexDigit(pg[0]) && IsLowerHexDigit(pg[1])
    requires |pb| == 2 && IsLowerHexDigit(pb[0]) && IsLowerHexDigit(pb[1])
    ensures var h := "#" + pr + pg + pb;
      && |h| == 7 && h[0] == '#' && (forall i :: 1 <= i < 7 ==> IsLowerHexDigit(h[i]))
      && h[1..3] == pr && h[3..5] == pg && h[5..7] == pb
  {
    var h := "#" + pr + pg + pb;
    forall i | 1 <= i < 7
      ensures IsLowerHexDigit(h[i])
    {
      if i < 3 {
        assert h[i] == pr[i - 1];
      } else if i < 5 {
        assert h[i] == pg[i - 3];
      } else {
        assert h[i] == pb[i - 5];
      }
    }
  }

  /** `ColorRGB.hex` is the `#` and the three channel spellings. */
  lemma HexOfChannels(c: Rgb)
    ensures RgbHex(c) == "#" + ChannelHex(c.r) + ChannelHex(c.g) + ChannelHex(c.b)
  {
  }

  /** For channels in [0, 1], `hex` is seven characters: `#` and six
      lower-case hex digits. */
  lemma HexOfUnitCube(c: Rgb)
    requires InUnitCube(c)
    ensures |RgbHex(c)| == 7 && RgbHex(c)[0] == '#'
    ensures forall i :: 1 <= i < 7 ==> IsLowerHexDigit(RgbHex(c)[i])
  {
    HexOfChannels(c);
    ChannelPair(c.r);
    ChannelPair(c.g);
    ChannelPair(c.b);
    SevenCharacters(ChannelHex(c.r), ChannelHex(c.g), ChannelHex(c.b));
  }

  /** The value `from_hex` reads back for a channel written by `hex`: the
      byte level nearest to it, over 255. */
  function Quantised(x: real): (q: real)
    requires InUnit(x)
    ensures InUnit(q)
    ensures -0.5 / 255.0 <= q - x <= 0.5 / 255.0
  {
    RoundedByte(255.0 * x);
    RoundHalfEven(255.0 * x) as real / 255.0
  }

  /** A channel in [0, 1] is spelled as the `02x` of a byte, and that byte
      over 255 is the channel's quantised value. */
  lemma ChannelByte(x: real) returns (n: int)
    requires InUnit(x)
    ensures IsByte(n) && ChannelHex(x) == Format02x(n)
    ensures Quantised(x) == n as real / 255.0
  {
    RoundedByte(255.0 * x);
    n := RoundHalfEven(255.0 * x);
  }

  /** A body that starts with a hex digit loses exactly one leading `#`. */
  lemma StripOne(s: string)
    requires |s| >= 2 && s[0] == '#' && s[1] != '#'
    ensures LStrip(s, '#') == s[1..]
  {
    assert LStrip(s[1..], '#') == s[1..];
  }

  /** Three digit pairs are read as the colour of their values over 255. */
  lemma BodyOfPairs(pr: string, pg: string, pb: string, nr: nat, ng: nat, nb: nat)
    requires |pr| == 2 && |pg| == 2 && |pb| == 2
    requires ParseInt16(pr) == Some(nr) && ParseInt16(pg) == Some(ng) && ParseInt16(pb) == Some(nb)
    ensures RgbFromBody(pr + pg + pb) == Ok(Rgb(nr as real / 255.0, ng as real / 255.0, nb as real / 255.0))
  {
    var t := pr + pg + pb;
    assert Slice(t, 0, 2) == pr && Slice(t, 2, 4) == pg && Slice(t, 4, 6) == pb;
  }

  /** `#` and three digit pairs are read back as the colour of their values
      over 255. */
  lemma HashAndPairs(pr: string, pg: string, pb: string, nr: nat, ng: nat, nb: nat)
    requires |pr| == 2 && |pg| == 2 && |pb| == 2
    requires ParseInt16(pr) == Some(nr) && ParseInt16(pg) == Some(ng) && ParseInt16(pb) == Some(nb)
    ensures RgbFromHex("#" + pr + pg + pb) == Ok(Rgb(nr as real / 255.0, ng as real / 255.0, nb as real / 255.0))
  {
    var h := "#" + pr + pg + pb;
    assert h[1] == pr[0];
    StripOne(h);
    assert h[1..] == pr + pg + pb;
    BodyOfPairs(pr, pg, pb, nr, ng, nb);
  }

  /** The `02x` spellings of three bytes behind a `#` read back as those
      bytes over 255. */
  lemma SpelledBytes(h: string, pr: string, pg: string, pb: string, nr: int, ng: int, nb: int)
    requires IsByte(nr) && IsByte(ng) && IsByte(nb)
    requires pr == Format02x(nr) && pg == Format02x(ng) && pb == Format02x(nb)
    requires h == "#" + pr + pg + pb
    ensures RgbFromHex(h) == Ok(Rgb(nr as real / 255.0, ng as real / 255.0, nb as real / 255.0))
  {
    FormatThenParse(nr);
    FormatThenParse(ng);
    FormatThenParse(nb);
    ByteSpelling(nr);
    ByteSpelling(ng);
    ByteSpelling(nb);
    HashAndPairs(pr, pg, pb, nr, ng, nb);
  }

  /** `ColorRGB.from_hex(c.hex)` succeeds and gives back `c` with every
      channel moved to its nearest byte level, so by at most 1/510. */
  lemma HexThenParse(c: Rgb)
    requires InUnitCube(c)
    ensures RgbFromHex(RgbHex(c)).Ok?
    ensures RgbFromHex(RgbHex(c)).value.r == Quantised(c.r)
    ensures RgbFromHex(RgbHex(c)).value.g == Quantised(c.g)
    ensures RgbFromHex(RgbHex(c)).value.b == Quantised(c.b)
  {
    var nr := ChannelByte(c.r);
    var ng := ChannelByte(c.g);
    var nb := ChannelByte(c.b);
    HexOfChannels(c);
    SpelledBytes(RgbHex(c), ChannelHex(c.r), ChannelHex(c.g), ChannelHex(c.b), nr, ng, nb);
  }

  /** A byte level over 255 is spelled as the byte itself. */
  lemma LevelSpelling(x: real, n: int)
    requires IsByte(n) && x == n as real / 255.0
    ensures RoundHalfEven(255.0 * x) == n
    ensures ChannelHex(x) == Format02x(n)
  {
    RoundOfInteger(n);
  }

  /** `hex` of a colour whose channels are spelled `pr`, `pg` and `pb`. */
  lemma HexFromSpellings(v: Rgb, pr: string, pg: string, pb: string)
    requires ChannelHex(v.r) == pr && ChannelHex(v.g) == pg && ChannelHex(v.b) == pb
    ensures RgbHex(v) == "#" + pr + pg + pb
  {
  }

  /** A body whose first six characters are hex digits is read field by
      field from its three digit pairs. */
  lemma BodyFields(t: string)
    requires |t| >= 6 && forall i :: 0 <= i < 6 ==> IsHexDigit(t[i])
    ensures AllHexDigits(t[0..2]) && AllHexDigits(t[2..4]) && AllHexDigits(t[4..6])
    ensures RgbFromBody(t).Ok?
    ensures RgbFromBody(t).value.r == ValueOf(t[0..2]) as real / 255.0
    ensures RgbFromBody(t).value.g == ValueOf(t[2..4]) as real / 255.0
    ensures RgbFromBody(t).value.b == ValueOf(t[4..6]) as real / 255.0
  {
    assert Slice(t, 0, 2) == t[0..2] && Slice(t, 2, 4) == t[2..4] && Slice(t, 4, 6) == t[4..6];
    assert AllHexDigits(t[0..2]) && AllHexDigits(t[2..4]) && AllHexDigits(t[4..6]);
  }

  /** A digit pair read and written again is the pair in lower case. */
  lemma PairSpelling(p: string, x: real)
    requires |p| == 2 && AllHexDigits(p) && x == ValueOf(p) as real / 255.0
    ensures ChannelHex(x) == LowerString(p)
  {
    ParseThenFormat(p);
    var n := ValueOf(p);
    assert Format02x(n) == LowerString(p);
    LevelSpelling(x, n);
  }

  /** Lower-casing commutes with concatenation. */
  lemma LowerConcat(a: string, b: string)
    ensures LowerString(a + b) == LowerString(a) + LowerString(b)
  {
  }

  /** The first six characters are the three digit pairs. */
  lemma SixLowered(t: string)
    requires |t| >= 6
    ensures LowerString(t[..6]) == LowerString(t[0..2]) + LowerString(t[2..4]) + LowerString(t[4..6])
  {
    assert t[..6] == t[0..2] + t[2..4] + t[4..6];
    LowerConcat(t[0..2], t[2..4]);
    LowerConcat(t[0..2] + t[2..4], t[4..6]);
  }

  /** Each channel read from a body of six hex digits is written again as
      its digit pair in lower case. */
  lemma BodyChannelsSpelled(t: string)
    requires |t| >= 6 && forall i :: 0 <= i < 6 ==> IsHexDigit(t[i])
    ensures RgbFromBody(t).Ok?
    ensures ChannelHex(RgbFromBody(t).value.r) == LowerString(t[0..2])
    ensures ChannelHex(RgbFromBody(t).value.g) == LowerString(t[2..4])
    ensures ChannelHex(RgbFromBody(t).value.b) == LowerString(t[4..6])
  {
    BodyFields(t);
    var v := RgbFromBody(t).value;
    PairSpelling(t[0..2], v.r);
    PairSpelling(t[2..4], v.g);
    PairSpelling(t[4..6], v.b);
  }

  /** Reading a body of six hex digits (or more) and writing it again gives
      `#` and its first six characters in lower case. */
  lemma BodyThenHex(t: string)
    requires |t| >= 6 && forall i :: 0 <= i < 6 ==> IsHexDigit(t[i])
    ensures RgbFromBody(t).Ok?
    ensures RgbHex(RgbFromBody(t).value) == "#" + LowerString(t[..6])
  {
    BodyChannelsSpelled(t);
    HexFromSpellings(RgbFromBody(t).value, LowerString(t[0..2]), LowerString(t[2..4]), LowerString(t[4..6]));
    SixLowered(t);
  }

  /** `ColorRGB.from_hex(s).hex` for a code whose body (after the leading
      `#`s) starts with six hex digits is `#` and those six digits in lower
      case: the canonical spelling of the code. */
  lemma ParseThenHex(s: string)
    requires |LStrip(s, '#')| >= 6
    requires forall i :: 0 <= i < 6 ==> IsHexDigit(LStrip(s, '#')[i])
    ensures RgbFromHex(s).Ok?
    ensures RgbHex(RgbFromHex(s).value) == "#" + LowerString(LStrip(s, '#')[..6])
  {
    BodyThenHex(LStrip(s, '#'));
  }

  /** Leading `#`s are stripped before anything is read, so one more changes
      nothing. */
  lemma HashPrefixIgnored(s: string)
    ensures LStrip("#" + s, '#') == LStrip(s, '#')
    ensures RgbFromHex("#" + s) == RgbFromHex(s)
  {
    assert ("#" + s)[1..] == s;
  }

  /** A channel scaled back up to an integer rounds to that integer. */
  lemma ScaledBack(x: real, n: int)
    requires 255.0 * x == n as real
    ensures RoundHalfEven(x * 255.0) == n
  {
    RoundOfInteger(n);
  }

  /** `ColorRGBInt.from_rgb(i.to_rgb())` is `i` again, for any integer
      channels of the one-byte width. */
  lemma IntThroughRgb(i: RgbInt)
    requires i.nBytes == 1
    ensures RgbIntFromRgb(RgbFromRgbInt(i), 1) == Ok(i)
  {
    var c := RgbFromRgbInt(i);
    MaxValueOneByte();
    ScaledBack(c.r, i.r);
    ScaledBack(c.g, i.g);
    ScaledBack(c.b, i.b);
  }

  /** One channel of `to_rgb_int` followed by `from_rgb_int` is the channel's
      quantised value. */
  lemma LevelThroughInt(x: real, n: int)
    requires InUnit(x) && n == RoundHalfEven(x * 255.0)
    ensures IsByte(n) && n as real / 255.0 == Quantised(x)
  {
    assert x * 255.0 == 255.0 * x;
    RoundedByte(255.0 * x);
  }

  /** `ColorRGB.from_rgb_int(c.to_rgb_int())` for channels in [0, 1] moves
      each channel to its nearest byte level, exactly as `from_hex(c.hex)`
      does. */
  lemma RgbThroughInt(c: Rgb)
    requires InUnitCube(c)
    ensures RgbIntFromRgb(c, 1).Ok?
    ensures IsByte(RgbIntFromRgb(c, 1).value.r) && IsByte(RgbIntFromRgb(c, 1).value.g) && IsByte(RgbIntFromRgb(c, 1).value.b)
    ensures RgbFromRgbInt(RgbIntFromRgb(c, 1).value).r == Quantised(c.r)
    ensures RgbFromRgbInt(RgbIntFromRgb(c, 1).value).g == Quantised(c.g)
    ensures RgbFromRgbInt(RgbIntFromRgb(c, 1).value).b == Quantised(c.b)
  {
    MaxValueOneByte();
    var i := RgbIntFromRgb(c, 1).value;
    LevelThroughInt(c.r, i.r);
    LevelThroughInt(c.g, i.g);
    LevelThroughInt(c.b, i.b);
  }

  /** `ColorRGBInt.hex` of byte channels is the `02x` spelling of each. */
  lemma IntHex(i: RgbInt)
    requires i.nBytes == 1 && IsByte(i.r) && IsByte(i.g) && IsByte(i.b)
    ensures i.Hex() == "#" + Format02x(i.r) + Format02x(i.g) + Format02x(i.b)
  {
    var c := RgbFromRgbInt(i);
    LevelSpelling(c.r, i.r);
    LevelSpelling(c.g, i.g);
    LevelSpelling(c.b, i.b);
    HexFromSpellings(c, Format02x(i.r), Format02x(i.g), Format02x(i.b));
  }
}
