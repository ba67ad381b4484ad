/** The colour engine of myne/color.py: three value types and the
    conversions between them, all routed through `Rgb` as the hub.

    Channels are exact reals rather than IEEE doubles. `RgbInt` keeps the
    byte width `nBytes` the Python class stores; only one byte per channel is
    implemented, so the maximum channel value is 255. */
module Color {
  import opened Results
  import opened Numeric
  import opened Hex

  /** `ColorRGB`: channels meant to lie in [0, 1]. */
  datatype Rgb = Rgb(r: real, g: real, b: real) {
    function Hex(): string { RgbHex(this) }
    function ToRgbInt(nBytes: int): Result<RgbInt, ColorError>
      requires nBytes >= 1
    {
      RgbIntFromRgb(this, nBytes)
    }
    function ToHsv(): Hsv { HsvFromRgb(this) }
  }

  /** `ColorRGBInt`: channels meant to lie in 0 .. 2^(8*nBytes) - 1. */
  datatype RgbInt = RgbInt(r: int, g: int, b: int, nBytes: int) {
    function Hex(): string
      requires nBytes == 1
    {
      RgbHex(RgbFromRgbInt(this))
    }
    function ToRgb(): Rgb
      requires nBytes == 1
    {
      RgbFromRgbInt(this)
    }
    function ToHsv(): Hsv
      requires nBytes == 1
    {
      HsvFromRgbInt(this)
    }
  }

  /** `ColorHSV`: hue as a fraction of a full turn, saturation and value,
      all meant to lie in [0, 1]. */
  datatype Hsv = Hsv(h: real, s: real, v: real) {
    function Hex(): string { RgbHex(RgbFromHsv(this)) }
    function ToRgb(): Rgb { RgbFromHsv(this) }
    function ToRgbInt(nBytes: int): RgbInt { RgbIntFromHsv(this, nBytes) }
  }

  /** The exceptions the conversions can raise. */
  datatype ColorError =
    | MultiByteNotImplemented  // `ValueError` from the `RgbInt` constructor
    | MalformedHex             // `ValueError` from `int(..., 16)`

  predicate InUnit(x: real) {
    0.0 <= x <= 1.0
  }

  predicate InUnitCube(c: Rgb) {
    InUnit(c.r) && InUnit(c.g) && InUnit(c.b)
  }

  predicate IsByte(n: int) {
    0 <= n <= 255
  }

  function Max3(a: real, b: real, c: real): (m: real)
    ensures m >= a && m >= b && m >= c
    ensures m == a || m == b || m == c
  {
    if a >= b && a >= c then a else if b >= c then b else c
  }

  function Min3(a: real, b: real, c: real): (m: real)
    ensures m <= a && m <= b && m <= c
    ensures m == a || m == b || m == c
  {
    if a <= b && a <= c then a else if b <= c then b else c
  }

  function Pow2(n: nat): (p: nat)
    ensures p >= 1
  {
    if n == 0 then 1 else 2 * Pow2(n - 1)
  }

  /** `pow(2, 8 * n_bytes) - 1`, the largest channel value of a width. */
  function MaxValue(nBytes: nat): nat {
    Pow2(8 * nBytes) - 1
  }

  lemma MaxValueOneByte()
    ensures MaxValue(1) == 255
  {
  }

  // ---------------------------------------------------------------------
  // ColorRGBInt
  // ---------------------------------------------------------------------

  /** `ColorRGBInt(r, g, b, n_bytes)`: refuses any width above one byte and
      stores everything else as given. */
  function NewRgbInt(r: int, g: int, b: int, nBytes: int): Result<RgbInt, ColorError>
  {
    if nBytes > 1 then Err(MultiByteNotImplemented) else Ok(RgbInt(r, g, b, nBytes))
  }

  /** `ColorRGBInt.from_rgb`: scale each channel by the maximum of the width
      and round it, then build the integer colour, which fails for a width
      above one byte. */
  function RgbIntFromRgb(c: Rgb, nBytes: int): (res: Result<RgbInt, ColorError>)
    requires nBytes >= 1
    ensures res.Ok? <==> nBytes == 1
    ensures res.Err? ==> res.error == MultiByteNotImplemented
    ensures res.Ok? ==> res.value.nBytes == 1
    ensures res.Ok? ==> -0.5 <= res.value.r as real - 255.0 * c.r <= 0.5
    ensures res.Ok? ==> -0.5 <= res.value.g as real - 255.0 * c.g <= 0.5
    ensures res.Ok? ==> -0.5 <= res.value.b as real - 255.0 * c.b <= 0.5
  {
    var maxi := MaxValue(nBytes) as real;
    MaxValueOneByte();
    NewRgbInt(RoundHalfEven(c.r * maxi), RoundHalfEven(c.g * maxi), RoundHalfEven(c.b * maxi), nBytes)
  }

  /** `ColorRGBInt.from_hex`: parse through the hub, then quantise. */
  function RgbIntFromHex(s: string, nBytes: int): (res: Result<RgbInt, ColorError>)
    requires nBytes >= 1
    ensures !WellFormedHex(s) ==> res == Err(MalformedHex)
    ensures WellFormedHex(s) && nBytes > 1 ==> res == Err(MultiByteNotImplemented)
    ensures res.Ok? <==> WellFormedHex(s) && nBytes == 1
  {
    var rgb :- RgbFromHex(s);
    RgbIntFromRgb(rgb, nBytes)
  }

  /** `ColorRGBInt.from_hsv`: convert through the hub and quantise with the
      default width; the `n_bytes` argument is accepted and never used. */
  function RgbIntFromHsv(x: Hsv, nBytes: int): (i: RgbInt)
    ensures i.nBytes == 1
    ensures RgbIntFromRgb(RgbFromHsv(x), 1) == Ok(i)
  {
    RgbIntFromRgb(RgbFromHsv(x), 1).value
  }

  // ---------------------------------------------------------------------
  // ColorRGB
  // ---------------------------------------------------------------------

  /** `ColorRGB.hex`: each channel scaled to 255, rounded half to even and
      written with `02x`. */
  function RgbHex(c: Rgb): string {
    "#" + ChannelHex(c.r) + ChannelHex(c.g) + ChannelHex(c.b)
  }

  /** One channel of `ColorRGB.hex`: `f"{round(255 * x):02x}"`. */
  function ChannelHex(x: real): string {
    Format02x(RoundHalfEven(255.0 * x))
  }

  /** `ColorRGB.from_rgb_int`: divide each channel by the maximum of the
      width, so that scaling back up gives the integer again. */
  function RgbFromRgbInt(i: RgbInt): (c: Rgb)
    requires i.nBytes == 1
    ensures 255.0 * c.r == i.r as real
    ensures 255.0 * c.g == i.g as real
    ensures 255.0 * c.b == i.b as real
    ensures IsByte(i.r) && IsByte(i.g) && IsByte(i.b) ==> InUnitCube(c)
  {
    MaxValueOneByte();
    var maxi := MaxValue(i.nBytes) as real;
    Rgb(i.r as real / maxi, i.g as real / maxi, i.b as real / maxi)
  }

  /** `str.lstrip(ch)`: drop every leading `ch`. */
  function LStrip(s: string, ch: char): (t: string)
    ensures |t| <= |s| && t == s[|s| - |t|..]
    ensures forall i :: 0 <= i < |s| - |t| ==> s[i] == ch
    ensures |t| > 0 ==> t[0] != ch
  {
    if |s| > 0 && s[0] == ch then
      var t := LStrip(s[1..], ch);
      assert forall i :: 1 <= i < |s| - |t| ==> s[i] == s[1..][i - 1];
      t
    else
      s
  }

  /** Python's slice `t[lo:hi]` for `0 <= lo <= hi`: bounds past the end are
      clamped to the end. */
  function Slice(t: string, lo: nat, hi: nat): (u: string)
    requires lo <= hi
    ensures |u| == (if hi <= |t| then hi else |t|) - (if lo <= |t| then lo else |t|)
    ensures forall k :: 0 <= k < |u| ==> u[k] == t[lo + k]
  {
    var e := if hi <= |t| then hi else |t|;
    var b := if lo <= |t| then lo else |t|;
    t[b..e]
  }

  /** The strings `ColorRGB.from_hex` reads without raising: after the leading
      `#`s, at least five characters, and the first six (or five) of them hex
      digits. A five-character body reads its last field from one digit;
      characters after the sixth are ignored. */
  predicate WellFormedHex(s: string) {
    var t := LStrip(s, '#');
    |t| >= 5 && forall i :: 0 <= i < |t| && i < 6 ==> IsHexDigit(t[i])
  }

  /** `ColorRGB.from_hex`: strip the leading `#`s, then read the body. */
  function RgbFromHex(s: string): (res: Result<Rgb, ColorError>)
    ensures res.Ok? <==> WellFormedHex(s)
    ensures res.Err? ==> res.error == MalformedHex
    ensures res.Ok? ==> InUnitCube(res.value)
  {
    RgbFromBody(LStrip(s, '#'))
  }

  /** Read the slices [0:2], [2:4] and [4:6] of the body as hex numbers and
      divide each by 255. */
  function RgbFromBody(t: string): (res: Result<Rgb, ColorError>)
    ensures res.Ok? <==> |t| >= 5 && forall i :: 0 <= i < |t| && i < 6 ==> IsHexDigit(t[i])
    ensures res.Err? ==> res.error == MalformedHex
    ensures res.Ok? ==> InUnitCube(res.value)
  {
    var r := ParseInt16(Slice(t, 0, 2));
    var g := ParseInt16(Slice(t, 2, 4));
    var b := ParseInt16(Slice(t, 4, 6));
    FieldsWellFormed(t);
    if r.None? || g.None? || b.None? then
      Err(MalformedHex)
    else
      ByteField(Slice(t, 0, 2));
      ByteField(Slice(t, 2, 4));
      ByteField(Slice(t, 4, 6));
      Ok(Rgb(r.value as real / 255.0, g.value as real / 255.0, b.value as real / 255.0))
  }

  /** The three slices all parse exactly when the body is well formed. */
  lemma FieldsWellFormed(t: string)
    ensures (ParseInt16(Slice(t, 0, 2)).Some? && ParseInt16(Slice(t, 2, 4)).Some?
             && ParseInt16(Slice(t, 4, 6)).Some?)
        <==> (|t| >= 5 && forall i :: 0 <= i < |t| && i < 6 ==> IsHexDigit(t[i]))
  {
    if |t| >= 5 && forall i :: 0 <= i < |t| && i < 6 ==> IsHexDigit(t[i]) {
      assert AllHexDigits(Slice(t, 0, 2));
      assert AllHexDigits(Slice(t, 2, 4));
      assert AllHexDigits(Slice(t, 4, 6));
    } else if |t| >= 5 {
      var i :| 0 <= i < |t| && i < 6 && !IsHexDigit(t[i]);
      if i < 2 {
        assert Slice(t, 0, 2)[i] == t[i];
      } else if i < 4 {
        assert Slice(t, 2, 4)[i - 2] == t[i];
      } else {
        assert Slice(t, 4, 6)[i - 4] == t[i];
      }
    }
  }

  /** At most two hex digits hold a byte. */
  lemma ByteField(p: string)
    requires |p| <= 2 && AllHexDigits(p)
    ensures ValueOf(p) <= 255
  {
    if |p| == 2 {
      assert ValueOf(p[..1]) <= 15 by {
        assert p[..1][..0] == [];
      }
    } else if |p| == 1 {
      assert p[..0] == [];
    }
  }

  /** `ColorRGB.from_hsv`: the six-sector construction. The sector is the
      first of `deg < 60`, `deg < 120`, ... that holds; every angle from 300
      up, a full turn included, takes the last sector. */
  function RgbFromHsv(x: Hsv): Rgb {
    Assemble(x.h * 360.0, x.v * x.s, x.v)
  }

  /** The tail of `ColorRGB.from_hsv` once the angle in degrees and the
      chroma `v * s` are known: place the components by sector and lift all
      three by the offset `v - chroma`. */
  function Assemble(deg: real, chroma: real, v: real): Rgb {
    var (r, g, b) := Sector(deg, chroma, SecondComponent(deg, chroma));
    var m := v - chroma;
    Rgb(r + m, g + m, b + m)
  }

  /** `c * (1 - abs((h / 60) % 2 - 1))`: the second-largest component before
      the offset, somewhere between 0 and the chroma. */
  function SecondComponent(deg: real, chroma: real): (x: real)
    ensures chroma >= 0.0 ==> 0.0 <= x <= chroma
  {
    var f := 1.0 - Abs(FloorMod(deg / 60.0, 2.0) - 1.0);
    if chroma >= 0.0 then
      ScaleBetween(chroma, f);
      chroma * f
    else
      chroma * f
  }

  /** Scaling by a factor in [0, 1] keeps a non-negative number between 0
      and itself. */
  lemma ScaleBetween(c: real, f: real)
    requires c >= 0.0 && 0.0 <= f <= 1.0
    ensures 0.0 <= c * f <= c
  {
    if c > 0.0 && f > 0.0 {
      PositiveProduct(c, f);
      if f < 1.0 {
        PositiveProduct(c, 1.0 - f);
        assert c * (1.0 - f) == c - c * f;
      }
    }
  }

  /** Where the chroma and the second-largest component go, by sector. */
  function Sector(deg: real, chroma: real, second: real): (real, real, real) {
    if deg < 60.0 then (chroma, second, 0.0)
    else if deg < 120.0 then (second, chroma, 0.0)
    else if deg < 180.0 then (0.0, chroma, second)
    else if deg < 240.0 then (0.0, second, chroma)
    else if deg < 300.0 then (second, 0.0, chroma)
    else (chroma, 0.0, second)
  }

  function Abs(x: real): (a: real)
    ensures a >= 0.0 && (a == x || a == -x)
  {
    if x < 0.0 then -x else x
  }

  // ---------------------------------------------------------------------
  // ColorHSV
  // ---------------------------------------------------------------------

  /** `ColorHSV.from_rgb`. The hue comes from the first of r, g, b that equals
      the largest channel; a grey gets hue 0 and black gets saturation 0, so
      nothing divides by zero. The value is the largest channel. */
  function HsvFromRgb(c: Rgb): (x: Hsv)
    ensures x.v == Max3(c.r, c.g, c.b)
    ensures c.r == c.g == c.b ==> x.h == 0.0 && x.s == 0.0
    ensures Max3(c.r, c.g, c.b) == 0.0 ==> x.s == 0.0
  {
    var cmax := Max3(c.r, c.g, c.b);
    var dc := cmax - Min3(c.r, c.g, c.b);
    var s := if cmax == 0.0 then 0.0 else dc / cmax;
    Hsv(HueDegrees(c) / 360.0, s, cmax)
  }

  /** The hue in degrees, taken from the first of r, g, b that equals the
      largest channel; 0 for a grey. */
  function HueDegrees(c: Rgb): real {
    var cmax := Max3(c.r, c.g, c.b);
    var dc := cmax - Min3(c.r, c.g, c.b);
    if dc == 0.0 then 0.0
    else if cmax == c.r then 60.0 * FloorMod((c.g - c.b) / dc, 6.0)
    else if cmax == c.g then 60.0 * ((c.b - c.r) / dc + 2.0)
    else if cmax == c.b then 60.0 * ((c.r - c.g) / dc + 4.0)
    else 0.0
  }

  /** `ColorHSV.from_rgb_int`: through the hub. */
  function HsvFromRgbInt(i: RgbInt): (x: Hsv)
    requires i.nBytes == 1
    ensures 255.0 * x.v == Max3(i.r as real, i.g as real, i.b as real)
  {
    var c := RgbFromRgbInt(i);
    assert 255.0 * Max3(c.r, c.g, c.b) == Max3(i.r as real, i.g as real, i.b as real);
    HsvFromRgb(c)
  }

  /** `ColorHSV.from_hex`: through the hub. */
  function HsvFromHex(s: string): (res: Result<Hsv, ColorError>)
    ensures res.Ok? <==> WellFormedHex(s)
    ensures res.Ok? ==> InUnit(res.value.v)
  {
    var rgb :- RgbFromHex(s);
    Ok(HsvFromRgb(rgb))
  }
}
