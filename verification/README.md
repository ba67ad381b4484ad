# myne: colours, signals and tables in Dafny

A model of three small pieces of the `myne` Python utility package, with
proofs of what they promise:

- **The colour engine** (`myne/color.py`). There are three value types:
  - `ColorRGB` (channels in [0, 1]);
  - `ColorRGBInt` (channels 0..255, with a byte width `n_bytes`);
  - `ColorHSV` (hue as a fraction of a turn, saturation, value).

  Every conversion goes through `ColorRGB`: the lowercase `#rrggbb` hex codec, quantisation with Python's `round` (ties to even), the branchy RGB to HSV and the six-sector HSV to RGB. Channels are exact `real`s. Each operation that raises in Python returns a `Result` here.
- **The signal** (`myne/signal.py`). This is an ordered list of callbacks with `connect` (append), `disconnect` (remove the first occurrence of each argument, silently skipping absent ones) and `emit` (call every entry in order). Callbacks are opaque values compared by equality. `emit` returns the sequence of callbacks it invokes.
- **The table printer** (`myne/table.py`). `show` computes column widths, right-aligns the cells and draws the borders in one of three styles. `print` is modelled by returning the printed lines. Cells are the strings `str` would give. The table comes back without its header, which `show` pops off the caller's list.

Modules:
- `Results` holds `Option`/`Result`.
- `Numeric` holds round-half-even, floored `%` and real-arithmetic helpers.
- `Hex` holds `int(s, 16)` and `format(n, "02x")`.
- `Color` holds the three types and all the conversions.
- `HsvConversion` holds ranges and sectors.
- `HsvRoundTrip` holds the two exact HSV round trips.
- `ColorCodec` holds the hex and integer round trips.
- `ColorHub` holds the conversion methods as the program calls them (`c.to_hsv()`, `i.to_rgb()`, `x.hex`, ...) and their round trips through `ColorRGB`.
- `ColorExamples` holds the values the colour tests check.
- `Signal`, `Table` and `TableExamples` cover the signal and the table printer.

Two details of `from_hex` and `hex` matter:
- `from_hex` does not demand exactly six digits. The body after the leading `#`s is sliced `[0:2]`, `[2:4]`, `[4:6]` with Python's clamping. So a five-character body is accepted (its last field has one digit), and characters after the sixth are ignored. `Color.WellFormedHex` states this exactly.
- Hex export rounds with Python's `round`, which rounds ties to even rather than away from zero.

## Model

| member | source | states |
|---|---|---|
| Numeric.RoundHalfEven | myne/color.py:72-74 | Python `round`: the result is within one half of the input, and on an exact tie it is the even neighbour |
| Numeric.FloorMod | myne/color.py:275 | Python's float `%` with a positive modulus always lands in [0, m) |
| Numeric.FloorModInPeriod | myne/color.py:109 | when x lies in the k-th period [k·m, k·m + m), `x % m` is x − k·m |
| Hex.ParseInt16 | myne/color.py:98-100 | on plain ASCII fields, `int(field, 16)` succeeds exactly on non-empty strings of the digits 0-9, a-f and A-F |
| Hex.ByteSpelling | myne/color.py:75 | `02x` of a byte is two lowercase digits: the high nibble, then the low nibble |
| Hex.FormatThenParse | myne/color.py:75 | parsing the `02x` spelling of any non-negative integer gives the integer back |
| Hex.ParseThenFormat | myne/color.py:98 | a two-digit hex field parses to a byte whose `02x` spelling is the field in lower case |
| ColorHub.WideRgbToIntFails | myne/color.py:139-140 | `ColorRGB.to_rgb_int(n)` raises the multi-byte error for every `n > 1`, because the integer constructor refuses the width; with one byte it succeeds |
| ColorHub.WideHsvToIntSucceeds | myne/color.py:204-207 | `ColorHSV.to_rgb_int(n)` never raises: `from_hsv` drops `n_bytes`, so every width gives the one-byte colour that `x.to_rgb().to_rgb_int()` gives |
| Color.RgbIntFromRgb | myne/color.py:190-197 | `from_rgb` succeeds exactly for one byte; each channel is within 0.5 of 255 times the float channel |
| Color.RgbIntFromHex | myne/color.py:199-202 | malformed hex gives the parse error; well-formed hex fails only for `n_bytes > 1` |
| ColorHub.IntOfHex | myne/color.py:199-202 | for six hex digits after any `#`s, `ColorRGBInt.from_hex` reads each digit pair as one byte channel |
| ColorHub.IntHexRoundTrip | myne/color.py:199-202 | `ColorRGBInt.from_hex(i.hex)` is `i` for every colour of byte channels |
| Color.RgbIntFromHsv | myne/color.py:204-207 | `from_hsv` ignores its `n_bytes` and always quantises with one byte, so a wider request does not fail |
| Color.RgbFromRgbInt | myne/color.py:87-93 | scaling each float channel back up by 255 gives the integer channel; bytes land in the unit cube |
| Color.LStrip | myne/color.py:97 | `lstrip("#")` removes exactly the leading run of `#`: the result is a suffix, everything dropped is `#`, and it does not start with `#` |
| Color.Slice | myne/color.py:98-100 | a Python slice clamps both bounds to the string's length |
| Color.RgbFromHex | myne/color.py:95-101 | `from_hex` succeeds exactly on well-formed input; otherwise it raises the parse error; its channels lie in [0, 1] |
| Color.FieldsWellFormed | myne/color.py:98-100 | all three slices parse exactly when the body has at least five characters and its first six are ASCII hex digits |
| Color.ByteField | myne/color.py:98-100 | a field of at most two hex digits holds a byte, so every parsed channel is at most 1 |
| Color.SecondComponent | myne/color.py:109 | the second-largest component `c·(1 − abs((h/60) % 2 − 1))` lies between 0 and the chroma |
| Color.HsvFromRgb | myne/color.py:264-293 | v is the largest channel; a grey gets hue 0 and saturation 0; black gets saturation 0 |
| Color.HsvFromRgbInt | myne/color.py:295-299 | the value of an integer colour's HSV is its largest channel over 255 |
| ColorHub.IntToHsvAndBack | myne/color.py:295-299 | for byte channels, `i.to_hsv()` lies in the documented ranges, its value is the largest channel over 255, its `to_rgb()` is `i.to_rgb()` and its `to_rgb_int()` is `i` |
| Color.HsvFromHex | myne/color.py:301-304 | succeeds exactly on well-formed hex, with the value in [0, 1] |
| ColorHub.HsvOfHex | myne/color.py:301-304 | `ColorHSV.from_hex` succeeds exactly on the strings `ColorRGB.from_hex` reads; h is in [0, 1), s and v in [0, 1], and converting back to RGB gives the colour the string spells |
| HsvConversion.HueInRange | myne/color.py:272-282 | the hue of any RGB colour lies in [0, 1) |
| HsvConversion.HsvInUnitRange | myne/color.py:264-293 | for channels in [0, 1], h is in [0, 1) and s and v are in [0, 1] |
| HsvConversion.HueSectorOfLargestChannel | myne/color.py:274-282 | the hue falls in the red, green or blue third according to the first of r, g, b that is the largest |
| HsvConversion.TiedMaximaHue | myne/color.py:274-279 | ties between two largest channels resolve in r, g, b order, giving 60°, 180° and 300° |
| HsvConversion.RgbFromHsvExtremes | myne/color.py:104-129 | for s, v in [0, 1], the largest channel of `from_hsv` is v, the smallest is v·(1 − s), and all lie in [0, 1] |
| HsvConversion.AssemblyInUnit | myne/color.py:110-127 | placing chroma and second component by sector and adding the offset spans exactly [v − c, v] |
| HsvConversion.FullTurnIsRed | myne/color.py:112-123 | h = 1.0 takes the last sector and gives the same colour as h = 0 |
| HsvConversion.SectorBoundaries | myne/color.py:112-123 | full saturation and value at the six sector boundaries give red, yellow, green, cyan, blue and magenta |
| HsvConversion.GreyForgetsHue | myne/color.py:104-129 | zero saturation gives a grey whatever the hue, and that grey converts back with hue 0 |
| HsvRoundTrip.RedRoundTrip | myne/color.py:274-275 | when red is largest, sector placement with the computed hue rebuilds the colour |
| HsvRoundTrip.GreenRoundTrip | myne/color.py:276-277 | when green is first largest, sector placement with the computed hue rebuilds the colour |
| HsvRoundTrip.BlueRoundTrip | myne/color.py:278-279 | when blue is first largest, sector placement with the computed hue rebuilds the colour |
| HsvRoundTrip.GreyRoundTrip | myne/color.py:272-273 | a grey survives RGB to HSV to RGB |
| HsvRoundTrip.ChromaticRoundTrip | myne/color.py:264-293 | a non-grey, non-black colour survives RGB to HSV to RGB |
| HsvRoundTrip.RgbHsvRgb | myne/color.py:264-293 | every colour in the unit cube survives RGB to HSV to RGB exactly |
| HsvRoundTrip.HueOfAssembly | myne/color.py:274-282 | the hue `from_rgb` computes for a sector-assembled colour is the angle it was assembled from |
| HsvRoundTrip.HsvFromKnownParts | myne/color.py:264-293 | given its hue, extremes and a non-zero chroma and value, `from_rgb` returns (deg/360, chroma/v, v) |
| HsvRoundTrip.HsvRgbHsv | myne/color.py:104-129 | every HSV with h in [0, 1) and positive s and v survives HSV to RGB to HSV exactly |
| ColorCodec.ChannelPair | myne/color.py:72-75 | a channel in [0, 1] is spelled as two lowercase hex digits that parse back to its rounded byte |
| ColorCodec.HexOfUnitCube | myne/color.py:70-75 | `hex` of a colour in the unit cube is `#` and six lowercase hex digits |
| ColorCodec.Quantised | myne/color.py:72-74 | a quantised channel stays in [0, 1] and moves by at most 1/510 |
| ColorCodec.ChannelByte | myne/color.py:72-75 | each channel's hex pair is the `02x` spelling of a byte, and that byte over 255 is the quantised channel |
| ColorCodec.HexThenParse | myne/color.py:95-101 | parsing `hex` back gives the colour with every channel quantised |
| ColorCodec.ParseThenHex | myne/color.py:95-101 | for six hex digits after any number of `#`, `from_hex(s).hex` is `#` and the digits in lower case |
| ColorCodec.BodyThenHex | myne/color.py:98-100 | reading six hex digits and writing them back gives the lowercased digits |
| ColorCodec.HashPrefixIgnored | myne/color.py:97 | a leading `#` changes neither the stripped body nor the parsed colour |
| ColorCodec.IntThroughRgb | myne/color.py:87-93 | for one byte, `ColorRGBInt.from_rgb(ColorRGB.from_rgb_int(i))` returns exactly `i` |
| ColorCodec.RgbThroughInt | myne/color.py:190-197 | float to int to float yields bytes and gives back each channel quantised, within 1/510 |
| ColorCodec.IntHex | myne/color.py:176-178 | the `hex` of a byte colour spells its three integer channels with `02x` |
| ColorHub.IntToRgbAndBack | myne/color.py:182-183 | `i.to_rgb().to_rgb_int()` is `i` for every one-byte integer colour |
| ColorHub.RgbToIntAndBack | myne/color.py:79-80 | `c.to_rgb_int().to_rgb()` succeeds in the unit cube and puts each channel on its nearest byte level |
| ColorHub.RgbToHsvAndBack | myne/color.py:82-83 | `c.to_hsv()` of a colour in the unit cube has h in [0, 1) and s, v in [0, 1], and its `to_rgb()` is `c` |
| ColorHub.HsvToRgbAndBack | myne/color.py:256-257 | `x.to_rgb()` with s, v in [0, 1] lies in the unit cube, and its `to_hsv()` is `x` when 0 ≤ h < 1 and s, v > 0 |
| ColorHub.HsvHexShape | myne/color.py:250-252 | `ColorHSV.hex` with s, v in [0, 1] is `#` and six lowercase hex digits |
| ColorHub.HsvHexOfRgb | myne/color.py:250-252 | for a colour in the unit cube, `c.to_hsv().hex` equals `c.hex` |
| ColorExamples.HalfLevelRoundsUp | myne/color.py:72 | 255 · 0.5 = 127.5 rounds to the even 128 |
| ColorExamples.ChannelSpellings | myne/color.py:72-75 | the channels 0.5, 1 and 0 are spelled `80`, `ff` and `00` |
| ColorExamples.RgbExample | myne/test/test_color.py:23-35 | (0.5, 1, 0) has hex `#80ff00`, integer channels (128, 255, 0) and HSV (0.25, 1, 1) |
| ColorExamples.RgbIntExample | myne/test/test_color.py:57-63 | (128, 255, 0) has hex `#80ff00` and float channels (128/255, 1, 0), with 128/255 ≈ 0.502 |
| ColorExamples.RgbIntHsvExample | myne/test/test_color.py:66-69 | (128, 255, 0) has HSV (382/1530, 1, 1), whose hue rounds to 0.250 |
| ColorExamples.HsvExample | myne/test/test_color.py:93-105 | HSV (0.25, 1, 1) has hex `#80ff00`, RGB (0.5, 1, 0) and integer channels (128, 255, 0) |
| Signal.IndexOf | myne/signal.py:13 | `list.remove` targets the first position holding the callback |
| Signal.Connect | myne/signal.py:7-8 | `connect` appends one entry at the end, keeps every earlier entry and duplicates |
| Signal.RemoveFirst | myne/signal.py:12-15 | removing an absent callback changes nothing; otherwise exactly its first occurrence is cut out |
| Signal.Emit | myne/signal.py:17-19 | `emit` calls every connected entry once per occurrence, in connection order |
| Signal.DisconnectCounts | myne/signal.py:10-15 | `disconnect(f1, …, fk)` removes one occurrence of each argument that is still present, and nothing else |
| Signal.DisconnectKeepsOrder | myne/signal.py:10-15 | the entries left after `disconnect` keep their relative order |
| Signal.DisconnectAbsent | myne/signal.py:12-15 | disconnecting only callbacks that are not connected leaves the list unchanged, without error |
| Signal.ConnectDisconnectSameCallbacks | myne/signal.py:7-13 | `connect(f)` then `disconnect(f)` always leaves the same callbacks with the same counts |
| Signal.ConnectDisconnectFresh | myne/signal.py:7-13 | `connect(f)` then `disconnect(f)` restores the list when f was not connected |
| Signal.ConnectDisconnectPresent | myne/signal.py:7-13 | when f was connected, its earlier occurrence is removed and f now sits at the end |
| Signal.ConnectDisconnectRestores | myne/signal.py:7-13 | the list is restored exactly when f was absent or every entry from its first occurrence on is f |
| Table.StyleNamed | myne/table.py:62-74 | `"simple"`, `"box"` and `"box-border"` give the simple, box and bordered-box glyph sets; any other name silently gives the simple style |
| Table.RightAlign | myne/table.py:78 | a cell is padded on the left with spaces up to the width and kept whole when longer |
| Table.Repeat | myne/table.py:83 | `f"{'':{fill}>{n}}"` is n copies of the fill character |
| Table.MaxLen | myne/table.py:86-89 | the width loop raises `IndexError` exactly on an empty table or a row longer than the header; otherwise it returns the widths |
| Table.WidthsAreWidest | myne/table.py:86-89 | each column is as wide as its widest cell: no cell is wider, and some cell reaches it |
| Table.CellsFitWidths | myne/table.py:86-89 | every cell fits the width computed for its column |
| Table.CellsRightAligned | myne/table.py:76-78 | every printed cell is exactly its column's width: spaces, then the cell |
| Table.RowLine | myne/table.py:76-79 | a row line starts and ends with the vertical border |
| Table.RuleLine | myne/table.py:81-84 | a rule line starts with its left glyph, ends with its right glyph, and every character between is the fill or the junction glyph |
| Table.RowLineLength | myne/table.py:76-79 | a row whose cells fit is four border characters, the widths and three characters per column boundary long |
| Table.RuleLineLength | myne/table.py:81-84 | a rule over all the columns has the same length as a row line |
| Table.Show | myne/table.py:69-100 | `show` raises exactly when the header is missing or a row outruns it; otherwise it prints rows + 3 lines and leaves the caller's list without its header |
| Table.ShowLayout | myne/table.py:91-100 | the output is the top border, the header row, the header rule, one row line per remaining row and the bottom border; each border is the rule drawn with the style's corner, junction and fill glyphs over as many columns as the last row has |
| Table.ShowLineLengths | myne/table.py:76-84 | for a rectangular table with a column, every printed line has length 4 + Σ widths + 3·(columns − 1) |
| TableExamples.SampleWidths | myne/table.py:103-108 | the module's sample table has column widths 4, 8 and 6 |
| TableExamples.SampleInBox | myne/table.py:103-109 | the sample in the box style prints exactly six lines: the top border, the header, the header rule, the two rows right-aligned between box bars, and the bottom border |

## Left out

- The `__str__` methods of the colour types are presentation only.
- The properties and setters of the colour types are left out. The datatypes are immutable, and a "setter" is just a new value.
- IEEE doubles are left out. Channels are exact reals, so the models of `round(255 * x)`, `x / 255` and `h * 360` have no rounding error. The tests' `round(x, 3)` checks are stated as bounds on exact values.
- `Hex.ParseInt16`: `int(s, 16)` also accepts a sign, surrounding whitespace, underscores and any Unicode decimal digit (`int("１２", 16) == 18`). The model rejects those forms as malformed, so `Color.FieldsWellFormed`, `Color.RgbFromHex`, `Color.RgbIntFromHex`, `Color.HsvFromHex` and `ColorHub.HsvOfHex` state acceptance for ASCII hex digits only.
- `Color.RgbIntFromHex`: its own contract states only when it fails; the channels of a successful read are stated by `ColorHub.IntOfHex` and `ColorHub.IntHexRoundTrip`.
- `Color.HsvFromRgbInt`: its own contract states only the value channel; the hue and saturation ranges and the round trip are stated by `ColorHub.IntToHsvAndBack`.
- `Color.HsvFromHex`: its own contract states only success and the value range; the hue and saturation ranges and the way back to RGB are stated by `ColorHub.HsvOfHex`.
- `n_bytes <= 0` is left out. Python accepts it, and `n_bytes = 0` divides by zero in `from_rgb_int`. Conversions that read an integer colour require one byte, and `from_rgb` requires a width of at least one.
- `Color.RgbIntFromRgb`: for wider widths the rounded channels are not stated, because the constructor raises before they are used.
- Colour values outside [0, 1] are accepted by every function. The round-trip and range lemmas assume the unit cube, which is the range the source documents.
- Callback side effects, re-entrant `connect`/`disconnect` during `emit`, and the bare `except` in `disconnect` swallowing errors other than "not in list" are left out. `emit` only reports which callbacks it would call.
- `str()` of arbitrary table values and the `print` calls are left out. Cells are given as strings, and the output is returned as lines.
- `Table.RowLine`: its contract names only the border glyph at each end. What lies between is covered by `Table.CellsRightAligned` (each cell padded to its width) and `Table.RowLineLength` (the separators' total length), not by one equation.
- `Table.RuleLine`: its contract names the corner glyphs and says every inner character is the fill or the junction glyph, but not where the junctions fall. Junction positions are stated only for the sample borders in `TableExamples.SampleInBox`; `Table.RuleLineLength` gives only the total length.
- `Table.ShowLineLengths` assumes a rectangular table with at least one column. For ragged tables, the borders draw as many columns as the last row has (`Table.Show` models that), so borders and rows can differ in length.
- `myne/chrono.py`, `myne/vector2.py` and `setup.py` are not part of this model.
