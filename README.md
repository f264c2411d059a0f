# Colour palette model

A Dafny model of the colour palette code of `src/lib/color.ts`:

- the hexadecimal colour codec: `hexToRgb`, and the formatting at the end of `hslToHex`;
- the HSL conversions `rgbToHsl` and `hslToHex`, with the inner `hslToRgb`;
- relative luminance and the contrast ratio of success criterion 1.4.3 of the Web Content
  Accessibility Guidelines 2.1 (`luminance`, `contrastRatio`);
- the nearest-entry scan `findClosestIndex`;
- the calibrated eleven-step palette `generateScale`;
- the older annotated ten-step palette `__generateScale`;
- the types `HSL`, `Shade` and `ColorScale`.

Numbers are Dafny `real`s, which are exact rationals. `Math.round(x)` is `(x + 0.5).Floor`.
`parseFloat(x.toFixed(2))` is exact rounding to the nearest hundredth, with a half rounded
away from zero. The `%` of `hslToRgb` is a truncating remainder, so its sign follows the
dividend.

Modules, one per part of the file:

- `Numeric`: the JavaScript number primitives.
- `Hex`: the codec.
- `Decimal`: numbers written in decimal, for scale labels and shade names.
- `Hsl`: the conversions.
- `HslRoundTrip`: the proof that `hslToHex` gives back every colour that `rgbToHsl` converts, despite its rounding to two decimals.
- `Contrast`: luminance and the contrast ratio.
- `Closest`: `findClosestIndex`, as a method with a loop, next to a recursive reference definition.
- `CalibratedScale`: `generateScale`, as a method whose loop fills a `map` step by step.
- `AnnotatedScale`: `__generateScale`, as functions over sequences.
- `ScaleFindings`: two inputs on which `generateScale` leaves the colour space, and a corrected step.

`CalibratedScale` models the code as written: its hue is never wrapped and its lightness is
never clamped. The corrected step lives in `ScaleFindings`.

Three facts about the code that the model keeps:

- `hslToHex` never reduces the hue modulo 360 and never clamps a channel to a byte (src/lib/color.ts:53-80). A hue outside [0, 360) gives a grey, and a channel above 255 is written with more than two digits.
- A colour stored by `generateScale` can be longer than seven characters (see Findings).
- In exact arithmetic `rgbToHsl(239, 78, 116)` is (345.84, 83.42, 62.16) (`Hsl.RgbToHslExample`). Rounded to whole numbers this is the "346, 83, 62" noted in the comment at src/lib/color.ts:185.

## Model

| member | source | states |
|---|---|---|

| Numeric.Abs | src/lib/color.ts:55-56 | `Math.abs`: the result is non-negative and is `x` or `-x` |
| Numeric.Round | src/lib/color.ts:69-73 | `Math.round`: the integer within half a unit of `x`, with halves rounded up |
| Numeric.Trunc | src/lib/color.ts:56 | truncation towards zero: below `x` by less than 1 for `x ≥ 0`, above it by less than 1 for `x < 0` |
| Numeric.RemTwo | src/lib/color.ts:56 | `a % 2`: in [0, 2) for a non-negative dividend, in (-2, 0] for a negative one, and `a` less the remainder is an even integer |
| Numeric.Cents | src/lib/color.ts:47-49 | the hundredths `toFixed(2)` keeps: the integer nearest `100·x`, a half going away from zero (`n − ½ ≤ 100·x < n + ½` for `x ≥ 0`, `n − ½ < 100·x ≤ n + ½` below 0), with the sign of `x` |
| Numeric.ToFixed2 | src/lib/color.ts:47-49 | `parseFloat(x.toFixed(2))`: a whole number of hundredths, the nearest one to `x` with a half going away from zero, so within 0.005 of `x`; non-negative for non-negative `x` |
| Numeric.ToFixed2Idempotent | src/lib/color.ts:47-49 | a rounded value already has two decimals, so rounding it again changes nothing |
| Numeric.HundredthsPlusInt | src/lib/color.ts:166 | an integer plus a two-decimal value still has two decimals |
| Numeric.ToFixed2Within | src/lib/color.ts:47-49 | rounding to hundredths stays inside any interval whose ends have two decimals |
| Hex.WellFormed | src/lib/color.ts:14-15 | the input `hexToRgb` reads: seven characters whose last six are hex digits; the leading one is never inspected |
| Hex.IsCanonical | src/lib/color.ts:77-79 | the shape the template writes for byte channels: `#` and six lower-case hex digits; Hex.FormatHexRoundTrip shows every byte triple gets it |
| Hex.DigitValue | src/lib/color.ts:15 | the value of a hex digit (either case) is below 16 |
| Hex.DigitChar | src/lib/color.ts:77-79 | `toString(16)` writes a lower-case digit that reads back as its value |
| Hex.ParseDigits | src/lib/color.ts:15 | `parseInt(s, 16)` of `n` digits is below `16^n` |
| Hex.HexToRgb | src/lib/color.ts:14-17 | the three bytes recompose as `r·65536 + g·256 + b` to the parsed 24-bit value |
| Hex.HexNat | src/lib/color.ts:77-79 | `n.toString(16)`: lower-case digits, one digit exactly when `n < 16`, a leading zero only for 0 itself |
| Hex.HexNatRoundTrip | src/lib/color.ts:77-79 | the digits of `n.toString(16)` parse back to `n` |
| Hex.ToHexString | src/lib/color.ts:77-79 | `n.toString(16)` for any integer: a minus sign in front of the magnitude's digits; its contract is lemma Hex.ToHexStringDigits |
| Hex.ToHexStringDigits | src/lib/color.ts:77-79 | the text starts with a minus sign exactly for a negative `n`, and the digits after it parse back to `|n|` |
| Hex.PadStart2 | src/lib/color.ts:77-79 | `padStart(2, "0")`: at least two characters, the input at the end, zeros in front |
| Hex.FormatChannel | src/lib/color.ts:77-79 | one channel as `toString(16).padStart(2, "0")`; its contract is lemma Hex.FormatChannelDigits |
| Hex.FormatChannelDigits | src/lib/color.ts:77-79 | a channel that is not negative is written as hex digits that parse back to it, however large; a negative channel is written with a minus sign, so its text is not hex |
| Hex.FormatHex | src/lib/color.ts:77-79 | the template string starts with '#' and has at least 7 characters |
| Hex.FormatChannelByte | src/lib/color.ts:77-79 | a byte is written as two lower-case digits that parse back to it |
| Hex.ParseConcat | src/lib/color.ts:15 | parsing a concatenation shifts the first part's value by the second part's length |
| Hex.RecomposeBytes | src/lib/color.ts:16 | the three masked bytes of a 24-bit value put back together give the value |
| Hex.SplitBytes | src/lib/color.ts:16 | shift and mask of `r·65536 + g·256 + b` recover `r`, `g` and `b` |
| Hex.FormatHexDigits | src/lib/color.ts:77-79 | the six digits after '#' parse to `r·65536 + g·256 + b` |
| Hex.FormatHexRoundTrip | src/lib/color.ts:76-79 | any three bytes are written as a canonical `#rrggbb` that `hexToRgb` reads back as the same bytes |
| Hex.ParseThenFormat | src/lib/color.ts:14-17 | parsing and then formatting gives the colour in canonical lower case, with the same bytes |
| Hex.HexToRgbExample | src/lib/color.ts:14-17 | `hexToRgb("#ef4e74")` is (239, 78, 116) |
| Decimal.DecimalString | src/lib/color.ts:174 | a number used as a key is written in decimal digits with no leading zero |
| Decimal.DecimalRoundTrip | src/lib/color.ts:174 | the decimal text of `n` reads back as `n` |
| Decimal.DecimalStringInjective | src/lib/color.ts:174 | different numbers give different keys |
| Hsl.Hsl | src/lib/color.ts:1-5 | the `HSL` record of hue, saturation and lightness; Hsl.RgbToHsl gives its ranges |
| Hsl.IsAchromatic | src/lib/color.ts:29 | the `max === min` case (all three channels equal), a grey; Hsl.RgbToHsl shows it is exactly the colours given saturation 0 |
| Hsl.MidRange | src/lib/color.ts:27 | `l = (max + min) / 2`, the lightness as a fraction; Hsl.UnroundedLightness puts the lightness, 100 times it, in [0, 100] |
| Hsl.Max3 | src/lib/color.ts:23 | `Math.max` of three: one of them, and at least each |
| Hsl.Min3 | src/lib/color.ts:24 | `Math.min` of three: one of them, and at most each |
| Hsl.Unit | src/lib/color.ts:20-22 | a channel divided by 255 lies in [0, 1] |
| Hsl.UnroundedHsl | src/lib/color.ts:25-44 | a grey gets hue 0 and saturation 0; lightness is `100·(max + min)/2` |
| Hsl.SectorHue | src/lib/color.ts:32-42 | the `switch (max)`: the hue in sixths of a turn; its range is Hsl.SectorHueRange and its sectors are HslRoundTrip.SwitchCase |
| Hsl.ByteGap | src/lib/color.ts:29-30 | for a colour that is not grey, `max − min` lies in [1/255, 1] |
| Hsl.UnroundedSaturation | src/lib/color.ts:31 | for a colour that is not grey, the unrounded saturation lies in [100/510, 100] |
| Hsl.SectorHueRange | src/lib/color.ts:32-42 | the `switch` gives a hue in sixths of a turn in [0, 6 − 1/255] |
| Hsl.UnroundedHue | src/lib/color.ts:32-43 | for a colour that is not grey, the unrounded hue lies in [0, 360 − 60/255] |
| Hsl.UnroundedLightness | src/lib/color.ts:27 | the lightness lies in [0, 100] |
| Hsl.RoundedRanges | src/lib/color.ts:46-50 | after rounding, hue is in [0, 360), saturation and lightness in [0, 100]; saturation is 0 exactly for greys |
| Hsl.RgbToHsl | src/lib/color.ts:19-51 | hue in [0, 360), saturation and lightness in [0, 100]; saturation 0 exactly for greys, which get hue 0 and the rounded lightness; all three have two decimals |
| Hsl.Sector | src/lib/color.ts:62-67 | inside [0, 360) the components are `c`, `x`, 0 in some order; outside, all three stay 0 |
| Hsl.Chroma | src/lib/color.ts:55 | `c = (1 − |2l − 1|)·s`; bounds in Hsl.ChromaBounds, and `max − min` for the unrounded values of a colour (HslRoundTrip.ChromaOfExtremes) |
| Hsl.Intermediate | src/lib/color.ts:56 | `x = c·(1 − |(h/60) % 2 − 1|)`; bounds in Hsl.IntermediateBounds, and its value inside each sector in HslRoundTrip.IntermediateIn |
| Hsl.Match | src/lib/color.ts:57 | `m = l − c/2`; the minimum channel for the unrounded values of a colour (HslRoundTrip.ChromaOfExtremes) |
| Hsl.HslToRgb | src/lib/color.ts:54-74 | `hslToRgb`: each component plus `m`, times 255, through `Math.round`; its contracts are the HslToRgb lemmas below and HslRoundTrip.RoundTrip |
| Hsl.ChromaBounds | src/lib/color.ts:55 | for `s`, `l` in [0, 1] the chroma lies in [0, 1 − |2l − 1|] |
| Hsl.IntermediateBounds | src/lib/color.ts:56 | for a hue of at least 0 the intermediate value lies in [0, c] |
| Hsl.HslToRgbInRange | src/lib/color.ts:54-74 | for `s`, `l` in [0, 1] every channel is a byte, whatever the hue |
| Hsl.HslToRgbUnsaturated | src/lib/color.ts:54-74 | with saturation 0 all three channels are `round(l·255)` |
| Hsl.HslToRgbOutsideHues | src/lib/color.ts:62-73 | a hue outside [0, 360) gives the grey `round(m·255)` in all three channels |
| Hsl.HslToRgbPermutes | src/lib/color.ts:62-73 | a hue in [0, 360) gives the rounded `c + m`, `x + m`, `m` in the order of its sector |
| Hsl.SectorPermutes | src/lib/color.ts:62-73 | adding `m`, scaling and rounding keeps the sector's permutation |
| Hsl.HslToHex | src/lib/color.ts:53-80 | the result starts with '#'; for `s`, `l` in [0, 100] it is canonical `#rrggbb` and decodes to the channels of `hslToRgb` |
| Hsl.HexOfChannels | src/lib/color.ts:76-79 | the channels of `hslToRgb` are bytes and their text decodes back to them |
| Hsl.GreyFromLightness | src/lib/color.ts:53-80 | a lightness within 0.005 of a grey's, at saturation 0, gives exactly that grey |
| Hsl.GreyRoundTrip | src/lib/color.ts:53-80 | a grey goes through `rgbToHsl` and then `hslToHex` unchanged |
| Hsl.RgbToHslExample | src/lib/color.ts:19-51 | `rgbToHsl(239, 78, 116)` is (345.84, 83.42, 62.16) |
| HslRoundTrip.RoundTrip | src/lib/color.ts:19-80 | every colour goes through `rgbToHsl` and then `hslToHex` unchanged: `hslToHex(rgbToHsl(r, g, b))` is `#rrggbb` of the same bytes, despite the two-decimal rounding |
| HslRoundTrip.HexRoundTrip | src/lib/color.ts:14-80 | `hslToHex(rgbToHsl(...hexToRgb(hex)))` of any well-formed colour string is its canonical lower-case form, decoding to exactly the same bytes |
| HslRoundTrip.ChromaticRoundTrip | src/lib/color.ts:19-80 | the same for a colour that is not grey |
| HslRoundTrip.ChannelsBack | src/lib/color.ts:19-74 | `hslToRgb` of the rounded hue, saturation and lightness of a colour that is not grey gives back its channels |
| HslRoundTrip.SwitchCase | src/lib/color.ts:32-42 | each branch of the `switch (max)` puts the hue in one 60-degree sector, at least 1/255 of a sector from its end, where chroma, intermediate value and minimum arrange to the channels |
| HslRoundTrip.ChromaOfExtremes | src/lib/color.ts:27-31 | the unrounded saturation and lightness of `rgbToHsl` have chroma `max − min` and match value `min` in `hslToRgb` |
| HslRoundTrip.SectorIs | src/lib/color.ts:62-67 | a hue in sector `k` takes branch `k` of the if-chain |
| HslRoundTrip.IntermediateIn | src/lib/color.ts:56 | inside sector `k` the intermediate value is the chroma times the hue's rising or falling fraction of the sector, a value in [0, 1] |
| HslRoundTrip.HueStaysInSector | src/lib/color.ts:47 | rounding the hue to two decimals keeps it in its sector |
| HslRoundTrip.ChromaNear | src/lib/color.ts:55 | moving saturation and lightness by at most `e` moves the chroma by at most `3e` |
| HslRoundTrip.Rebuild | src/lib/color.ts:54-74 | values within the two-decimal rounding of exact ones give back the exact channels through `Math.round` |
| Contrast.Linearize | src/lib/color.ts:83-86 | the gamma-decoded channel lies in [0, 1] |
| Contrast.Luminance | src/lib/color.ts:82-88 | the relative luminance lies in [0, 1] |
| Contrast.LargerOverSmaller | src/lib/color.ts:95 | `l1 > l2 ? l1 / l2 : l2 / l1`; its contracts are Contrast.LargerOverSmallerProperties and Contrast.LargerOverSmallerAtMost21 |
| Contrast.LargerOverSmallerProperties | src/lib/color.ts:95 | the final comparison is symmetric, at least 1, and exactly 1 when both sides are equal |
| Contrast.LargerOverSmallerAtMost21 | src/lib/color.ts:93-95 | offset luminances in [0.05, 1.05] give a ratio of at most 21 |
| Contrast.ContrastRatio | src/lib/color.ts:90-96 | the ratio lies in [1, 21] and is 1 exactly when the luminances are equal |
| Contrast.ContrastSymmetric | src/lib/color.ts:90-96 | `contrastRatio(a, b) == contrastRatio(b, a)` |
| Contrast.BlackIsZero | src/lib/color.ts:14-17 | "#000000" decodes to (0, 0, 0) |
| Contrast.WhiteIsFull | src/lib/color.ts:14-17 | "#ffffff" decodes to (255, 255, 255) |
| Contrast.BlackOnWhite | src/lib/color.ts:90-96 | black against white has the largest ratio, 21 |
| Contrast.WhiteLuminance | src/lib/color.ts:82-88 | white has luminance 1 |
| Contrast.BlackLuminance | src/lib/color.ts:82-88 | black has luminance 0 |
| Contrast.AgainstWhite | src/lib/color.ts:90-96 | against white the ratio is `1.05 / (L + 0.05)` |
| Contrast.AgainstBlack | src/lib/color.ts:90-96 | against black the ratio is `(L + 0.05) / 0.05` |
| Contrast.WhiteTimesBlack | src/lib/color.ts:90-96 | a colour's ratios against white and against black multiply to 21 |
| Closest.Distance | src/lib/color.ts:141-144 | `Math.abs(arr[i] - target)`, the distance Closest.FindClosestIndex minimises |
| Closest.FirstClosestUnique | src/lib/color.ts:139-152 | at most one index is the first nearest one |
| Closest.ClosestIndex | src/lib/color.ts:139-152 | the reference scan returns the first nearest index of a non-empty sequence |
| Closest.FindClosestIndex | src/lib/color.ts:139-152 | the loop returns a valid index whose entry is nearest the target, with every earlier entry strictly farther; 0 for an empty array |
| Closest.FindAgreesWithReference | src/lib/color.ts:139-152 | the loop's answer equals the reference scan's |
| CalibratedScale.ColorScale | src/lib/color.ts:137 | the `ColorScale` record, a map from label to colour; CalibratedScale.GenerateScale fixes its keys and values |
| CalibratedScale.ScaleStops | src/lib/color.ts:155 | the eleven stops; CalibratedScale.StopsIncreasing shows they increase strictly |
| CalibratedScale.LightnessTable | src/lib/color.ts:160 | the lightness table; CalibratedScale.TableWhole and CalibratedScale.TableDecreasing give its shape |
| CalibratedScale.SaturationTable | src/lib/color.ts:161 | the saturation table; ScaleFindings.SaturationInRange puts it in [70, 100] |
| CalibratedScale.Anchor | src/lib/color.ts:164 | `closestLigtness` is the first nearest table entry, an index below 11 |
| CalibratedScale.BaseHsl | src/lib/color.ts:157 | `rgbToHsl(...hexToRgb(baseColor))`; its ranges are those of Hsl.RgbToHsl |
| CalibratedScale.Offset | src/lib/color.ts:165 | `diff`, the base lightness less the anchor's table entry; CalibratedScale.AnchorKeepsBaseLightness shows the shift puts the base lightness at the anchor |
| CalibratedScale.ShiftTable | src/lib/color.ts:166 | moving the table keeps its length |
| CalibratedScale.ShiftedLightness | src/lib/color.ts:166 | the shifted table has 11 entries |
| CalibratedScale.StepHue | src/lib/color.ts:168-175 | the working hue at step `i`, `baseHue + k − i`; CalibratedScale.HueDropsByOne shows it starts at the base hue at the anchor and drops by one a step |
| CalibratedScale.StepHex | src/lib/color.ts:170-174 | the colour stored under step `i`'s label; CalibratedScale.GenerateScale shows the loop stores exactly these |
| CalibratedScale.ScaleColors | src/lib/color.ts:168-176 | the colours of the steps form a sequence of 11 |
| CalibratedScale.GenerateScale | src/lib/color.ts:154-179 | the keys are exactly the labels of the first `numberOfSteps` stops (none for a count below 1), and step `i` holds `hslToHex(baseHue + k − i, saturationSteps[i], shifted lightness[i])` |
| CalibratedScale.SetupAgrees | src/lib/color.ts:164-168 | the scan's answer is the anchor, so the set-up values are those of step 0 |
| CalibratedScale.NoSteps | src/lib/color.ts:169 | with a count of 0 or less the empty record is the scale |
| CalibratedScale.StepStored | src/lib/color.ts:169-176 | one pass of the loop body extends a scale holding `i` steps to `i + 1` |
| CalibratedScale.StoreStep | src/lib/color.ts:174 | storing the colour of step `i` under its label leaves the earlier entries alone |
| CalibratedScale.NewLabel | src/lib/color.ts:174 | step `i`'s label is not among the earlier labels |
| CalibratedScale.LabelsGrow | src/lib/color.ts:174 | the labels of `i + 1` steps are those of `i` steps plus step `i`'s |
| CalibratedScale.StopsIncreasing | src/lib/color.ts:155 | the stops increase strictly |
| CalibratedScale.StopLabelsDistinct | src/lib/color.ts:155 | different steps have different labels, so no step overwrites another |
| CalibratedScale.LightLabels | src/lib/color.ts:155 | the first labels are "50", "100", "200", "300" |
| CalibratedScale.MiddleLabels | src/lib/color.ts:155 | the middle labels are "400" to "700" |
| CalibratedScale.DarkLabels | src/lib/color.ts:155 | the last labels are "800", "900", "950" |
| CalibratedScale.StopLabelsCount | src/lib/color.ts:169-176 | the scale has `numberOfSteps` entries, or none for a count below 1 |
| CalibratedScale.ShiftedIsExact | src/lib/color.ts:165-166 | for a two-decimal base lightness the shift is exact: `table[i] + diff` |
| CalibratedScale.AnchorKeepsBaseLightness | src/lib/color.ts:164-166 | the shifted table takes the base lightness at the anchor |
| CalibratedScale.TableWhole | src/lib/color.ts:160 | the lightness table holds whole numbers |
| CalibratedScale.TableDecreasing | src/lib/color.ts:160 | the lightness table decreases strictly |
| CalibratedScale.ShiftKeepsDifferences | src/lib/color.ts:160-166 | consecutive shifted entries differ as the table's do, so the shifted lightness decreases strictly |
| CalibratedScale.HueDropsByOne | src/lib/color.ts:168-175 | the working hue is the base hue at the anchor and drops by one degree a step |
| AnnotatedScale.Shade | src/lib/color.ts:7-13 | the `Shade` record, with `cw` and `cb` optional; AnnotatedScale.Annotate fills both |
| AnnotatedScale.LightnessSteps | src/lib/color.ts:100 | the ten lightness steps; AnnotatedScale.LightnessInRange and AnnotatedScale.ShadesDarken give their shape |
| AnnotatedScale.SaturationSteps | src/lib/color.ts:101 | the ten saturation steps; AnnotatedScale.SaturationBounds uses that they are at most 95 |
| AnnotatedScale.BaseShade | src/lib/color.ts:103-113 | for a base saturation in [0, 100] the shade's colour is canonical `#rrggbb` |
| AnnotatedScale.ShadeName | src/lib/color.ts:109 | `${50 + index * 100}`; distinct per shade (AnnotatedScale.ShadeNamesDistinct) |
| AnnotatedScale.ShadeSaturation | src/lib/color.ts:104-105 | `baseHsl.saturation * saturationSteps[index] / 100`; bounds in AnnotatedScale.SaturationBounds |
| AnnotatedScale.Annotate | src/lib/color.ts:116 | the spread keeps name, colour and HSL, and adds both ratios, each in [1, 21] |
| AnnotatedScale.GenerateScale | src/lib/color.ts:98-118 | `__generateScale` gives exactly 10 shades |
| AnnotatedScale.SaturationBounds | src/lib/color.ts:104-105 | the unrounded saturation lies between 0 and the base saturation, and at most 95 |
| AnnotatedScale.RoundMonotone | src/lib/color.ts:111 | `Math.round` keeps order |
| AnnotatedScale.LightnessInRange | src/lib/color.ts:100 | the lightness table lies in [18, 90] |
| AnnotatedScale.ScaleAt | src/lib/color.ts:98-118 | shade `i` is the `i`-th base shade, annotated, with a canonical colour |
| AnnotatedScale.BaseShadeIs | src/lib/color.ts:103-113 | name, base hue, table lightness, and a rounded saturation between 0 and the rounded base saturation, at most 95 |
| AnnotatedScale.BaseShadeColour | src/lib/color.ts:106 | the colour decodes to the channels of `hslToRgb` for the unrounded saturation |
| AnnotatedScale.GreyOf | src/lib/color.ts:106 | with saturation 0 `hslToHex` writes a grey |
| AnnotatedScale.AnnotateContrast | src/lib/color.ts:116 | `cw` is `1.05 / (L + 0.05)` and `cb` is `(L + 0.05) / 0.05` for the shade's luminance `L` |
| AnnotatedScale.GreyBaseGreyShades | src/lib/color.ts:103-113 | a grey base gives grey shades with saturation 0 |
| AnnotatedScale.ShadesDarken | src/lib/color.ts:100 | the shades darken strictly from "50" to "950" |
| AnnotatedScale.ShadeNamesDistinct | src/lib/color.ts:109 | different shades have different names |
| AnnotatedScale.LightShadeNames | src/lib/color.ts:109 | the first names are "50", "150", "250" |
| AnnotatedScale.MiddleShadeNames | src/lib/color.ts:109 | the middle names are "350", "450", "550" |
| AnnotatedScale.DarkShadeNames | src/lib/color.ts:109 | the last names are "650" to "950" |
| ScaleFindings.GreyBase | src/lib/color.ts:157 | "#c2c2c2" has HSL (0, 0, 76.08) |
| ScaleFindings.GreyAnchor | src/lib/color.ts:164 | lightness 76.08 anchors at index 4 (71) |
| ScaleFindings.LightnessOverflowExample | src/lib/color.ts:166-174 | as written, step "50" of "#c2c2c2" has lightness 102.08 and colour "#ff10910a", which is not well formed |
| ScaleFindings.OverflowShift | src/lib/color.ts:164-168 | that step has lightness 102.08 and hue 4 |
| ScaleFindings.OverflowHex | src/lib/color.ts:53-80 | `hslToHex(4, 100, 102.08)` is "#ff10910a" |
| ScaleFindings.OverflowText | src/lib/color.ts:77-79 | channels (255, 265, 266) are written "#ff10910a" |
| ScaleFindings.OverflowChannels | src/lib/color.ts:54-74 | `hslToRgb(4, 1, 1.0208)` is (255, 265, 266) |
| ScaleFindings.RedBase | src/lib/color.ts:157 | "#ff0000" has HSL (0, 100, 50) |
| ScaleFindings.RedShift | src/lib/color.ts:164-175 | red anchors at 50, so step "700" has lightness 41 and hue −1 |
| ScaleFindings.GreyChannels | src/lib/color.ts:62-73 | hue −1 selects no sector: `hslToRgb(−1, 0.77, 0.41)` is the grey (24, 24, 24) |
| ScaleFindings.NegativeHueExample | src/lib/color.ts:168-175 | as written, step "700" of pure red is the grey "#181818" |
| ScaleFindings.GreyHex | src/lib/color.ts:53-80 | `hslToHex(−1, 77, 41)` is "#181818" |
| ScaleFindings.GreyText | src/lib/color.ts:77-79 | (24, 24, 24) is written "#181818" |
| ScaleFindings.WrapHue | src/lib/color.ts:175 | the hue moved into [0, 360) by whole turns, unchanged inside it |
| ScaleFindings.WrapBounds | src/lib/color.ts:175 | whole turns bring any hue into [0, 360), none are needed inside it |
| ScaleFindings.ClampPercent | src/lib/color.ts:166 | a percentage held in [0, 100], unchanged inside it |
| ScaleFindings.CorrectedStepHex | src/lib/color.ts:168-175 | step `i` with the hue wrapped into [0, 360) and the lightness clamped to [0, 100]; its contracts are ScaleFindings.CorrectedStepIsColour and ScaleFindings.CorrectedStepInSector |
| ScaleFindings.SaturationInRange | src/lib/color.ts:161 | the saturation table lies in [70, 100] |
| ScaleFindings.CorrectedStepIsColour | src/lib/color.ts:168-174 | every corrected step is canonical `#rrggbb` and decodes to the channels of `hslToRgb` for the wrapped hue, the table saturation and the clamped lightness |
| ScaleFindings.CorrectedStepInSector | src/lib/color.ts:168-174 | the channels of every corrected step are `round((c + m)·255)`, `round((x + m)·255)` and `round(m·255)` in the order of the wrapped hue's sector, never the grey of a hue outside [0, 360) |
| ScaleFindings.CorrectionKeepsInRangeSteps | src/lib/color.ts:168-176 | where the hue and lightness are already in range, the corrected step equals the as-written one |
| ScaleFindings.RedChannels | src/lib/color.ts:54-74 | `hslToRgb(359, 0.77, 0.41)` is (185, 24, 27) |
| ScaleFindings.CorrectedRedExample | src/lib/color.ts:168-174 | corrected, step "700" of pure red is the dark red "#b9181b" |
| ScaleFindings.WrapMinusOne | src/lib/color.ts:175 | hue −1 wraps to 359 |
| ScaleFindings.RedHex | src/lib/color.ts:53-80 | `hslToHex(359, 77, 41)` is "#b9181b" |
| ScaleFindings.RedText | src/lib/color.ts:77-79 | (185, 24, 27) is written "#b9181b" |

## Left out

- `Math.pow(y, 2.4)` in `luminance` (src/lib/color.ts:85) cannot be written over Dafny reals. It is the parameter `power`. The model assumes only that `power` maps [0, 1] into [0, 1] and 1 to 1.
- Double-precision rounding is not modelled. `toFixed(2)`, `parseFloat`, the divisions and `Math.round` are exact operations on rationals, so a value that lies exactly on a binary rounding boundary may come out differently.
- `hexToRgb` on malformed strings is not modelled. For these, `parseInt` stops at the first non-hex character or gives NaN. Every operation requires seven characters whose last six are hex digits. The leading character is never inspected, as in the source.
- `numberOfSteps` above 11 is not modelled. The source then reads `undefined` from its tables. `numberOfSteps` is an integer of at most 11. The default of 11 is the caller's to pass, and a fractional count is not modelled.
- CalibratedScale.GenerateScale: the result is a Dafny `map`, which has no key order. The model therefore does not state the order in which the JavaScript object lists its keys. Integer-like keys list in ascending numeric order, which here is the step order.
- Closest.FindClosestIndex: on an empty array the source computes `Math.abs(undefined - target)`, which is NaN. The model does not represent NaN. The loop does not run and both return 0.
- The example calls and `console.log` (src/lib/color.ts:120-135 and src/lib/color.ts:181-183) are not part of this model. Neither are the commented-out tables after them.
- `src/lib/zod.ts` is not part of this model. It only declares schemas for a validation library.
- `src/app/page.tsx` is not part of this model. It is user-interface markup.
- `drizzle.config.ts` is not part of this model. It is database configuration read from the environment.

## Findings

| source | as written | input that shows it | evidently intended | confidence | as-written member | corrected member |
|---|---|---|---|---|---|---|
| src/lib/color.ts:166 | the shifted lightness is never clamped to [0, 100], so `hslToRgb` produces channels above 255 and the colour string grows past seven characters | "#c2c2c2" (lightness 76.08, anchored at 71): step "50" gets lightness 102.08 and the colour "#ff10910a" | every stored colour a `#rrggbb` string (lightness clamped to [0, 100]) | not executed | ScaleFindings.LightnessOverflowExample | ScaleFindings.CorrectedStepIsColour |
| src/lib/color.ts:175 | the working hue is decremented past 0 and never wrapped, and `hslToRgb` turns a hue outside [0, 360) into grey | "#ff0000" (hue 0, anchored at 50 with index 6): step "700" gets hue −1 and the grey "#181818" | the hue wrapped into [0, 360) so each step keeps its colour, here "#b9181b" | not executed | ScaleFindings.NegativeHueExample | ScaleFindings.CorrectedStepInSector |
