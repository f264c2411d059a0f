/**
 * Conversions between RGB and HSL: `rgbToHsl` (max/min and the six-sector hue
 * formula) and `hslToHex` with its inner `hslToRgb` (chroma, intermediate and match
 * values, one 60-degree sector at a time, as in the HSL model of section 7 of CSS
 * Color Module Level 4). Numbers are exact reals; `Math.round` and `toFixed(2)` are
 * the functions of module Numeric.
 */
module Hsl {
  import opened Numeric
  import opened Hex

  /** The `HSL` record: hue in degrees, saturation and lightness in percent. */
  datatype Hsl = Hsl(hue: real, saturation: real, lightness: real)

  /** `Math.max(a, b, c)`. */
  function Max3(a: real, b: real, c: real): (m: real)
    ensures m >= a && m >= b && m >= c
    ensures m == a || m == b || m == c
  {
    if a >= b && a >= c then a else if b >= c then b else c
  }

  /** `Math.min(a, b, c)`. */
  function Min3(a: real, b: real, c: real): (m: real)
    ensures m <= a && m <= b && m <= c
    ensures m == a || m == b || m == c
  {
    if a <= b && a <= c then a else if b <= c then b else c
  }

  /** A channel after `r /= 255`. */
  function Unit(v: Byte): (x: real)
    ensures 0.0 <= x <= 1.0
  {
    v as real / 255.0
  }

  /** A grey: the three channels are equal, so their maximum and minimum coincide. */
  predicate IsAchromatic(c: Rgb) {
    c.r == c.g == c.b
  }

  /** Lightness as a fraction, `(max + min) / 2`. */
  function MidRange(c: Rgb): real {
    (Max3(Unit(c.r), Unit(c.g), Unit(c.b)) + Min3(Unit(c.r), Unit(c.g), Unit(c.b))) / 2.0
  }

  /**
   * `rgbToHsl` up to the `toFixed(2)` calls: the hue in degrees, the saturation and the
   * lightness in percent, computed exactly.
   */
  function UnroundedHsl(c: Rgb): (u: Hsl)
    ensures IsAchromatic(c) ==> u.hue == 0.0 && u.saturation == 0.0
    ensures u.lightness == 100.0 * MidRange(c)
  {
    var r, g, b := Unit(c.r), Unit(c.g), Unit(c.b);
    var max, min := Max3(r, g, b), Min3(r, g, b);
    var l := (max + min) / 2.0;
    if max == min then
      Hsl(0.0, 0.0, l * 100.0)
    else
      var d := max - min;
      var s := if l > 0.5 then d / (2.0 - max - min) else d / (max + min);
      Hsl((SectorHue(r, g, b, max, d) / 6.0) * 360.0, s * 100.0, l * 100.0)
  }

  /**
   * The `switch (max)` of `rgbToHsl`, the hue in sixths of a turn: the first channel
   * equal to the maximum decides; the final `else` is the switch falling through with
   * `h` still 0.
   */
  function SectorHue(r: real, g: real, b: real, max: real, d: real): real
    requires d > 0.0
  {
    if max == r then (g - b) / d + (if g < b then 6.0 else 0.0)
    else if max == g then (b - r) / d + 2.0
    else if max == b then (r - g) / d + 4.0
    else 0.0
  }

  lemma DivRange(a: real, d: real, lo: real, hi: real)
    requires d > 0.0 && lo * d <= a <= hi * d
    ensures lo <= a / d <= hi
  {
    var q := a / d;
    assert q * d == a;
  }

  /**
   * The unrounded saturation of a colour that is not grey is positive and at most 100;
   * with byte channels it is at least 100/510.
   */
  lemma UnroundedSaturation(c: Rgb)
    ensures !IsAchromatic(c) ==> 100.0 / 510.0 <= UnroundedHsl(c).saturation <= 100.0
  {
    if !IsAchromatic(c) {
      var r, g, b := Unit(c.r), Unit(c.g), Unit(c.b);
      var max, min := Max3(r, g, b), Min3(r, g, b);
      var l := (max + min) / 2.0;
      var d := max - min;
      assert 1.0 / 255.0 <= d <= 1.0 by { ByteGap(c); }
      if l > 0.5 {
        DivRange(d, 2.0 - max - min, 1.0 / 510.0, 1.0);
      } else {
        DivRange(d, max + min, 1.0 / 510.0, 1.0);
      }
    }
  }

  /** Distinct byte channels differ by at least 1/255 once divided by 255. */
  lemma ByteGap(c: Rgb)
    requires !IsAchromatic(c)
    ensures var r, g, b := Unit(c.r), Unit(c.g), Unit(c.b);
      1.0 / 255.0 <= Max3(r, g, b) - Min3(r, g, b) <= 1.0
  {
  }

  /**
   * The unrounded hue of a colour that is not grey lies in [0, 360); with byte channels
   * it stays at least 60/255 degrees below 360.
   */
  lemma UnroundedHue(c: Rgb)
    ensures !IsAchromatic(c) ==> 0.0 <= UnroundedHsl(c).hue <= 360.0 - 60.0 / 255.0
  {
    if !IsAchromatic(c) {
      SectorHueRange(c);
    }
  }

  lemma SectorHueRange(c: Rgb)
    requires !IsAchromatic(c)
    ensures var r, g, b := Unit(c.r), Unit(c.g), Unit(c.b);
      var max := Max3(r, g, b);
      var d := max - Min3(r, g, b);
      d > 0.0 && 0.0 <= SectorHue(r, g, b, max, d) <= 6.0 - 1.0 / 255.0
  {
    var r, g, b := Unit(c.r), Unit(c.g), Unit(c.b);
    var max, min := Max3(r, g, b), Min3(r, g, b);
    var d := max - min;
    assert 1.0 / 255.0 <= d <= 1.0 by { ByteGap(c); }
    if max == r {
      if g < b {
        assert c.g - c.b <= -1;
        DivRange(g - b, d, -1.0, -1.0 / 255.0);
      } else {
        DivRange(g - b, d, 0.0, 1.0);
      }
    } else if max == g {
      DivRange(b - r, d, -1.0, 1.0);
    } else {
      DivRange(r - g, d, -1.0, 1.0);
    }
  }

  /** The lightness of any colour lies in [0, 100]. */
  lemma UnroundedLightness(c: Rgb)
    ensures 0.0 <= UnroundedHsl(c).lightness <= 100.0
  {
  }

  /** The two-decimal roundings of the unrounded values keep their ranges. */
  lemma RoundedRanges(c: Rgb)
    ensures var u := UnroundedHsl(c);
      && 0.0 <= ToFixed2(u.hue) < 360.0
      && 0.0 <= ToFixed2(u.lightness) <= 100.0
      && 0.0 <= ToFixed2(u.saturation) <= 100.0
      && (ToFixed2(u.saturation) == 0.0 <==> IsAchromatic(c))
  {
    var u := UnroundedHsl(c);
    UnroundedLightness(c);
    ToFixed2Within(u.lightness, 0, 10000);
    if !IsAchromatic(c) {
      UnroundedHue(c);
      UnroundedSaturation(c);
      ToFixed2Within(u.hue, 0, 35977);
      ToFixed2Within(u.saturation, 19, 10000);
    } else {
      assert u.hue == 0.0 && u.saturation == 0.0;
      CentsOfCents(0);
    }
  }

  /**
   * `rgbToHsl`: the unrounded values each rounded to two decimals. Grey colours get
   * hue 0 and saturation 0 and are the only colours with saturation 0; every colour
   * gets a hue in [0, 360) and a saturation and lightness in [0, 100].
   */
  function RgbToHsl(c: Rgb): (hsl: Hsl)
    ensures 0.0 <= hsl.hue < 360.0
    ensures 0.0 <= hsl.saturation <= 100.0 && 0.0 <= hsl.lightness <= 100.0
    ensures hsl.saturation == 0.0 <==> IsAchromatic(c)
    ensures IsAchromatic(c) ==> hsl.hue == 0.0 && hsl.lightness == ToFixed2(100.0 * Unit(c.r))
    ensures IsHundredths(hsl.hue) && IsHundredths(hsl.saturation) && IsHundredths(hsl.lightness)
  {
    var u := UnroundedHsl(c);
    RoundedRanges(c);
    ToFixed2Idempotent(u.hue);
    ToFixed2Idempotent(u.saturation);
    ToFixed2Idempotent(u.lightness);
    Hsl(ToFixed2(u.hue), ToFixed2(u.saturation), ToFixed2(u.lightness))
  }

  /** `c = (1 - |2l - 1|) * s`, the chroma. */
  function Chroma(s: real, l: real): real {
    (1.0 - Abs(2.0 * l - 1.0)) * s
  }

  /** `x = c * (1 - |(h / 60) % 2 - 1|)`, the second-largest component. */
  function Intermediate(h: real, c: real): real {
    c * (1.0 - Abs(RemTwo(h / 60.0) - 1.0))
  }

  /** `m = l - c / 2`, the amount added to every component. */
  function Match(l: real, c: real): real {
    l - c / 2.0
  }

  /** The triple `t` holds `a`, `b` and `c` in some order. */
  predicate IsPermutation<T(==)>(t: (T, T, T), a: T, b: T, c: T) {
    || t == (a, b, c) || t == (a, c, b) || t == (b, a, c)
    || t == (b, c, a) || t == (c, a, b) || t == (c, b, a)
  }

  /**
   * The if-chain of `hslToRgb`: in each 60-degree sector of [0, 360) the components
   * are `c`, `x` and 0 in some order; any other hue leaves all three at 0.
   */
  function Sector(h: real, c: real, x: real): (rgb: (real, real, real))
    ensures 0.0 <= h < 360.0 ==> IsPermutation(rgb, c, x, 0.0)
    ensures !(0.0 <= h < 360.0) ==> rgb == (0.0, 0.0, 0.0)
  {
    if 0.0 <= h && h < 60.0 then (c, x, 0.0)
    else if 60.0 <= h && h < 120.0 then (x, c, 0.0)
    else if 120.0 <= h && h < 180.0 then (0.0, c, x)
    else if 180.0 <= h && h < 240.0 then (0.0, x, c)
    else if 240.0 <= h && h < 300.0 then (x, 0.0, c)
    else if 300.0 <= h && h < 360.0 then (c, 0.0, x)
    else (0.0, 0.0, 0.0)
  }

  lemma ChromaBounds(s: real, l: real)
    requires 0.0 <= s <= 1.0 && 0.0 <= l <= 1.0
    ensures 0.0 <= Chroma(s, l) <= 1.0 - Abs(2.0 * l - 1.0)
  {
    ScaleDown(1.0 - Abs(2.0 * l - 1.0), s, Chroma(s, l));
  }

  lemma IntermediateBounds(h: real, c: real)
    requires 0.0 <= c
    ensures 0.0 <= h ==> 0.0 <= Intermediate(h, c) <= c
  {
    if 0.0 <= h {
      ScaleDown(c, 1.0 - Abs(RemTwo(h / 60.0) - 1.0), Intermediate(h, c));
    }
  }

  /**
   * `hslToRgb` with saturation and lightness as fractions: each component plus `m`,
   * times 255, through `Math.round`.
   */
  function HslToRgb(h: real, s: real, l: real): (int, int, int) {
    var c := Chroma(s, l);
    var x := Intermediate(h, c);
    var m := Match(l, c);
    var v := Sector(h, c, x);
    (Round((v.0 + m) * 255.0), Round((v.1 + m) * 255.0), Round((v.2 + m) * 255.0))
  }

  /** For saturation and lightness in [0, 1], every channel is a byte, whatever the hue. */
  lemma HslToRgbInRange(h: real, s: real, l: real)
    requires 0.0 <= s <= 1.0 && 0.0 <= l <= 1.0
    ensures var rgb := HslToRgb(h, s, l);
      0 <= rgb.0 <= 255 && 0 <= rgb.1 <= 255 && 0 <= rgb.2 <= 255
  {
    var c := Chroma(s, l);
    ChromaBounds(s, l);
    IntermediateBounds(h, c);
    var m := Match(l, c);
    assert 0.0 <= m && c + m <= 1.0;
    var v := Sector(h, c, Intermediate(h, c));
    assert 0.0 <= v.0 + m <= 1.0 && 0.0 <= v.1 + m <= 1.0 && 0.0 <= v.2 + m <= 1.0;
  }

  /** With saturation 0 the colour is the grey of the lightness. */
  lemma HslToRgbUnsaturated(h: real, l: real)
    ensures var rgb := HslToRgb(h, 0.0, l);
      rgb.0 == rgb.1 == rgb.2 == Round(l * 255.0)
  {
    assert Chroma(0.0, l) == 0.0;
    assert Intermediate(h, 0.0) == 0.0;
  }

  /** A hue outside [0, 360) selects no sector: all three channels are `m`, a grey. */
  lemma HslToRgbOutsideHues(h: real, s: real, l: real)
    requires !(0.0 <= h < 360.0)
    ensures var rgb := HslToRgb(h, s, l);
      rgb.0 == rgb.1 == rgb.2 == Round(Match(l, Chroma(s, l)) * 255.0)
  {
  }

  /**
   * A hue in [0, 360) gives the channels of `c + m`, `x + m` and `m` in the order of its
   * sector.
   */
  lemma HslToRgbPermutes(h: real, s: real, l: real)
    requires 0.0 <= h < 360.0
    ensures var rgb := HslToRgb(h, s, l);
      var c := Chroma(s, l);
      var m := Match(l, c);
      IsPermutation(rgb, Round((c + m) * 255.0), Round((Intermediate(h, c) + m) * 255.0), Round(m * 255.0))
  {
    var c := Chroma(s, l);
    SectorPermutes(h, c, Intermediate(h, c), Match(l, c));
  }

  lemma SectorPermutes(h: real, c: real, x: real, m: real)
    requires 0.0 <= h < 360.0
    ensures var v := Sector(h, c, x);
      IsPermutation((Round((v.0 + m) * 255.0), Round((v.1 + m) * 255.0), Round((v.2 + m) * 255.0)),
        Round((c + m) * 255.0), Round((x + m) * 255.0), Round(m * 255.0))
  {
    assert Round((0.0 + m) * 255.0) == Round(m * 255.0);
  }

  /**
   * `hslToHex` (saturation and lightness in percent): for saturation and lightness in
   * [0, 100] the result is a canonical `#rrggbb` string that `hexToRgb` reads back as
   * the channels `hslToRgb` computed. Outside that range it still starts with '#'.
   */
  function HslToHex(h: real, s: real, l: real): (hex: string)
    ensures |hex| >= 7 && hex[0] == '#'
    ensures 0.0 <= s <= 100.0 && 0.0 <= l <= 100.0 ==>
      var rgb := HslToRgb(h, s / 100.0, l / 100.0);
      IsCanonical(hex) && HexToRgb(hex).r == rgb.0 && HexToRgb(hex).g == rgb.1 && HexToRgb(hex).b == rgb.2
  {
    var rgb := HslToRgb(h, s / 100.0, l / 100.0);
    HexOfChannels(h, s, l);
    FormatHex(rgb.0, rgb.1, rgb.2)
  }

  lemma HexOfChannels(h: real, s: real, l: real)
    ensures 0.0 <= s <= 100.0 && 0.0 <= l <= 100.0 ==>
      var rgb := HslToRgb(h, s / 100.0, l / 100.0);
      && 0 <= rgb.0 < 256 && 0 <= rgb.1 < 256 && 0 <= rgb.2 < 256
      && IsCanonical(FormatHex(rgb.0, rgb.1, rgb.2))
      && HexToRgb(FormatHex(rgb.0, rgb.1, rgb.2)) == Rgb(rgb.0, rgb.1, rgb.2)
  {
    if 0.0 <= s <= 100.0 && 0.0 <= l <= 100.0 {
      HslToRgbInRange(h, s / 100.0, l / 100.0);
      var rgb := HslToRgb(h, s / 100.0, l / 100.0);
      FormatHexRoundTrip(rgb.0, rgb.1, rgb.2);
    }
  }

  /** A grey survives `rgbToHsl` followed by `hslToHex` exactly, despite the rounding. */
  lemma GreyRoundTrip(v: Byte)
    ensures var hsl := RgbToHsl(Rgb(v, v, v));
      HslToHex(hsl.hue, hsl.saturation, hsl.lightness) == FormatHex(v, v, v)
  {
    var hsl := RgbToHsl(Rgb(v, v, v));
    assert IsAchromatic(Rgb(v, v, v));
    GreyFromLightness(v, hsl.hue, hsl.lightness);
  }

  /** A lightness within 0.005 of a grey's lightness, at saturation 0, gives that grey. */
  lemma GreyFromLightness(v: Byte, h: real, lightness: real)
    requires -0.005 <= lightness - 100.0 * Unit(v) <= 0.005
    ensures HslToHex(h, 0.0, lightness) == FormatHex(v, v, v)
  {
    var l := lightness / 100.0;
    HslToRgbUnsaturated(h, l);
    assert -0.02 <= l * 255.0 - v as real <= 0.02;
    assert Round(l * 255.0) == v;
    var rgb := HslToRgb(h, 0.0 / 100.0, l);
    assert rgb == (v, v, v);
    HslToHexWrites(h, 0.0, lightness, v, v, v);
  }

  /** `hslToHex` writes the channels `(rr, gg, bb)` of `hslToRgb`, whatever their range. */
  lemma HslToHexWrites(h: real, s: real, l: real, rr: int, gg: int, bb: int)
    requires HslToRgb(h, s / 100.0, l / 100.0) == (rr, gg, bb)
    ensures HslToHex(h, s, l) == FormatHex(rr, gg, bb)
  {
  }

  lemma RgbToHslExample()
    ensures RgbToHsl(Rgb(239, 78, 116)) == Hsl(345.84, 83.42, 62.16)
  {
    var u := UnroundedHsl(Rgb(239, 78, 116));
    assert Max3(Unit(239), Unit(78), Unit(116)) == Unit(239);
    assert Min3(Unit(239), Unit(78), Unit(116)) == Unit(78);
    assert u.hue == 60.0 * (6.0 - 38.0 / 161.0);
    assert u.saturation == 16100.0 / 193.0;
    assert u.lightness == 31700.0 / 510.0;
    assert Cents(u.hue) == 34584;
    assert Cents(u.saturation) == 8342;
    assert Cents(u.lightness) == 6216;
  }
}
