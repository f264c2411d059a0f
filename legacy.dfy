/**
 * `__generateScale`: the earlier ten-step palette. Every shade keeps the base hue, takes
 * its lightness from a fixed table and scales the base saturation by a fixed
 * percentage; each shade is then annotated with its contrast ratios against white and
 * against black.
 */
module AnnotatedScale {
  import opened Numeric
  import opened Hex
  import opened Hsl
  import opened Decimal
  import opened Contrast

  datatype Option<T> = None | Some(value: T)

  /**
   * `Shade`: a named step, its colour, the HSL it was made from (saturation rounded to
   * a whole percent) and, once annotated, its contrast against white (`cw`) and
   * against black (`cb`).
   */
  datatype Shade = Shade(name: string, hexcode: string, hsl: Hsl, cw: Option<real>, cb: Option<real>)

  const LightnessSteps: seq<real> := [90.0, 82.0, 74.0, 66.0, 58.0, 50.0, 42.0, 34.0, 26.0, 18.0]
  const SaturationSteps: seq<real> := [95.0, 92.0, 89.0, 86.0, 83.0, 80.0, 78.0, 76.0, 74.0, 72.0]

  /** `${50 + index * 100}`: "50", "150", ..., "950". */
  function ShadeName(index: nat): string {
    DecimalString(50 + index * 100)
  }

  /** The saturation of shade `index`, before rounding: a percentage of the base saturation. */
  function ShadeSaturation(base: Hsl, index: nat): real
    requires index < 10
  {
    base.saturation * SaturationSteps[index] / 100.0
  }

  /**
   * The shade at `index` before annotation. For a base saturation in [0, 100] its
   * colour is a canonical `#rrggbb` string.
   */
  function BaseShade(base: Hsl, index: nat): (shade: Shade)
    requires index < 10
    ensures 0.0 <= base.saturation <= 100.0 ==> IsCanonical(shade.hexcode)
  {
    var saturation := ShadeSaturation(base, index);
    var lightness := LightnessSteps[index];
    SaturationBounds(base, index);
    LightnessInRange(index);
    Shade(ShadeName(index), HslToHex(base.hue, saturation, lightness),
      Hsl(base.hue, Round(saturation) as real, lightness), None, None)
  }

  lemma LightnessInRange(index: nat)
    requires index < 10
    ensures 18.0 <= LightnessSteps[index] <= 90.0
  {
  }

  /** `{...shade, cw: contrastRatio(hexcode, "#ffffff"), cb: contrastRatio(hexcode, "#000000")}`. */
  function Annotate(shade: Shade, power: real -> real): (annotated: Shade)
    requires WellFormed(shade.hexcode) && IsGammaCurve(power)
    ensures annotated.name == shade.name && annotated.hexcode == shade.hexcode && annotated.hsl == shade.hsl
    ensures annotated.cw.Some? && 1.0 <= annotated.cw.value <= 21.0
    ensures annotated.cb.Some? && 1.0 <= annotated.cb.value <= 21.0
  {
    shade.(cw := Some(ContrastRatio(shade.hexcode, "#ffffff", power)),
           cb := Some(ContrastRatio(shade.hexcode, "#000000", power)))
  }

  /** `__generateScale(baseHex)`: the ten annotated shades, lightest first. */
  function GenerateScale(baseHex: string, power: real -> real): (scale: seq<Shade>)
    requires WellFormed(baseHex) && IsGammaCurve(power)
    ensures |scale| == 10
  {
    var base := RgbToHsl(HexToRgb(baseHex));
    seq(10, i requires 0 <= i < 10 => Annotate(BaseShade(base, i), power))
  }

  /** The unrounded saturation lies between 0 and 95% of the base saturation. */
  lemma SaturationBounds(base: Hsl, index: nat)
    requires index < 10
    ensures 0.0 <= base.saturation <= 100.0 ==>
      0.0 <= ShadeSaturation(base, index) <= base.saturation && ShadeSaturation(base, index) <= 95.0
  {
    if 0.0 <= base.saturation <= 100.0 {
      var f := SaturationSteps[index] / 100.0;
      assert 0.72 <= f <= 0.95;
      assert ShadeSaturation(base, index) == base.saturation * f;
      ScaleDown(base.saturation, f, ShadeSaturation(base, index));
      assert base.saturation * f <= 100.0 * f;
    }
  }

  /** `Math.round` never reverses an order. */
  lemma RoundMonotone(x: real, y: real)
    requires x <= y
    ensures Round(x) <= Round(y)
  {
  }

  /** Shade `i` of the scale is the `i`-th base shade, annotated. */
  lemma ScaleAt(baseHex: string, power: real -> real, i: nat)
    requires WellFormed(baseHex) && IsGammaCurve(power) && i < 10
    ensures var base := RgbToHsl(HexToRgb(baseHex));
      IsCanonical(BaseShade(base, i).hexcode) &&
      GenerateScale(baseHex, power)[i] == Annotate(BaseShade(base, i), power)
  {
  }

  /**
   * The shade at `index` of a base with saturation in [0, 100]: its name, the base hue,
   * the lightness of the table, and a whole saturation between 0 and the rounded base
   * saturation (at most 95).
   */
  lemma BaseShadeIs(base: Hsl, index: nat)
    requires 0.0 <= base.saturation <= 100.0 && index < 10
    ensures var shade := BaseShade(base, index);
      && shade.name == ShadeName(index)
      && shade.hsl.hue == base.hue
      && shade.hsl.lightness == LightnessSteps[index]
      && shade.hsl.saturation == Round(ShadeSaturation(base, index)) as real
      && 0.0 <= shade.hsl.saturation <= Round(base.saturation) as real
      && shade.hsl.saturation <= 95.0
  {
    var s := ShadeSaturation(base, index);
    assert BaseShade(base, index).hsl == Hsl(base.hue, Round(s) as real, LightnessSteps[index]);
    SaturationBounds(base, index);
    RoundMonotone(s, base.saturation);
    RoundMonotone(s, 95.0);
    RoundMonotone(0.0, s);
  }

  /**
   * The colour of that shade decodes to the channels `hslToRgb` gives for the
   * unrounded saturation.
   */
  lemma BaseShadeColour(base: Hsl, index: nat)
    requires 0.0 <= base.saturation <= 100.0 && index < 10
    ensures var rgb := HslToRgb(base.hue, ShadeSaturation(base, index) / 100.0, LightnessSteps[index] / 100.0);
      var hex := BaseShade(base, index).hexcode;
      IsCanonical(hex) && HexToRgb(hex).r == rgb.0 && HexToRgb(hex).g == rgb.1 && HexToRgb(hex).b == rgb.2
  {
    var s := ShadeSaturation(base, index);
    var l := LightnessSteps[index];
    assert BaseShade(base, index).hexcode == HslToHex(base.hue, s, l);
    SaturationBounds(base, index);
    LightnessInRange(index);
  }

  /** With saturation 0, `hslToHex` writes a grey. */
  lemma GreyOf(h: real, l: real)
    requires 0.0 <= l <= 100.0
    ensures IsCanonical(HslToHex(h, 0.0, l)) && IsAchromatic(HexToRgb(HslToHex(h, 0.0, l)))
  {
    assert 0.0 / 100.0 == 0.0;
    HslToRgbUnsaturated(h, l / 100.0);
  }

  /**
   * Annotating fills in both ratios, fixed by the shade's luminance `L`: `cw` is
   * `1.05 / (L + 0.05)` and `cb` is `(L + 0.05) / 0.05`.
   */
  lemma AnnotateContrast(shade: Shade, power: real -> real)
    requires WellFormed(shade.hexcode) && IsGammaCurve(power)
    ensures var l := Luminance(HexToRgb(shade.hexcode), power) + 0.05;
      Annotate(shade, power).cw == Some(1.05 / l) && Annotate(shade, power).cb == Some(20.0 * l)
  {
    AgainstWhite(shade.hexcode, power);
    AgainstBlack(shade.hexcode, power);
  }

  /** A grey base colour gives grey shades, each with saturation 0. */
  lemma GreyBaseGreyShades(base: Hsl, index: nat)
    requires base.saturation == 0.0 && index < 10
    ensures var shade := BaseShade(base, index);
      && shade.hsl.saturation == 0.0
      && IsCanonical(shade.hexcode)
      && IsAchromatic(HexToRgb(shade.hexcode))
  {
    var l := LightnessSteps[index];
    assert ShadeSaturation(base, index) == 0.0;
    assert BaseShade(base, index).hexcode == HslToHex(base.hue, 0.0, l);
    LightnessInRange(index);
    GreyOf(base.hue, l);
  }

  /** The shades darken strictly from "50" to "950". */
  lemma ShadesDarken(index: nat)
    requires index < 9
    ensures LightnessSteps[index] > LightnessSteps[index + 1]
  {
  }

  /** Different shades have different names. */
  lemma ShadeNamesDistinct(i: nat, j: nat)
    requires i != j
    ensures ShadeName(i) != ShadeName(j)
  {
    DecimalStringInjective(50 + i * 100, 50 + j * 100);
  }

  lemma LightShadeNames()
    ensures ShadeName(0) == "50" && ShadeName(1) == "150" && ShadeName(2) == "250"
  {
  }

  lemma MiddleShadeNames()
    ensures ShadeName(3) == "350" && ShadeName(4) == "450" && ShadeName(5) == "550"
  {
  }

  lemma DarkShadeNames()
    ensures ShadeName(6) == "650" && ShadeName(7) == "750" && ShadeName(8) == "850"
    ensures ShadeName(9) == "950"
  {
  }
}
