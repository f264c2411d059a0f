/**
 * `generateScale`: the calibrated eleven-step palette. The lightness table is slid so
 * that its entry nearest to the base colour's lightness becomes that lightness, the
 * saturation table is used as is, and the hue starts above the base hue by the anchor
 * index and drops by one degree per step. The result maps each step label ("50",
 * "100", ..., "950") to a hexadecimal colour.
 */
module CalibratedScale {
  import opened Numeric
  import opened Hex
  import opened Hsl
  import opened Decimal
  import opened Closest

  const ScaleStops: seq<nat> := [50, 100, 200, 300, 400, 500, 600, 700, 800, 900, 950]
  const LightnessTable: seq<real> := [97.0, 95.0, 90.0, 82.0, 71.0, 62.0, 50.0, 41.0, 35.0, 30.0, 16.0]
  const SaturationTable: seq<real> := [100.0, 93.0, 88.0, 89.0, 89.0, 83.0, 72.0, 77.0, 74.0, 70.0, 83.0]

  /** `ColorScale`, a record from step label to hexadecimal colour. */
  type ColorScale = map<string, string>

  /** The key `result[scaleStops[i]]` uses: the stop written in decimal. */
  function StopLabel(i: nat): string
    requires i < 11
  {
    DecimalString(ScaleStops[i])
  }

  /** The labels of the first `n` steps. */
  function StopLabels(n: int): set<string>
    requires n <= 11
  {
    set i: nat | i < n :: StopLabel(i)
  }

  /** The base colour, `rgbToHsl(...hexToRgb(baseColor))`. */
  function BaseHsl(baseColor: string): Hsl
    requires WellFormed(baseColor)
  {
    RgbToHsl(HexToRgb(baseColor))
  }

  /** `closestLigtness`: the first table entry nearest to the base lightness. */
  function Anchor(base: Hsl): (k: nat)
    ensures IsFirstClosest(LightnessTable, base.lightness, k) && k < 11
  {
    ClosestIndex(LightnessTable, base.lightness)
  }

  /** `diff`: how far the base lightness lies from its anchor entry. */
  function Offset(base: Hsl): real {
    base.lightness - LightnessTable[Anchor(base)]
  }

  /** `table.map((l) => parseFloat((l + diff).toFixed(2)))`. */
  function ShiftTable(table: seq<real>, diff: real): (t: seq<real>)
    ensures |t| == |table|
  {
    seq(|table|, i requires 0 <= i < |table| => ToFixed2(table[i] + diff))
  }

  /** `lightnessSteps`: every entry of the table moved by `diff`, kept to two decimals. */
  function ShiftedLightness(base: Hsl): (t: seq<real>)
    ensures |t| == 11
  {
    ShiftTable(LightnessTable, Offset(base))
  }

  /** The working hue at step `i`: the base hue plus the anchor index, less one per step. */
  function StepHue(base: Hsl, i: nat): real {
    base.hue + Anchor(base) as real - i as real
  }

  /** The colour stored under the label of step `i`. */
  function StepHex(baseColor: string, i: nat): string
    requires WellFormed(baseColor) && i < 11
  {
    var base := BaseHsl(baseColor);
    HslToHex(StepHue(base, i), SaturationTable[i], ShiftedLightness(base)[i])
  }

  /** The colours of the eleven steps, lightest first. */
  function ScaleColors(baseColor: string): (colors: seq<string>)
    requires WellFormed(baseColor)
    ensures |colors| == 11
  {
    seq(11, i requires 0 <= i < 11 => StepHex(baseColor, i))
  }

  /**
   * `result` holds the first `n` of the eleven `colors`: its labels are exactly those of
   * the first `n` stops (none when `n` is 0 or less), and each maps to its step's colour.
   */
  predicate HoldsSteps(result: ColorScale, colors: seq<string>, n: int)
    requires |colors| == 11 && n <= 11
  {
    && result.Keys == StopLabels(n)
    && forall i: nat | i < n :: StopLabel(i) in result && result[StopLabel(i)] == colors[i]
  }

  /**
   * `generateScale(baseColor, numberOfSteps)` for at most eleven steps: one entry per
   * step under the step's label, holding `hslToHex` of the step's hue, saturation and
   * shifted lightness.
   */
  method GenerateScale(baseColor: string, numberOfSteps: int) returns (result: ColorScale)
    requires WellFormed(baseColor) && numberOfSteps <= 11
    ensures HoldsSteps(result, ScaleColors(baseColor), numberOfSteps)
  {
    var hslBase := RgbToHsl(HexToRgb(baseColor));
    result := map[];
    var closestLightness := FindClosestIndex(LightnessTable, hslBase.lightness);
    var diff := hslBase.lightness - LightnessTable[closestLightness];
    var lightnessSteps := ShiftTable(LightnessTable, diff);
    var hue := hslBase.hue + closestLightness as real;
    SetupAgrees(baseColor, closestLightness, lightnessSteps, hue);
    var i := 0;
    ghost var colors := ScaleColors(baseColor);
    NoSteps(result, colors, 0);
    while i < numberOfSteps
      invariant 0 <= i && (i <= numberOfSteps || i == 0)
      invariant hue == hslBase.hue + closestLightness as real - i as real
      invariant HoldsSteps(result, colors, i)
    {
      var lightness := lightnessSteps[i];
      var saturation := SaturationTable[i];
      var hex := HslToHex(hue, saturation, lightness);
      StepStored(baseColor, colors, result, i, hue, saturation, lightness, hex);
      result := result[StopLabel(i) := hex];
      hue := hue - 1.0;
      i := i + 1;
    }
    if numberOfSteps <= 0 {
      NoSteps(result, colors, numberOfSteps);
    }
  }

  /** The scan's answer is the anchor, so the set-up values are those of step 0. */
  lemma SetupAgrees(baseColor: string, k: nat, lightnessSteps: seq<real>, hue: real)
    requires WellFormed(baseColor)
    requires IsFirstClosest(LightnessTable, BaseHsl(baseColor).lightness, k)
    requires lightnessSteps == ShiftTable(LightnessTable, BaseHsl(baseColor).lightness - LightnessTable[k])
    requires hue == BaseHsl(baseColor).hue + k as real
    ensures k == Anchor(BaseHsl(baseColor))
    ensures lightnessSteps == ShiftedLightness(BaseHsl(baseColor))
    ensures hue == StepHue(BaseHsl(baseColor), 0)
  {
    FindAgreesWithReference(LightnessTable, BaseHsl(baseColor).lightness, k);
  }

  /** A count of 0 or less asks for no steps: only the empty record holds them. */
  lemma NoSteps(result: ColorScale, colors: seq<string>, n: int)
    requires |colors| == 11 && n <= 0 && result == map[]
    ensures HoldsSteps(result, colors, n)
  {
    assert StopLabels(n) == {};
  }

  /** The loop's hue, saturation and lightness at step `i` give the colour of that step. */
  lemma StepColor(baseColor: string, i: nat, hue: real, saturation: real, lightness: real)
    requires WellFormed(baseColor) && i < 11
    requires hue == StepHue(BaseHsl(baseColor), i) && saturation == SaturationTable[i]
    requires lightness == ShiftedLightness(BaseHsl(baseColor))[i]
    ensures HslToHex(hue, saturation, lightness) == ScaleColors(baseColor)[i]
  {
  }

  /** The loop body keeps its invariant: storing step `i` gives a scale holding `i + 1` steps. */
  lemma StepStored(baseColor: string, colors: seq<string>, result: ColorScale, i: nat,
                   hue: real, saturation: real, lightness: real, hex: string)
    requires WellFormed(baseColor) && i < 11 && colors == ScaleColors(baseColor)
    requires HoldsSteps(result, colors, i)
    requires hue == StepHue(BaseHsl(baseColor), i) && saturation == SaturationTable[i]
    requires lightness == ShiftedLightness(BaseHsl(baseColor))[i]
    requires hex == HslToHex(hue, saturation, lightness)
    ensures HoldsSteps(result[StopLabel(i) := hex], colors, i + 1)
  {
    StepColor(baseColor, i, hue, saturation, lightness);
    StoreStep(result, colors, i, hex);
  }

  /** Storing the colour of step `i` extends a scale that holds the steps before it. */
  lemma StoreStep(result: ColorScale, colors: seq<string>, i: nat, hex: string)
    requires |colors| == 11 && i < 11 && HoldsSteps(result, colors, i) && hex == colors[i]
    ensures HoldsSteps(result[StopLabel(i) := hex], colors, i + 1)
  {
    forall j: nat | j < i ensures StopLabel(j) != StopLabel(i) {
      StopLabelsDistinct(j, i);
    }
    LabelsGrow(i);
  }

  lemma NewLabel(i: nat)
    requires i < 11
    ensures StopLabel(i) !in StopLabels(i)
  {
    forall j: nat | j < i ensures StopLabel(j) != StopLabel(i) {
      StopLabelsDistinct(j, i);
    }
  }

  lemma LabelsGrow(i: nat)
    requires i < 11
    ensures StopLabels(i + 1) == StopLabels(i) + {StopLabel(i)}
  {
    forall x | x in StopLabels(i + 1) ensures x in StopLabels(i) + {StopLabel(i)} {
      var j: nat :| j < i + 1 && x == StopLabel(j);
      if j < i { assert x in StopLabels(i); }
    }
  }

  lemma StopsIncreasing(i: nat, j: nat)
    requires i < j < 11
    ensures ScaleStops[i] < ScaleStops[j]
  {
  }

  /** Different steps have different labels, so no step overwrites another. */
  lemma StopLabelsDistinct(i: nat, j: nat)
    requires i < 11 && j < 11 && i != j
    ensures StopLabel(i) != StopLabel(j)
  {
    if i < j { StopsIncreasing(i, j); } else { StopsIncreasing(j, i); }
    DecimalStringInjective(ScaleStops[i], ScaleStops[j]);
  }

  /** The labels of the four lightest steps. */
  lemma LightLabels()
    ensures StopLabel(0) == "50" && StopLabel(1) == "100" && StopLabel(2) == "200" && StopLabel(3) == "300"
  {
    assert ScaleStops[..4] == [50, 100, 200, 300];
  }

  /** The labels of the middle steps. */
  lemma MiddleLabels()
    ensures StopLabel(4) == "400" && StopLabel(5) == "500" && StopLabel(6) == "600" && StopLabel(7) == "700"
  {
    assert ScaleStops[4..8] == [400, 500, 600, 700];
  }

  /** The labels of the three darkest steps. */
  lemma DarkLabels()
    ensures StopLabel(8) == "800" && StopLabel(9) == "900" && StopLabel(10) == "950"
  {
    assert ScaleStops[8..] == [800, 900, 950];
  }

  /** The scale has one entry per step: `numberOfSteps` of them, or none for a count below 1. */
  lemma {:induction false} StopLabelsCount(n: int)
    requires n <= 11
    ensures |StopLabels(n)| == if n <= 0 then 0 else n
  {
    if n <= 0 {
      assert StopLabels(n) == {};
    } else {
      LabelsGrow(n - 1);
      NewLabel(n - 1);
      StopLabelsCount(n - 1);
    }
  }

  /** Base lightness values have two decimals, so the shift is exact. */
  lemma ShiftedIsExact(base: Hsl, i: nat)
    requires IsHundredths(base.lightness) && i < 11
    ensures ShiftedLightness(base)[i] == LightnessTable[i] + Offset(base)
  {
    var k := Anchor(base);
    TableWhole(i);
    TableWhole(k);
    var d := LightnessTable[i].Floor - LightnessTable[k].Floor;
    HundredthsPlusInt(base.lightness, d);
    assert LightnessTable[i] + Offset(base) == base.lightness + d as real;
  }

  /** The shifted table takes the base lightness at the anchor. */
  lemma AnchorKeepsBaseLightness(baseColor: string)
    requires WellFormed(baseColor)
    ensures var base := BaseHsl(baseColor);
      ShiftedLightness(base)[Anchor(base)] == base.lightness
  {
    var base := BaseHsl(baseColor);
    ShiftedIsExact(base, Anchor(base));
  }

  /** The lightness table holds whole numbers. */
  lemma TableWhole(i: nat)
    requires i < 11
    ensures LightnessTable[i] == LightnessTable[i].Floor as real
  {
  }

  lemma TableDecreasing(i: nat)
    requires i < 10
    ensures LightnessTable[i] > LightnessTable[i + 1]
  {
  }

  /**
   * Sliding keeps the shape of the table: consecutive steps differ exactly as in the
   * table, so the lightness strictly decreases from "50" to "950".
   */
  lemma ShiftKeepsDifferences(baseColor: string, i: nat)
    requires WellFormed(baseColor) && i < 10
    ensures var t := ShiftedLightness(BaseHsl(baseColor));
      t[i] - t[i + 1] == LightnessTable[i] - LightnessTable[i + 1]
    ensures var t := ShiftedLightness(BaseHsl(baseColor));
      t[i] > t[i + 1]
  {
    var base := BaseHsl(baseColor);
    ShiftedIsExact(base, i);
    ShiftedIsExact(base, i + 1);
    TableDecreasing(i);
  }

  /** The working hue starts at the base hue at the anchor and drops by one degree a step. */
  lemma HueDropsByOne(baseColor: string, i: nat)
    requires WellFormed(baseColor)
    ensures var base := BaseHsl(baseColor);
      StepHue(base, i) - StepHue(base, i + 1) == 1.0 && StepHue(base, Anchor(base)) == base.hue
  {
  }
}
